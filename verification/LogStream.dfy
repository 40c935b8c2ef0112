/** Printing integers into a fixed buffer (arale/base/LogStream.cc, arale/base/LogStream.h). */
module LogStream {
  import opened CInt

  const DIGITS: string := "9876543210123456789"
  const ZERO: nat := 9  // `zero` points at this position
  const DIGITS_HEX: string := "0123456789ABCDEF"
  const MAX_NUMERIC_SIZE: nat := 32
  const NUL: char := '\0'

  // ---- Numerals ----

  function Digit(d: nat): char
    requires d < 16
  {
    DIGITS_HEX[d]
  }

  function DigitValue(c: char): (d: nat)
    ensures d < 16
  {
    if '0' <= c <= '9' then c as int - '0' as int
    else if 'A' <= c <= 'F' then 10 + (c as int - 'A' as int)
    else 0
  }

  predicate IsDigit(c: char, base: nat) {
    ('0' <= c <= '9' || 'A' <= c <= 'F') && DigitValue(c) < base
  }

  /** The numeral of `n`, most significant digit first. */
  function Numeral(n: nat, base: nat): (s: string)
    requires 2 <= base <= 16
    ensures |s| > 0
  {
    if n < base then [Digit(n)]
    else
      assert n / base < n by { DivLess(n, base); }
      Numeral(n / base, base) + [Digit(n % base)]
  }

  lemma DivLess(n: nat, base: nat)
    requires base >= 2 && n > 0
    ensures 0 <= n / base < n
  {
    var q := n / base;
    assert n == q * base + n % base;
    assert q * base >= q * 2;
  }

  function Value(s: string, base: nat): nat {
    if s == "" then 0 else Value(s[..|s| - 1], base) * base + DigitValue(s[|s| - 1])
  }

  /** A non-empty run of digits without a leading zero, except for "0" itself. */
  predicate IsNumeral(s: string, base: nat) {
    && s != "" && (|s| > 1 ==> s[0] != '0')
    && forall i :: 0 <= i < |s| ==> IsDigit(s[i], base)
  }

  lemma DigitRoundTrip(d: nat)
    requires d < 16
    ensures DigitValue(Digit(d)) == d
    ensures forall base: nat :: d < base ==> IsDigit(Digit(d), base)
    ensures Digit(d) == '0' <==> d == 0
  {
  }

  /** A numeral extended by one digit. */
  lemma ExtendNumeral(front: string, d: nat, base: nat)
    requires 2 <= base <= 16 && d < base && IsNumeral(front, base) && front[0] != '0'
    ensures IsNumeral(front + [Digit(d)], base)
    ensures Value(front + [Digit(d)], base) == Value(front, base) * base + d
  {
    DigitRoundTrip(d);
    assert (front + [Digit(d)])[..|front|] == front;
  }

  lemma {:induction false} NumeralIsNumeral(n: nat, base: nat)
    requires 2 <= base <= 16
    ensures IsNumeral(Numeral(n, base), base) && Value(Numeral(n, base), base) == n
    ensures n > 0 ==> Numeral(n, base)[0] != '0'
    decreases n
  {
    hide IsNumeral, Value;
    if n >= base {
      DivLess(n, base);
      DivPositive(n, base);
      NumeralIsNumeral(n / base, base);
      var q, d := n / base, n % base;
      ExtendNumeral(Numeral(q, base), d, base);
      DivMod(n, base);
    } else {
      OneDigit(n, base);
    }
  }

  lemma OneDigit(d: nat, base: nat)
    requires 2 <= base <= 16 && d < base
    ensures IsNumeral([Digit(d)], base) && Value([Digit(d)], base) == d && (d > 0 ==> Digit(d) != '0')
  {
    DigitRoundTrip(d);
    assert [Digit(d)][..0] == "";
  }

  lemma DivMod(n: nat, base: nat)
    requires base > 0
    ensures n / base * base + n % base == n && n % base < base
  {
  }

  lemma DivPositive(n: nat, base: nat)
    requires 0 < base <= n
    ensures n / base >= 1
  {
    var q := n / base;
    assert n == q * base + n % base;
    assert q <= 0 ==> q * base <= 0;
  }

  lemma {:induction false} NumeralIsUnique(s: string, base: nat)
    requires 2 <= base <= 16 && IsNumeral(s, base)
    ensures Numeral(Value(s, base), base) == s
    ensures s[0] != '0' ==> Value(s, base) > 0
  {
    var last := DigitValue(s[|s| - 1]);
    assert IsDigit(s[|s| - 1], base) && Digit(last) == s[|s| - 1];
    if |s| == 1 {
      assert s[..0] == "" && Value(s, base) == last;
      assert s == [s[0]];
    } else {
      var front := s[..|s| - 1];
      NumeralIsUnique(front, base);
      var q := Value(front, base);
      MulAtLeast(q, base);
      FloorUnique(q * base + last, base, q, last);
      assert s == front + [s[|s| - 1]];
    }
  }

  lemma MulAtLeast(q: nat, base: nat)
    requires q >= 1
    ensures q * base >= base
  {
  }

  function Pow(base: nat, k: nat): nat {
    if k == 0 then 1 else base * Pow(base, k - 1)
  }

  lemma {:induction false} NumeralLength(n: nat, base: nat, k: nat)
    requires 2 <= base <= 16 && k > 0 && n < Pow(base, k)
    ensures |Numeral(n, base)| <= k
    decreases n
  {
    if n >= base {
      DivLess(n, base);
      assert k >= 2 by {
        assert Pow(base, 1) == base * Pow(base, 0);
      }
      assert n / base < Pow(base, k - 1) by { DivBound(n, base, Pow(base, k - 1)); }
      NumeralLength(n / base, base, k - 1);
    }
  }

  lemma DivBound(n: nat, base: nat, m: nat)
    requires base > 0 && n < base * m
    ensures n / base < m
  {
    var q := n / base;
    assert n == q * base + n % base;
    assert q >= m ==> q * base >= m * base;
  }

  /** The decimal form of an integer. */
  function Decimal(v: int): string {
    if v < 0 then "-" + Numeral(-v, 10) else Numeral(v, 10)
  }

  function ParseDecimal(s: string): int {
    if s != "" && s[0] == '-' then 0 - Value(s[1..], 10) else Value(s, 10)
  }

  /** No superfluous zero or sign. */
  predicate IsCanonical(s: string) {
    if s != "" && s[0] == '-' then IsNumeral(s[1..], 10) && s[1] != '0' else IsNumeral(s, 10)
  }

  /** The decimal form is canonical and reads back as the integer. */
  lemma DecimalRoundTrip(v: int)
    ensures IsCanonical(Decimal(v)) && ParseDecimal(Decimal(v)) == v
  {
    var n := if v < 0 then -v else v;
    NumeralIsNumeral(n, 10);
    var s := Numeral(n, 10);
    assert IsDigit(s[0], 10);
    assert ("-" + s)[1..] == s;
  }

  /** And it is the only canonical form of the integer. */
  lemma DecimalIsUnique(s: string)
    requires IsCanonical(s)
    ensures Decimal(ParseDecimal(s)) == s
  {
    if s[0] == '-' {
      NumeralIsUnique(s[1..], 10);
      assert s == "-" + s[1..];
    } else {
      NumeralIsUnique(s, 10);
    }
  }

  /** The characters of the digits. */
  lemma DigitsInCharacters(d: nat)
    requires d < 16
    ensures Digit(d) == if d < 10 then '0' + (d as char) else 'A' + ((d - 10) as char)
    ensures Numeral(d, 16) == [Digit(d)]
    ensures d < 10 ==> Decimal(d) == [Digit(d)] && (d > 0 ==> Decimal(-(d as int)) == "-" + [Digit(d)])
  {
  }

  /** The sign comes first, and the most significant digit before the others. */
  lemma DecimalSample()
    ensures Decimal(-120) == "-120"
  {
    assert Numeral(12, 10) == Numeral(1, 10) + ['2'];
    assert Numeral(120, 10) == Numeral(12, 10) + ['0'];
  }

  // ---- 64-bit integers ----

  predicate FitsInt64(v: int) {
    -0x8000_0000_0000_0000 <= v <= 0xFFFF_FFFF_FFFF_FFFF
  }

  lemma {:induction false} PowAdd(base: nat, i: nat, k: nat)
    ensures Pow(base, i + k) == Pow(base, i) * Pow(base, k)
  {
    if i > 0 {
      PowAdd(base, i - 1, k);
      assert base * (Pow(base, i - 1) * Pow(base, k)) == base * Pow(base, i - 1) * Pow(base, k);
    }
  }

  /** Every signed or unsigned 64-bit integer, the minimum included, prints in at most 20 characters. */
  lemma DecimalLength(v: int)
    requires FitsInt64(v)
    ensures |Decimal(v)| <= 20
  {
    assert Pow(10, 5) == 100_000 && Pow(10, 4) == 10_000;
    PowAdd(10, 5, 5);
    PowAdd(10, 5, 4);
    PowAdd(10, 10, 10);
    PowAdd(10, 10, 9);
    if v < 0 {
      NumeralLength(-v, 10, 19);
    } else {
      NumeralLength(v, 10, 20);
    }
  }

  lemma HexLength(v: nat)
    requires v <= 0xFFFF_FFFF_FFFF_FFFF
    ensures |Numeral(v, 16)| <= 16
  {
    assert Pow(16, 4) == 0x1_0000;
    PowAdd(16, 4, 4);
    PowAdd(16, 8, 8);
    NumeralLength(v, 16, 16);
  }

  // ---- Writing and reversing ----

  /** The numeral, least significant digit first: the order in which the loops write it. */
  function LowFirst(n: nat, base: nat): (s: string)
    requires 2 <= base <= 16
    ensures |s| > 0
  {
    if n < base then [Digit(n)]
    else
      assert n / base < n by { DivLess(n, base); }
      [Digit(n % base)] + LowFirst(n / base, base)
  }

  function Reverse(s: string): (r: string)
    ensures |r| == |s|
  {
    if s == "" then "" else Reverse(s[1..]) + [s[0]]
  }

  lemma {:induction false} ReverseAt(s: string, k: nat)
    requires k < |s|
    ensures Reverse(s)[k] == s[|s| - 1 - k]
  {
    if k < |s| - 1 {
      ReverseAt(s[1..], k);
    }
  }

  lemma {:induction false} ReverseLowFirst(n: nat, base: nat)
    requires 2 <= base <= 16
    ensures Reverse(LowFirst(n, base)) == Numeral(n, base)
    decreases n
  {
    if n >= base {
      DivLess(n, base);
      ReverseLowFirst(n / base, base);
      assert LowFirst(n, base)[1..] == LowFirst(n / base, base);
    } else {
      assert Reverse([Digit(n)][1..]) == "";
    }
  }

  lemma {:induction false} ReverseAppend(s: string, c: char)
    ensures Reverse(s + [c]) == [c] + Reverse(s)
  {
    if s == "" {
      assert s + [c] == [c] && [c][1..] == "";
    } else {
      assert (s + [c])[1..] == s[1..] + [c];
      ReverseAppend(s[1..], c);
    }
  }

  /** Everything outside positions lo to hi is as it was. */
  twostate predicate OnlyChanged(buf: array<char>, lo: nat, hi: nat)
    reads buf
  {
    forall j :: 0 <= j < buf.Length && !(lo <= j < hi) ==> buf[j] == old(buf[j])
  }

  /** `std::reverse(buf + lo, buf + hi)`. */
  method ReverseRange(buf: array<char>, lo: nat, hi: nat)
    requires lo <= hi <= buf.Length
    modifies buf
    ensures buf[lo..hi] == Reverse(old(buf[lo..hi]))
    ensures OnlyChanged(buf, lo, hi)
  {
    hide Reverse;
    ghost var s := buf[lo..hi];
    var n := hi - lo;
    var i := 0;
    while i < n / 2
      invariant 0 <= i <= n / 2
      invariant forall j :: lo <= j < lo + i || hi - i <= j < hi ==> buf[j] == s[n - 1 - (j - lo)]
      invariant forall j :: lo + i <= j < hi - i ==> buf[j] == s[j - lo]
      invariant OnlyChanged(buf, lo, hi)
    {
      buf[lo + i], buf[hi - 1 - i] := buf[hi - 1 - i], buf[lo + i];
      i := i + 1;
    }
    IsReversed(buf[lo..hi], s);
  }

  lemma IsReversed(t: string, s: string)
    requires |t| == |s| && forall k :: 0 <= k < |t| ==> t[k] == s[|s| - 1 - k]
    ensures t == Reverse(s)
  {
    forall k | 0 <= k < |s| ensures t[k] == Reverse(s)[k] {
      ReverseAt(s, k);
    }
  }

  /** `convert`, from position `at` of the array: C++ division truncates, so the digits of a negative
      value come out negative and `zero` is indexed on both sides. */
  method Convert(buf: array<char>, at: nat, value: int) returns (len: nat)
    requires FitsInt64(value) && at + MAX_NUMERIC_SIZE <= buf.Length
    modifies buf
    ensures len <= 20 && buf[at..at + len] == Decimal(value) && buf[at + len] == '\0'
    ensures OnlyChanged(buf, at, at + len + 1)
  {
    hide LowFirst, Reverse, Numeral;
    DecimalLength(value);
    ghost var n := Abs(value);
    ghost var low := LowFirst(n, 10);
    LowFirstLength(n, 10);
    var p := WriteDigits(buf, at, value);
    if value < 0 {
      buf[p] := '-';
      p := p + 1;
    }
    buf[p] := NUL;
    assert buf[at..p] == if value < 0 then low + ['-'] else low;
    ReverseLowFirst(n, 10);
    ReverseAppend(low, '-');
    ReverseRange(buf, at, p);
    len := p - at;
  }

  /** The do-while loop of `convert`. */
  method WriteDigits(buf: array<char>, at: nat, value: int) returns (p: nat)
    requires FitsInt64(value) && at + MAX_NUMERIC_SIZE <= buf.Length
    modifies buf
    ensures at <= p <= at + 20 && buf[at..p] == LowFirst(Abs(value), 10)
    ensures OnlyChanged(buf, at, p)
  {
    hide LowFirst, Numeral, Quot, Rem, Abs;
    LowFirstLength64(value);
    ghost var low := LowFirst(Abs(value), 10);
    var i := value;
    p := at;
    var more := true;
    while more
      invariant at <= p <= at + |low|
      invariant more ==> buf[at..p] + LowFirst(Abs(i), 10) == low
      invariant !more ==> buf[at..p] == low
      invariant OnlyChanged(buf, at, p)
      decreases more, Abs(i)
    {
      ghost var before := buf[at..p];
      var lsd := Rem(i, 10);
      var rest := Quot(i, 10);
      TruncatedDigit(i, lsd, rest);
      i := rest;
      buf[p] := DIGITS[ZERO + lsd];
      assert buf[at..p + 1] == before + [buf[p]];
      p := p + 1;
      more := i != 0;
    }
  }

  lemma LowFirstLength64(value: int)
    requires FitsInt64(value)
    ensures |LowFirst(Abs(value), 10)| <= 20
  {
    DecimalLength(value);
    LowFirstLength(Abs(value), 10);
  }

  /** `convertHex`. */
  method ConvertHex(buf: array<char>, at: nat, value: nat) returns (len: nat)
    requires value <= 0xFFFF_FFFF_FFFF_FFFF && at + 17 <= buf.Length
    modifies buf
    ensures len <= 16 && buf[at..at + len] == Numeral(value, 16) && buf[at + len] == '\0'
    ensures OnlyChanged(buf, at, at + len + 1)
  {
    hide LowFirst, Reverse, Numeral;
    HexLength(value);
    ghost var low := LowFirst(value, 16);
    LowFirstLength(value, 16);
    var i := value;
    var p := at;
    var more := true;
    while more
      invariant at <= p <= at + |low|
      invariant more ==> buf[at..p] + LowFirst(i, 16) == low
      invariant !more ==> buf[at..p] == low
      invariant OnlyChanged(buf, at, p)
      decreases more, i
    {
      ghost var before := buf[at..p];
      HexDigit(i);
      var lsd := i % 16;
      i := i / 16;
      buf[p] := DIGITS_HEX[lsd];
      assert buf[at..p + 1] == before + [buf[p]];
      p := p + 1;
      more := i != 0;
    }
    buf[p] := NUL;
    assert buf[at..p] == low;
    ReverseLowFirst(value, 16);
    ReverseRange(buf, at, p);
    len := p - at;
  }

  lemma HexDigit(i: nat)
    ensures LowFirst(i, 16) == [Digit(i % 16)] + (if i < 16 then "" else LowFirst(i / 16, 16))
    ensures (i / 16 == 0 <==> i < 16) && (i > 0 ==> i / 16 < i)
  {
  }

  lemma {:induction false} LowFirstLength(n: nat, base: nat)
    requires 2 <= base <= 16
    ensures |LowFirst(n, base)| == |Numeral(n, base)|
    decreases n
  {
    if n >= base {
      DivLess(n, base);
      LowFirstLength(n / base, base);
    }
  }

  function Abs(i: int): nat {
    if i < 0 then -i else i
  }

  /** One turn of the loop: the character it writes, and the numeral that is left. */
  lemma TruncatedDigit(i: int, lsd: int, rest: int)
    requires lsd == Rem(i, 10) && rest == Quot(i, 10)
    ensures -9 <= lsd <= 9 && (rest != 0 ==> Abs(rest) < Abs(i))
    ensures LowFirst(Abs(i), 10) == [DIGITS[ZERO + lsd]] + (if rest == 0 then "" else LowFirst(Abs(rest), 10))
  {
    assert Abs(rest) == Abs(i) / 10 && Abs(lsd) == Abs(i) % 10;
    assert DIGITS[ZERO + lsd] == Digit(Abs(lsd));
  }

  // ---- The buffer ----

  class FixedBuffer {
    const data: array<char>
    var cur: nat

    ghost predicate Valid()
      reads this
    {
      cur <= data.Length
    }

    ghost function Contents(): string
      requires Valid()
      reads this, data
    {
      data[..cur]
    }

    constructor (size: nat)
      ensures Valid() && fresh(data) && data.Length == size && Contents() == ""
    {
      data := new char[size](_ => NUL);
      cur := 0;
    }

    function Avail(): nat
      requires Valid()
      reads this
    {
      data.Length - cur
    }

    /** Appends all or nothing, and leaves room for a terminator if there was any. */
    method Append(s: string)
      requires Valid()
      modifies this`cur, data
      ensures Valid() && Contents() == old(Contents()) + if data.Length - old(cur) > |s| then s else ""
      ensures old(Avail()) > 0 ==> Avail() > 0
    {
      if Avail() > |s| {
        forall k | 0 <= k < |s| { data[cur + k] := s[k]; }
        cur := cur + |s|;
      }
    }

    /** `LogStream::formatInteger`: the decimal form, or nothing if fewer than 32 bytes are left. */
    method FormatInteger(v: int)
      requires Valid() && FitsInt64(v)
      modifies this`cur, data
      ensures Valid() && Contents() == old(Contents()) + if data.Length - old(cur) >= 32 then Decimal(v) else ""
      ensures data.Length - old(cur) >= 32 ==> cur < data.Length && data[cur] == '\0'
    {
      hide Decimal;
      if Avail() >= MAX_NUMERIC_SIZE {
        ghost var before := data[..cur];
        var len := Convert(data, cur, v);
        assert data[..cur] == before;
        cur := cur + len;
      }
    }

    /** `operator<<(const void*)`: 0x and the hexadecimal form. */
    method FormatPointer(v: nat)
      requires Valid() && v <= 0xFFFF_FFFF_FFFF_FFFF
      modifies this`cur, data
      ensures Valid() && Contents() ==
                         old(Contents()) + if data.Length - old(cur) >= 32 then "0x" + Numeral(v, 16) else ""
    {
      hide Numeral;
      if Avail() >= MAX_NUMERIC_SIZE {
        ghost var before := data[..cur];
        data[cur] := '0';
        data[cur + 1] := 'x';
        assert data[..cur + 2] == before + "0x";
        var len := ConvertHex(data, cur + 2, v);
        assert data[..cur + 2] == before + "0x";
        cur := cur + (len + 2);
      }
    }
  }
}
