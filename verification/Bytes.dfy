/** Bytes, network byte order (arale/net/Endian.h) and the two readings of a defective line. */
module Bytes {
  import CInt

  type byte = x: int | 0 <= x < 256

  const CR: byte := 13
  const LF: byte := 10

  /** Some lines of the sources do not do what the code around them needs. Operations with such a
      line take a Form: the line as it is written, or the line its callers rely on. */
  datatype Form = AsWritten | Intended

  function Pow256(width: nat): (p: nat)
    ensures p > 0
  {
    if width == 0 then 1 else 256 * Pow256(width - 1)
  }

  /** The values of a signed integer type of `width` bytes. */
  predicate FitsSigned(x: int, width: nat) {
    0 <= 2 * x + Pow256(width) < 2 * Pow256(width)
  }

  function Unsigned(x: int, width: nat): (u: nat)
    requires FitsSigned(x, width)
    ensures u < Pow256(width)
  {
    if x < 0 then x + Pow256(width) else x
  }

  function Signed(u: nat, width: nat): int {
    if 2 * u < Pow256(width) then u else u - Pow256(width)
  }

  /** Most significant byte first. */
  function BigEndian(u: nat, width: nat): (s: seq<byte>)
    requires u < Pow256(width)
    ensures |s| == width
  {
    if width == 0 then []
    else
      assert u / 256 < Pow256(width - 1);
      BigEndian(u / 256, width - 1) + [u % 256]
  }

  function FromBigEndian(s: seq<byte>): (u: nat)
    ensures u < Pow256(|s|)
  {
    if s == [] then 0 else 256 * FromBigEndian(s[..|s| - 1]) + s[|s| - 1]
  }

  lemma {:induction false} BigEndianRoundTrip(u: nat, width: nat)
    requires u < Pow256(width)
    ensures FromBigEndian(BigEndian(u, width)) == u
  {
    if width > 0 {
      BigEndianRoundTrip(u / 256, width - 1);
      assert BigEndian(u, width)[..width - 1] == BigEndian(u / 256, width - 1);
    }
  }

  lemma {:induction false} BytesRoundTrip(s: seq<byte>)
    ensures BigEndian(FromBigEndian(s), |s|) == s
  {
    if s != [] {
      var front := s[..|s| - 1];
      BytesRoundTrip(front);
      var u := FromBigEndian(s);
      assert u / 256 == FromBigEndian(front) && u % 256 == s[|s| - 1];
      assert s == front + [s[|s| - 1]];
    }
  }

  /** Which byte is where: the first one counts 256^(width - 1), the last one counts 1. */
  lemma {:induction false} BigEndianAt(u: nat, width: nat, i: nat)
    requires u < Pow256(width) && i < width
    ensures BigEndian(u, width)[i] == u / Pow256(width - 1 - i) % 256
    decreases width
  {
    if i < width - 1 {
      BigEndianAt(u / 256, width - 1, i);
      DivDiv(u, Pow256(width - 2 - i));
    }
  }

  lemma DivDiv(u: nat, p: nat)
    requires p > 0
    ensures u / 256 / p == u / (256 * p)
  {
    var a, b := u / 256, u % 256;
    var q, r := a / p, a % p;
    assert u == 256 * (q * p + r) + b;
    assert 256 * (q * p + r) + b == q * (256 * p) + (256 * r + b);
    var s := 256 * r + b;
    assert 0 <= s < 256 * p;
    CInt.FloorUnique(u, 256 * p, q, s);
  }

  lemma Powers()
    ensures Pow256(0) == 1 && Pow256(1) == 256 && Pow256(2) == 65536
    ensures Pow256(3) == 0x100_0000 && Pow256(4) == 0x1_0000_0000 && Pow256(8) == 0x1_0000_0000_0000_0000
  {
    assert Pow256(5) == 256 * Pow256(4) && Pow256(6) == 256 * Pow256(5) && Pow256(7) == 256 * Pow256(6);
  }

  /** `hostToNetwork` and the copy into a byte array. */
  function Encode(x: int, width: nat): (s: seq<byte>)
    requires FitsSigned(x, width)
    ensures |s| == width
  {
    BigEndian(Unsigned(x, width), width)
  }

  /** The copy out of a byte array and `networkToHost`. */
  function Decode(s: seq<byte>): int {
    Signed(FromBigEndian(s), |s|)
  }

  /** Writing a signed integer of any width and reading it back gives the integer. */
  lemma IntRoundTrip(x: int, width: nat)
    requires FitsSigned(x, width)
    ensures Decode(Encode(x, width)) == x
  {
    BigEndianRoundTrip(Unsigned(x, width), width);
  }

  /** A 32-bit integer on the wire: two's complement, most significant byte first. */
  lemma Int32OnWire(x: int)
    requires -0x8000_0000 <= x < 0x8000_0000
    ensures FitsSigned(x, 4)
    ensures var u := if x < 0 then x + 0x1_0000_0000 else x;
            Encode(x, 4) == [u / 0x100_0000, u / 65536 % 256, u / 256 % 256, u % 256]
  {
    hide BigEndian, Pow256;
    Powers();
    var u := Unsigned(x, 4);
    BigEndianAt(u, 4, 0);
    BigEndianAt(u, 4, 1);
    BigEndianAt(u, 4, 2);
    BigEndianAt(u, 4, 3);
    assert u / 0x100_0000 % 256 == u / 0x100_0000;
  }

  /** At any width the bytes of an integer are those of its two's complement. */
  lemma TwosComplement(x: int, width: nat)
    requires FitsSigned(x, width)
    ensures FromBigEndian(Encode(x, width)) == if x < 0 then x + Pow256(width) else x
  {
    BigEndianRoundTrip(Unsigned(x, width), width);
  }

  /** The two bytes that end a line. */
  lemma LineEndBytes()
    ensures CR == 13 && LF == 10
  {
  }

  /** Reading any bytes as a signed integer gives a value of that width that writes the same bytes. */
  lemma WireRoundTrip(s: seq<byte>)
    ensures |s| > 0 ==> FitsSigned(Decode(s), |s|) && Encode(Decode(s), |s|) == s
  {
    if s != [] {
      BytesRoundTrip(s);
      assert Pow256(|s|) == 256 * Pow256(|s| - 1);
    }
  }

  /** The stream that was delivered in these pieces. */
  function Concat(pieces: seq<seq<byte>>): seq<byte> {
    if pieces == [] then [] else pieces[0] + Concat(pieces[1..])
  }
}
