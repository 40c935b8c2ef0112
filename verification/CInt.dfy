/** Integer arithmetic as the C++ sources use it: `/` and `%` truncate toward zero. */
module CInt {
  const INT_MIN: int := -0x8000_0000
  const INT_MAX: int := 0x7FFF_FFFF

  predicate FitsInt(x: int) { INT_MIN <= x <= INT_MAX }

  /** C++ `a / b` for a positive divisor. */
  function Quot(a: int, b: int): int
    requires b > 0
  {
    if a >= 0 then a / b else -((-a) / b)
  }

  /** C++ `a % b` for a positive divisor: the remainder has the sign of `a`. */
  function Rem(a: int, b: int): int
    requires b > 0
  {
    a - b * Quot(a, b)
  }

  /** `static_cast<int>`: the low 32 bits, read as two's complement. */
  function CastInt(x: int): (r: int)
    ensures FitsInt(r)
    ensures FitsInt(x) ==> r == x
    ensures (x - r) % 0x1_0000_0000 == 0
  {
    (x + 0x8000_0000) % 0x1_0000_0000 - 0x8000_0000
  }

  /** The quotient is the one of the absolute values, with the sign of the dividend, and the remainder follows it. */
  lemma Truncates(a: int, b: int)
    requires b > 0
    ensures a >= 0 ==> Quot(a, b) == a / b && Rem(a, b) == a % b
    ensures Quot(-a, b) == -Quot(a, b) && Rem(-a, b) == -Rem(a, b)
  {
  }

  /** Truncating division followed by the usual repair of a negative remainder is floor division. */
  lemma RepairedDivision(a: int, b: int)
    requires b > 0
    ensures Rem(a, b) < 0 ==> Quot(a, b) - 1 == a / b && Rem(a, b) + b == a % b
    ensures Rem(a, b) >= 0 ==> Quot(a, b) == a / b && Rem(a, b) == a % b
  {
    var q, r := (-a) / b, (-a) % b;
    assert -a == q * b + r;
    if a < 0 {
      if r == 0 {
        FloorUnique(a, b, -q, 0);
      } else {
        FloorUnique(a, b, -q - 1, b - r);
      }
    }
  }

  lemma FloorUnique(a: int, b: int, q: int, r: int)
    requires b > 0 && 0 <= r < b && a == q * b + r
    ensures a / b == q && a % b == r
  {
    var k := a / b - q;
    assert a % b == r - k * b;
    assert k >= 1 ==> k * b >= b;
    assert k <= -1 ==> k * b <= -b;
  }
}
