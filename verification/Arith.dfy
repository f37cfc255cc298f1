/** Division with a divisor that is not a constant. */
module Arith {
  function Least(a: int, b: int): int {
    if a < b then a else b
  }

  lemma MulNat(a: nat, b: nat)
    ensures a * b >= 0
  {
  }

  lemma MulGap(a: int, b: int, y: nat)
    requires a < b
    ensures a * y + y <= b * y
  {
    MulNat(b - a - 1, y);
    assert (b - a - 1) * y == b * y - a * y - y;
  }

  /** Quotient and remainder are unique. */
  lemma DivUnique(y: nat, q: int, r: int, q': int, r': int)
    requires q * y + r == q' * y + r' && 0 <= r < y && 0 <= r' < y
    ensures q == q' && r == r'
  {
    if q < q' {
      MulGap(q, q', y);
    } else if q' < q {
      MulGap(q', q, y);
    }
  }

  /** The remainder of a number given as quotient and rest. */
  lemma ModIs(x: int, y: nat, q: int, r: int)
    requires y > 0 && x == q * y + r && 0 <= r < y
    ensures x % y == r && x / y == q
  {
    assert x == x / y * y + x % y;
    DivUnique(y, q, r, x / y, x % y);
  }

  function CeilDiv(n: nat, m: nat): nat
    requires m > 0
  {
    (n + m - 1) / m
  }

  lemma CeilDivIs(n: nat, m: nat)
    requires m > 0
    ensures n <= CeilDiv(n, m) * m < n + m
  {
    assert n + m - 1 == CeilDiv(n, m) * m + (n + m - 1) % m;
  }

  lemma CeilDivMono(a: nat, b: nat, m: nat)
    requires m > 0 && a <= b
    ensures CeilDiv(a, m) <= CeilDiv(b, m)
  {
    CeilDivIs(a, m);
    CeilDivIs(b, m);
    if CeilDiv(b, m) < CeilDiv(a, m) {
      MulGap(CeilDiv(b, m), CeilDiv(a, m), m);
    }
  }

  lemma CeilDivAdd(a: nat, b: nat, m: nat)
    requires m > 0
    ensures CeilDiv(a + b, m) <= CeilDiv(a, m) + CeilDiv(b, m)
  {
    CeilDivIs(a, m);
    CeilDivIs(b, m);
    CeilDivIs(a + b, m);
    var q := CeilDiv(a, m) + CeilDiv(b, m);
    assert q * m == CeilDiv(a, m) * m + CeilDiv(b, m) * m;
    if q < CeilDiv(a + b, m) {
      MulGap(q, CeilDiv(a + b, m), m);
    }
  }
}
