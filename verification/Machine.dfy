/** Machine integers of the microcontroller code, as ranges of `int`. */
module Machine {
  type byte = x: int | 0 <= x < 0x100
  type word = x: int | 0 <= x < 0x1_0000

  type int16 = x: int | -0x8000 <= x < 0x8000

  predicate Int16(x: int) {
    -0x8000 <= x < 0x8000
  }

  /** C's division, which truncates toward zero. */
  function CDiv(a: int, b: int): int
    requires b != 0
  {
    if a >= 0 then a / b else -((-a) / b)
  }

  function Min(a: int, b: int): int {
    if a < b then a else b
  }

  function Max(a: int, b: int): int {
    if a < b then b else a
  }

  function Abs(a: int): int {
    if a < 0 then -a else a
  }

  // ---------- quotients ----------

  function Quotient(n: nat, d: nat): nat
    requires d > 0
  {
    n / d
  }

  lemma DivBounds(a: nat, d: nat)
    requires d > 0
    ensures a - d < (a / d) * d <= a
  {
  }

  /** `q` is the quotient when it leaves a remainder in range. */
  lemma QuotientIs(a: nat, d: nat, q: nat)
    requires d > 0 && a - d < q * d <= a
    ensures a / d == q
  {
    DivBounds(a, d);
    var p := a / d;
    if p < q {
      OneMore(p, q, d);
    } else if q < p {
      OneMore(q, p, d);
    }
  }

  lemma OneMore(p: nat, q: nat, d: nat)
    requires p < q
    ensures p * d + d <= q * d
    decreases q
  {
    assert q * d == (q - 1) * d + d;
    if p + 1 < q {
      OneMore(p, q - 1, d);
    }
  }

  /** Adding at most the divisor raises the quotient by at most one. */
  lemma QuotientStep(n: nat, d: nat, a: nat)
    requires a <= d && d > 0
    ensures var j := Quotient(n, d);
            Quotient(n + a, d) == if n + a - j * d >= d then j + 1 else j
  {
    DivBounds(n, d);
    var j := n / d;
    assert (j + 1) * d == j * d + d;
    QuotientIs(n + a, d, if n + a - j * d >= d then j + 1 else j);
  }

  lemma QuotientAtMost(a: nat, d: nat, q: nat)
    requires d > 0 && a < q * d + d
    ensures a / d <= q
  {
    DivBounds(a, d);
    if q < a / d {
      OneMore(q, a / d, d);
    }
  }

  lemma ProductGrows(a: nat, b: nat, c: nat)
    requires a <= b
    ensures a * c <= b * c
  {
    if a < b {
      OneMore(a, b, c);
    }
  }
}
