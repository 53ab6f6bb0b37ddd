/**
 Integer division as the dithering engines perform it: C's truncating `/`,
 and the `floor_divide` helper built on top of it so that negative errors
 are rounded toward negative infinity (as Python's `//` does).
 */
module FloorDivision {

  function Abs(n: int): nat {
    if n < 0 then -n else n
  }

  /** C's `/` on `int`: the quotient truncated toward zero. */
  function CDiv(n: int, d: int): (q: int)
    requires d != 0
    ensures d > 0 && n >= 0 ==> q * d <= n < q * d + d
    ensures d > 0 && n < 0 ==> q * d - d < n <= q * d
  {
    var m := Abs(n) / Abs(d);
    DivMod(Abs(n), Abs(d));
    NegateProduct(m, d);
    if (n >= 0) == (d > 0) then m else -m
  }

  /** `floor_divide`: a non-negative numerator goes straight to C's `/`;
      a negative one is first shifted by `denominator - 1` so that the
      truncation lands on the floor. */
  function FloorDivide(numerator: int, denominator: int): (q: int)
    requires denominator != 0
    ensures denominator > 0 ==> q * denominator <= numerator < q * denominator + denominator
  {
    if numerator >= 0 then CDiv(numerator, denominator)
    else CDiv(numerator - denominator + 1, denominator)
  }

  lemma DivMod(a: nat, b: nat)
    requires b > 0
    ensures (a / b) * b <= a < (a / b) * b + b
  {
  }

  lemma NegateProduct(m: int, d: int)
    ensures (-m) * d == -(m * d)
  {
  }

  lemma ProductStep(a: int, b: int, d: int)
    requires d > 0 && a < b
    ensures a * d + d <= b * d
  {
    var k := b - a - 1;
    assert k * d >= 0;
    assert b * d == (a + 1 + k) * d == a * d + d + k * d;
  }

  /** The remainder is the unique `r` in `[0, n)` with `a == q*n + r`. */
  lemma ModUnique(a: nat, n: nat, q: int, r: int)
    requires n > 0 && 0 <= r < n && a == q * n + r
    ensures a % n == r
  {
    var q', r' := a / n, a % n;
    assert a == q' * n + r';
    FloorUnique(a, n, q', q);
  }

  /** Two quotients that both bracket `n` between `q*d` and `q*d + d` agree. */
  lemma FloorUnique(n: int, d: int, q1: int, q2: int)
    requires d > 0
    requires q1 * d <= n < q1 * d + d
    requires q2 * d <= n < q2 * d + d
    ensures q1 == q2
  {
    if q1 < q2 {
      ProductStep(q1, q2, d);
    } else if q2 < q1 {
      ProductStep(q2, q1, d);
    }
  }

  /** For a positive denominator `floor_divide` is mathematical floor
      division (which Dafny's `/` is, for a positive divisor). */
  lemma FloorDivideIsFloor(n: int, d: int)
    requires d > 0
    ensures FloorDivide(n, d) == n / d
  {
    var q := n / d;
    assert n == q * d + n % d;
    FloorUnique(n, d, FloorDivide(n, d), q);
  }

  /** The worked values: -49 floors to -4 (truncation would give -3),
      and the error shares of 100 and -156 over sixteenths. */
  lemma FloorDivideExamples()
    ensures FloorDivide(-49, 16) == -4
    ensures FloorDivide(700, 16) == 43
    ensures FloorDivide(300, 16) == 18
    ensures FloorDivide(500, 16) == 31
    ensures FloorDivide(100, 16) == 6
    ensures FloorDivide(-156 * 7, 16) == -69
    ensures CDiv(-49, 16) == -3
  {
  }
}
