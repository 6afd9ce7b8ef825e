/** Reduction of a fraction to lowest terms (`reduceFraction` in main.ts).

    The source scans candidate divisors from the numerator down to 1 and
    divides both numbers by the first one that divides both. This module
    defines the reference result with Euclid's greatest common divisor
    (`Reduce`), and proves that the source's linear descent
    (`ReduceFraction`) computes exactly that. */
module Reduction {

  /** `c` divides `a` (JavaScript's `a % c === 0` for a positive `c`;
      the sign of `a` does not matter, as with Dafny's `%`). */
  predicate Divides(c: int, a: int)
    requires c >= 1
  {
    a % c == 0
  }

  predicate IsCommonDivisor(c: int, a: int, b: int)
  {
    c >= 1 && Divides(c, a) && Divides(c, b)
  }

  /** No common divisor greater than 1: the fraction p/q is in lowest terms. */
  predicate LowestTerms(p: int, q: int)
    requires p >= 1
  {
    forall c :: 1 < c <= p ==> !IsCommonDivisor(c, p, q)
  }

  function Abs(x: int): nat
  {
    if x < 0 then -x else x
  }

  /** Euclid's algorithm. */
  function Gcd(a: nat, b: nat): nat
    decreases b
  {
    if b == 0 then a else Gcd(b, a % b)
  }

  // ---------------------------------------------------------------------
  // Divisibility facts

  lemma MultipleDivides(c: int, k: int)
    requires c >= 1
    ensures (c * k) % c == 0 && (c * k) / c == k
  {
    var q, r := (c * k) / c, (c * k) % c;
    assert c * k == c * q + r && 0 <= r < c;
    assert c * (k - q) == r;
    assert k - q >= 1 ==> c * (k - q) >= c * 1;
    assert k - q <= -1 ==> c * (k - q) <= c * -1;
  }

  lemma DivisorFactor(c: int, a: int)
    requires c >= 1 && Divides(c, a)
    ensures a == c * (a / c)
  {
  }

  lemma DivisorAtMost(c: int, a: int)
    requires c >= 1 && a >= 1 && Divides(c, a)
    ensures c <= a
  {
    DivisorFactor(c, a);
    var k := a / c;
    assert k <= 0 ==> c * k <= 0;
    assert k >= 1 ==> c * k >= c * 1;
  }

  lemma DividesNegation(c: int, a: int)
    requires c >= 1
    ensures Divides(c, a) <==> Divides(c, -a)
  {
    if Divides(c, a) {
      NegatedMultiple(c, a);
    }
    if Divides(c, -a) {
      NegatedMultiple(c, -a);
    }
  }

  lemma NegatedMultiple(c: int, a: int)
    requires c >= 1 && Divides(c, a)
    ensures Divides(c, -a)
  {
    var k := a / c;
    DivisorFactor(c, a);
    assert -a == c * -k;
    MultipleDivides(c, -k);
  }

  lemma DividesAbs(c: int, a: int)
    requires c >= 1
    ensures Divides(c, a) <==> Divides(c, Abs(a))
  {
    DividesNegation(c, a);
  }

  /** If c divides a and b, it divides a - m * b. */
  lemma DividesLinear(c: int, a: int, b: int, m: int)
    requires c >= 1 && Divides(c, a) && Divides(c, b)
    ensures Divides(c, a - m * b)
  {
    DivisorFactor(c, a);
    DivisorFactor(c, b);
    var x, y := a / c, b / c;
    assert a - m * b == c * (x - m * y) by {
      assert m * b == m * (c * y) == c * (m * y);
    }
    MultipleDivides(c, x - m * y);
  }

  /** If c divides b and a - m * b, it divides a. */
  lemma DividesFromLinear(c: int, a: int, b: int, m: int)
    requires c >= 1 && Divides(c, b) && Divides(c, a - m * b)
    ensures Divides(c, a)
  {
    DividesLinear(c, a - m * b, b, -m);
    assert (a - m * b) - (-m) * b == a;
  }

  /** If c divides both parts of a/b then c * g divides both parts whenever
      g divides the quotients. */
  lemma ScaledDivides(c: int, g: int, a: int)
    requires c >= 1 && g >= 1 && Divides(g, a) && Divides(c, a / g)
    ensures Divides(c * g, a)
  {
    DivisorFactor(g, a);
    DivisorFactor(c, a / g);
    var k := (a / g) / c;
    assert a == g * (c * k);
    assert a == (c * g) * k;
    MultipleDivides(c * g, k);
  }

  // ---------------------------------------------------------------------
  // Euclid's algorithm is the greatest common divisor

  lemma {:induction false} GcdDividesBoth(a: nat, b: nat)
    requires a >= 1 || b >= 1
    ensures Gcd(a, b) >= 1 && Divides(Gcd(a, b), a) && Divides(Gcd(a, b), b)
    decreases b
  {
    if b == 0 {
      MultipleDivides(a, 1);
      MultipleDivides(a, 0);
    } else {
      GcdDividesBoth(b, a % b);
      var g := Gcd(b, a % b);
      assert a % b == a - (a / b) * b;
      DividesFromLinear(g, a, b, a / b);
    }
  }

  lemma {:induction false} GcdGreatest(a: nat, b: nat, c: int)
    requires IsCommonDivisor(c, a, b)
    ensures Divides(c, Gcd(a, b))
    decreases b
  {
    if b != 0 {
      assert a % b == a - (a / b) * b;
      DividesLinear(c, a, b, a / b);
      GcdGreatest(b, a % b, c);
    }
  }

  /** Among the candidates 1..n, the greatest common divisor of n and d is
      the largest one dividing both: the divisor the source's descent stops at. */
  lemma GcdIsLargestUpTo(n: int, d: int, i: int)
    requires n >= 1 && IsCommonDivisor(i, n, d)
    requires forall j :: i < j <= n ==> !IsCommonDivisor(j, n, d)
    ensures i == Gcd(n, Abs(d))
  {
    var g := Gcd(n, Abs(d));
    GcdDividesBoth(n, Abs(d));
    DividesAbs(g, d);
    DivisorAtMost(g, n);
    assert IsCommonDivisor(g, n, d);
    assert g <= i;
    DividesAbs(i, d);
    GcdGreatest(n, Abs(d), i);
    DivisorAtMost(i, g);
  }

  // ---------------------------------------------------------------------
  // The reference reduction

  /** The fraction n/d divided through by gcd(n, |d|), or n/d untouched when
      the numerator is not positive (the source's loop then never runs). */
  function Reduce(n: int, d: int): (r: (int, int))
    ensures n <= 0 ==> r == (n, d)
    ensures n >= 1 ==> r.0 >= 1 && r.0 * d == n * r.1
    ensures n >= 1 ==> Divides(r.0, n) && IsCommonDivisor(n / r.0, n, d)
    ensures n >= 1 ==> r.0 <= n && LowestTerms(r.0, r.1)
  {
    if n <= 0 then (n, d)
    else
      var g := Gcd(n, Abs(d));
      ReduceFacts(n, d, g);
      (n / g, d / g)
  }

  lemma ReduceFacts(n: int, d: int, g: int)
    requires n >= 1 && g == Gcd(n, Abs(d))
    ensures g >= 1 && IsCommonDivisor(g, n, d)
    ensures n / g >= 1 && n / g <= n && (n / g) * d == n * (d / g)
    ensures Divides(n / g, n) && n / (n / g) == g
    ensures LowestTerms(n / g, d / g)
  {
    GcdDividesBoth(n, Abs(d));
    DividesAbs(g, d);
    QuotientFacts(n, d, g);
    QuotientLowestTerms(n, d, g);
  }

  lemma QuotientFacts(n: int, d: int, g: int)
    requires n >= 1 && g >= 1 && IsCommonDivisor(g, n, d)
    ensures n / g >= 1 && n / g <= n && (n / g) * d == n * (d / g)
    ensures Divides(n / g, n) && n / (n / g) == g
  {
    DivisorFactor(g, n);
    DivisorFactor(g, d);
    var a, b := n / g, d / g;
    PositiveFactor(n, g, a);
    CrossProduct(g, a, b);
    MultipleDivides(a, g);
    assert a * g == n;
  }

  lemma PositiveFactor(n: int, g: int, a: int)
    requires n >= 1 && g >= 1 && n == g * a
    ensures 1 <= a <= n
  {
    assert a <= 0 ==> g * a <= 0;
    assert a >= 1 ==> g * a >= 1 * a;
  }

  lemma CrossProduct(g: int, a: int, b: int)
    ensures a * (g * b) == (g * a) * b
  {
  }

  lemma ScaleAbove(c: int, g: int)
    requires c > 1 && g >= 1
    ensures c * g > g
  {
    assert c * g >= 2 * g;
  }

  lemma QuotientLowestTerms(n: int, d: int, g: int)
    requires n >= 1 && g == Gcd(n, Abs(d)) && g >= 1 && IsCommonDivisor(g, n, d)
    requires n / g >= 1
    ensures LowestTerms(n / g, d / g)
  {
    var a, b := n / g, d / g;
    forall c | 1 < c <= a
      ensures !IsCommonDivisor(c, a, b)
    {
      if IsCommonDivisor(c, a, b) {
        ScaledDivides(c, g, n);
        ScaledDivides(c, g, d);
        DividesAbs(c * g, d);
        GcdGreatest(n, Abs(d), c * g);
        ScaleAbove(c, g);
        DivisorAtMost(c * g, g);
      }
    }
  }

  /** Reducing a reduced fraction changes nothing. */
  lemma ReduceIdempotent(n: int, d: int)
    ensures Reduce(Reduce(n, d).0, Reduce(n, d).1) == Reduce(n, d)
  {
    if n >= 1 {
      var (p, q) := Reduce(n, d);
      var g := Gcd(p, Abs(q));
      ReduceFacts(p, q, g);
      DivisorAtMost(g, p);
      assert g == 1;
      MultipleDivides(1, p);
      MultipleDivides(1, q);
    }
  }

  // ---------------------------------------------------------------------
  // The source algorithm

  /** `reduceFraction(numerator, denominator)`: try every i from the
      numerator down to 1 and divide both numbers by the first common
      divisor. The fall-through return after the loop is taken only when
      the numerator is not positive. */
  method ReduceFraction(numerator: int, denominator: int) returns (p: int, q: int)
    ensures (p, q) == Reduce(numerator, denominator)
  {
    var i := numerator;
    while i > 0
      invariant i <= numerator
      invariant numerator >= 1 ==> i >= 0
      invariant forall j :: i < j <= numerator ==> !IsCommonDivisor(j, numerator, denominator)
    {
      if numerator % i == 0 && denominator % i == 0 {
        GcdIsLargestUpTo(numerator, denominator, i);
        return numerator / i, denominator / i;
      }
      i := i - 1;
    }
    // With a positive numerator, i = 1 divides both and the loop has returned.
    assert numerator >= 1 ==> IsCommonDivisor(1, numerator, denominator);
    assert numerator <= 0;
    return numerator, denominator;
  }
}
