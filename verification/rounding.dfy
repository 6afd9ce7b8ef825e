/** Rounding a decimal to the nearest multiple of 1/N (`decimalToFraction`
    in main.ts) and reading a fraction back (`fractionToDecimal`). */
module Rounding {
  import opened Wrappers
  import opened JsNumber
  import opened JsText
  import opened Reduction

  /** The rounding-method select list: `'up'`, or anything else, which the
      source treats as rounding down. */
  datatype RoundMethod = Up | Down

  function MethodOf(value: string): RoundMethod
  {
    if value == "up" then Up else Down
  }

  /** One candidate fraction numerator/N, with its value. */
  datatype FractionalUnit = FractionalUnit(decimalValue: real, numerator: int)

  /** The result of `decimalToFraction` before it becomes text: the decimal
      itself (`decimal.toString()`), or a whole part and a reduced fraction
      (`"<whole> <num>/<den>"`, the whole part left out when it is 0). */
  datatype Display = Plain(n: Num) | Mixed(whole: int, num: int, den: int)

  /** `new Array(len)` throws a RangeError beyond this length. */
  const MaxArrayLength: nat := 0xFFFF_FFFF

  function Frac(k: int, n: int): real
    requires n >= 1
  {
    k as real / n as real
  }

  lemma FracAbove(k: int, n: int, x: real)
    requires n >= 1
    ensures Frac(k, n) >= x <==> k as real >= x * n as real
    ensures Frac(k, n) > x <==> k as real > x * n as real
  {
    var q := Frac(k, n);
    assert q * n as real == k as real;
    MulMonotone(q, x, n as real);
  }

  lemma MulMonotone(a: real, b: real, c: real)
    requires c > 0.0
    ensures a >= b <==> a * c >= b * c
    ensures a > b <==> a * c > b * c
  {
    assert a * c - b * c == (a - b) * c;
  }

  lemma FracMonotone(j: int, k: int, n: int)
    requires n >= 1 && j < k
    ensures Frac(j, n) < Frac(k, n)
  {
    FracAbove(k, n, Frac(j, n));
    assert Frac(j, n) * n as real == j as real;
  }

  /** JavaScript's truncation toward zero, the integer part `x - x % 1`. */
  function Trunc(x: real): int
  {
    if x >= 0.0 then x.Floor else -((-x).Floor)
  }

  function Ceil(x: real): int
  {
    -((-x).Floor)
  }

  /** `x % 1`: the fractional part, carrying the sign of `x`. */
  function Remainder(x: real): (r: real)
    ensures -1.0 < r < 1.0
    ensures x >= 0.0 ==> r >= 0.0
    ensures x <= 0.0 ==> r <= 0.0
    ensures r == 0.0 <==> IsIntegral(x)
    ensures IsIntegral(x - r)
  {
    RemainderFacts(x);
    x - Trunc(x) as real
  }

  lemma RemainderFacts(x: real)
    ensures -1.0 < x - Trunc(x) as real < 1.0
    ensures x >= 0.0 ==> x - Trunc(x) as real >= 0.0
    ensures x <= 0.0 ==> x - Trunc(x) as real <= 0.0
    ensures x - Trunc(x) as real == 0.0 <==> IsIntegral(x)
  {
    if x < 0.0 {
      var f := (-x).Floor;
      assert f as real <= -x < f as real + 1.0;
      if x == -(f as real) {
        assert (-f) as real == x;
        IntegralFloor(x, -f);
      }
      if IsIntegral(x) {
        IntegralFloor(-x, -(x.Floor));
      }
    }
  }

  lemma IntegralFloor(x: real, k: int)
    requires x == k as real
    ensures x.Floor == k
  {
  }

  // ---------------------------------------------------------------------
  // Candidates and the array helpers

  /** `new Array(divisions).fill(undefined).map(...)`: the fractions
      1/N, 2/N, ..., N/N in ascending order. */
  function Candidates(divisions: nat): (r: seq<FractionalUnit>)
    ensures |r| == divisions
    ensures forall i :: 0 <= i < |r| ==> r[i].numerator == i + 1 && r[i].decimalValue == Frac(i + 1, divisions)
    ensures divisions >= 1 ==> r[divisions - 1].decimalValue == 1.0
  {
    var r := seq(divisions, i requires 0 <= i < divisions => FractionalUnit(Frac(i + 1, divisions), i + 1));
    assert divisions >= 1 ==> r[divisions - 1].decimalValue == 1.0 by {
      if divisions >= 1 {
        FracWhole(divisions);
      }
    }
    r
  }

  /** The candidates are in strictly ascending order. */
  lemma CandidatesAscending(divisions: nat)
    ensures var r := Candidates(divisions);
      forall i, j :: 0 <= i < j < |r| ==> r[i].decimalValue < r[j].decimalValue
  {
    var r := Candidates(divisions);
    forall i, j | 0 <= i < j < |r|
      ensures r[i].decimalValue < r[j].decimalValue
    {
      FracMonotone(i + 1, j + 1, divisions);
    }
  }

  /** `Array.prototype.reverse`. */
  function Reverse<T>(s: seq<T>): (r: seq<T>)
    ensures |r| == |s|
    ensures forall i :: 0 <= i < |s| ==> r[i] == s[|s| - 1 - i]
  {
    if |s| == 0 then [] else [s[|s| - 1]] + Reverse(s[..|s| - 1])
  }

  /** Position of the first element satisfying `p`. */
  function FirstIndex<T>(s: seq<T>, p: T -> bool): (r: Option<nat>)
    ensures r.Some? ==> r.value < |s| && p(s[r.value])
    ensures r.Some? ==> forall j :: 0 <= j < r.value ==> !p(s[j])
    ensures r.None? ==> forall j :: 0 <= j < |s| ==> !p(s[j])
  {
    if |s| == 0 then None
    else if p(s[0]) then Some(0)
    else match FirstIndex(s[1..], p)
      case Some(i) => Some(i + 1)
      case None => None
  }

  /** `Array.prototype.find`: the first element satisfying `p`, or
      `undefined` (None). */
  function Find<T>(s: seq<T>, p: T -> bool): Option<T>
  {
    match FirstIndex(s, p)
    case Some(i) => Some(s[i])
    case None => None
  }

  // ---------------------------------------------------------------------
  // Choosing the candidate

  /** k is the least numerator in 1..n with k/n at or above `rem`. */
  ghost predicate LeastAtOrAbove(k: int, rem: real, n: int)
  {
    1 <= k <= n && Frac(k, n) >= rem && forall j :: 1 <= j < k ==> Frac(j, n) < rem
  }

  /** k is the greatest numerator in 1..n with k/n at or below `rem`. */
  ghost predicate GreatestAtOrBelow(k: int, rem: real, n: int)
  {
    1 <= k <= n && Frac(k, n) <= rem && forall j :: k < j <= n ==> Frac(j, n) > rem
  }

  function AtOrAbove(rem: real): FractionalUnit -> bool
  {
    (f: FractionalUnit) => f.decimalValue >= rem
  }

  function AtOrBelow(rem: real): FractionalUnit -> bool
  {
    (f: FractionalUnit) => f.decimalValue <= rem
  }

  /** The candidate search of lines 37-43: in `'up'` mode the first
      ascending candidate at or above the remainder, otherwise the first
      descending candidate at or below it. */
  function Select(rem: real, n: nat, mode: RoundMethod): (r: Option<FractionalUnit>)
    ensures r.Some? ==> 1 <= r.value.numerator <= n && r.value.decimalValue == Frac(r.value.numerator, n)
    ensures mode == Up && r.Some? ==> LeastAtOrAbove(r.value.numerator, rem, n)
    ensures mode == Up && r.None? ==> forall k :: 1 <= k <= n ==> Frac(k, n) < rem
    ensures mode == Down && r.Some? ==> GreatestAtOrBelow(r.value.numerator, rem, n)
    ensures mode == Down && r.None? ==> forall k :: 1 <= k <= n ==> Frac(k, n) > rem
  {
    match mode
    case Up =>
      SelectUpFacts(rem, n);
      Find(Candidates(n), AtOrAbove(rem))
    case Down =>
      SelectDownFacts(rem, n);
      Find(Reverse(Candidates(n)), AtOrBelow(rem))
  }

  lemma SelectUpFacts(rem: real, n: nat)
    ensures var r := Find(Candidates(n), AtOrAbove(rem));
      && (r.Some? ==> 1 <= r.value.numerator <= n && r.value.decimalValue == Frac(r.value.numerator, n))
      && (r.Some? ==> LeastAtOrAbove(r.value.numerator, rem, n))
      && (r.None? ==> forall k :: 1 <= k <= n ==> Frac(k, n) < rem)
  {
    var fractions := Candidates(n);
    var p := AtOrAbove(rem);
    var i := FirstIndex(fractions, p);
    if i.Some? {
      var k := i.value + 1;
      assert fractions[i.value].numerator == k;
      forall j | 1 <= j < k
        ensures Frac(j, n) < rem
      {
        assert !p(fractions[j - 1]);
      }
    } else {
      forall k | 1 <= k <= n
        ensures Frac(k, n) < rem
      {
        assert !p(fractions[k - 1]);
      }
    }
  }

  lemma SelectDownFacts(rem: real, n: nat)
    ensures var r := Find(Reverse(Candidates(n)), AtOrBelow(rem));
      && (r.Some? ==> 1 <= r.value.numerator <= n && r.value.decimalValue == Frac(r.value.numerator, n))
      && (r.Some? ==> GreatestAtOrBelow(r.value.numerator, rem, n))
      && (r.None? ==> forall k :: 1 <= k <= n ==> Frac(k, n) > rem)
  {
    var reversed := Reverse(Candidates(n));
    ReversedCandidates(n);
    var p := AtOrBelow(rem);
    var i := FirstIndex(reversed, p);
    if i.Some? {
      var k := n - i.value;
      forall j | k < j <= n
        ensures Frac(j, n) > rem
      {
        assert !p(reversed[n - j]);
      }
    } else {
      forall k | 1 <= k <= n
        ensures Frac(k, n) > rem
      {
        assert !p(reversed[n - k]);
      }
    }
  }

  /** The candidates in descending order: n/n, (n-1)/n, ..., 1/n. */
  lemma ReversedCandidates(n: nat)
    ensures var r := Reverse(Candidates(n));
      && |r| == n
      && forall i :: 0 <= i < n ==> r[i] == FractionalUnit(Frac(n - i, n), n - i)
  {
    var c := Candidates(n);
    var r := Reverse(c);
    forall i | 0 <= i < n
      ensures r[i] == FractionalUnit(Frac(n - i, n), n - i)
    {
      assert r[i] == c[n - 1 - i];
    }
  }

  // ---------------------------------------------------------------------
  // Closed forms of the choice

  lemma CeilFacts(x: real)
    ensures Ceil(x) as real - 1.0 < x <= Ceil(x) as real
  {
  }

  /** For a positive remainder, rounding up picks the numerator ceil(rem * n). */
  lemma SelectUpIsCeiling(rem: real, n: nat)
    requires n >= 1 && 0.0 < rem <= 1.0
    ensures var k := Ceil(rem * n as real);
      Select(rem, n, Up) == Some(FractionalUnit(Frac(k, n), k))
  {
    var x := rem * n as real;
    var k := Ceil(x);
    CeilFacts(x);
    ScaleUnit(rem, n);
    assert 1 <= k <= n;
    FracAbove(k, n, rem);
    forall j | 1 <= j < k
      ensures Frac(j, n) < rem
    {
      FracAbove(j, n, rem);
    }
    assert LeastAtOrAbove(k, rem, n);
    assert Frac(n, n) == 1.0;
    var r := Select(rem, n, Up);
    assert r.Some?;
    LeastUnique(r.value.numerator, k, rem, n);
  }

  lemma LeastUnique(a: int, b: int, rem: real, n: int)
    requires LeastAtOrAbove(a, rem, n) && LeastAtOrAbove(b, rem, n)
    ensures a == b
  {
  }

  lemma GreatestUnique(a: int, b: int, rem: real, n: int)
    requires GreatestAtOrBelow(a, rem, n) && GreatestAtOrBelow(b, rem, n)
    ensures a == b
  {
  }

  /** A value in [0, 1] scaled by n lies in [0, n]. */
  lemma ScaleUnit(rem: real, n: nat)
    requires n >= 1 && 0.0 <= rem <= 1.0
    ensures 0.0 <= rem * n as real <= n as real
    ensures rem < 1.0 ==> rem * n as real < n as real
    ensures rem > 0.0 ==> rem * n as real > 0.0
  {
    MulMonotone(rem, 0.0, n as real);
    MulMonotone(1.0, rem, n as real);
    assert 0.0 * n as real == 0.0;
    assert 1.0 * n as real == n as real;
  }

  /** Rounding down picks floor(rem * n) when that is at least 1, and no
      candidate at all otherwise. */
  lemma SelectDownIsFloor(rem: real, n: nat)
    requires n >= 1 && 0.0 <= rem < 1.0
    ensures var k := (rem * n as real).Floor;
      Select(rem, n, Down) == if k >= 1 then Some(FractionalUnit(Frac(k, n), k)) else None
  {
    var k := (rem * n as real).Floor;
    FloorIsGreatest(rem, n);
    var r := Select(rem, n, Down);
    if k >= 1 {
      assert r.Some?;
      GreatestUnique(r.value.numerator, k, rem, n);
    } else {
      assert r.None?;
    }
  }

  /** floor(rem * n) is the greatest numerator at or below `rem` when it is
      at least 1, and every numerator above it lies above `rem`. */
  lemma FloorIsGreatest(rem: real, n: nat)
    requires n >= 1 && 0.0 <= rem < 1.0
    ensures var k := (rem * n as real).Floor;
      && 0 <= k < n
      && (forall j :: k < j <= n ==> Frac(j, n) > rem)
      && (k >= 1 ==> GreatestAtOrBelow(k, rem, n))
  {
    var k := (rem * n as real).Floor;
    FloorBounds(rem, n);
    forall j | k < j <= n
      ensures Frac(j, n) > rem
    {
      AboveFloor(rem, n, j);
    }
    if k >= 1 {
      AtFloor(rem, n);
    }
  }

  lemma FloorBounds(rem: real, n: nat)
    requires n >= 1 && 0.0 <= rem < 1.0
    ensures 0 <= (rem * n as real).Floor < n
  {
    ScaleUnit(rem, n);
  }

  lemma AboveFloor(rem: real, n: nat, j: int)
    requires n >= 1 && (rem * n as real).Floor < j
    ensures Frac(j, n) > rem
  {
    FracAbove(j, n, rem);
  }

  lemma AtFloor(rem: real, n: nat)
    requires n >= 1
    ensures Frac((rem * n as real).Floor, n) <= rem
  {
    FracAbove((rem * n as real).Floor, n, rem);
  }

  /** A negative remainder lies below every candidate. */
  lemma SelectNegative(rem: real, n: nat)
    requires n >= 1 && rem < 0.0
    ensures Select(rem, n, Up) == Some(FractionalUnit(Frac(1, n), 1))
    ensures Select(rem, n, Down) == None
  {
    assert Frac(1, n) > 0.0;
    forall k | 1 <= k <= n
      ensures Frac(k, n) > rem
    {
      assert Frac(k, n) > 0.0;
    }
    var up := Select(rem, n, Up);
    assert LeastAtOrAbove(1, rem, n);
    assert up.Some?;
    LeastUnique(up.value.numerator, 1, rem, n);
    var down := Select(rem, n, Down);
    assert down.None?;
  }

  // ---------------------------------------------------------------------
  // decimalToFraction

  /** A reduced proper fraction keeps its value and stays proper. */
  lemma ReduceProper(k: int, n: int)
    requires 1 <= k <= n
    ensures 1 <= Reduce(k, n).0 <= Reduce(k, n).1 <= n
    ensures LowestTerms(Reduce(k, n).0, Reduce(k, n).1)
    ensures Frac(Reduce(k, n).0, Reduce(k, n).1) == Frac(k, n)
  {
    var (p, q) := Reduce(k, n);
    CrossOrder(p, q, k, n);
    CrossFrac(p, q, k, n);
  }

  lemma CrossOrder(p: int, q: int, k: int, n: int)
    requires 1 <= k <= n && 1 <= p <= k && p * n == k * q
    ensures 1 <= p <= q <= n
  {
    assert q > n ==> k * q > k * n >= p * n;
    assert q <= 0 ==> k * q <= 0;
    assert p > q && q >= 1 ==> p * n > q * n;
    assert q * n >= q * k;
  }

  lemma CrossFrac(p: int, q: int, k: int, n: int)
    requires n >= 1 && q >= 1 && p * n == k * q
    ensures Frac(p, q) == Frac(k, n)
  {
    assert (p as real) * (n as real) == (k as real) * (q as real);
  }

  /** `decimalToFraction(decimal, divisions, roundMethod)`. A NaN or
      infinite decimal has a NaN remainder, no candidate compares with it,
      and the decimal is returned as it is. */
  function DecimalToFraction(decimal: Num, divisions: nat, mode: RoundMethod): (r: Display)
    requires divisions <= MaxArrayLength
    ensures r.Plain? ==> r.n == decimal
    ensures !decimal.Val? || IsIntegral(decimal.v) ==> r == Plain(decimal)
    ensures r.Mixed? ==> decimal.Val? && !IsIntegral(decimal.v) && r.whole == Trunc(decimal.v)
    ensures r.Mixed? ==> 1 <= r.num <= r.den <= divisions && LowestTerms(r.num, r.den)
  {
    if !decimal.Val? then Plain(decimal)
    else
      var x := decimal.v;
      var rem := Remainder(x);
      if rem == 0.0 then Plain(decimal)
      else
        match Select(rem, divisions, mode)
        case None => Plain(decimal)
        case Some(f) =>
          var reduced := Reduce(f.numerator, divisions);
          ReduceProper(f.numerator, divisions);
          Mixed(Trunc(x), reduced.0, reduced.1)
  }

  /** The value a mixed result stands for. */
  function MixedValue(d: Display): real
    requires d.Mixed? && d.den >= 1
  {
    d.whole as real + Frac(d.num, d.den)
  }

  lemma FloorOfNonNegative(x: real)
    requires x >= 0.0
    ensures Trunc(x) == x.Floor && Remainder(x) == x - x.Floor as real
  {
  }

  /** How the result follows from the chosen candidate (lines 44-54). */
  lemma Chosen(x: real, n: nat, mode: RoundMethod)
    requires n <= MaxArrayLength && !IsIntegral(x)
    ensures var c := Select(Remainder(x), n, mode);
      && (c.None? ==> DecimalToFraction(Val(x), n, mode) == Plain(Val(x)))
      && (c.Some? ==>
            DecimalToFraction(Val(x), n, mode)
            == Mixed(Trunc(x), Reduce(c.value.numerator, n).0, Reduce(c.value.numerator, n).1))
  {
  }

  lemma FracWhole(n: int)
    requires n >= 1
    ensures Frac(n, n) == 1.0 && Frac(0, n) == 0.0
  {
  }

  /** Rounding up a non-negative, non-integral decimal: the chosen numerator
      is k = ceil(rem * n), the least with rem <= k/n, so (k-1)/n < rem, and
      the result is the whole part followed by k/n in lowest terms. */
  lemma RoundUp(x: real, n: nat, k: int)
    requires 1 <= n <= MaxArrayLength && x >= 0.0 && !IsIntegral(x)
    requires k == Ceil(Remainder(x) * n as real)
    ensures 1 <= k <= n
    ensures Frac(k - 1, n) < Remainder(x) <= Frac(k, n)
    ensures DecimalToFraction(Val(x), n, Up) == Mixed(x.Floor, Reduce(k, n).0, Reduce(k, n).1)
  {
    UpChoice(Remainder(x), n, k);
    Chosen(x, n, Up);
    FloorOfNonNegative(x);
  }

  lemma UpChoice(rem: real, n: nat, k: int)
    requires n >= 1 && 0.0 < rem < 1.0 && k == Ceil(rem * n as real)
    ensures Select(rem, n, Up) == Some(FractionalUnit(Frac(k, n), k))
    ensures 1 <= k <= n && Frac(k - 1, n) < rem <= Frac(k, n)
  {
    SelectUpIsCeiling(rem, n);
    var c := Select(rem, n, Up);
    assert c.value.numerator == k;
    assert LeastAtOrAbove(k, rem, n);
    LeastBracket(k, rem, n);
    assert Frac(k, n) >= rem;
  }

  lemma LeastBracket(k: int, rem: real, n: int)
    requires LeastAtOrAbove(k, rem, n) && rem > 0.0
    ensures Frac(k - 1, n) < rem
  {
    FracWhole(n);
    assert k - 1 >= 1 ==> Frac(k - 1, n) < rem;
  }

  /** Rounding up never falls back to the plain decimal: n/n = 1 exceeds
      every remainder. */
  lemma RoundUpNeverFallsBack(x: real, n: nat)
    requires 1 <= n <= MaxArrayLength && !IsIntegral(x)
    ensures DecimalToFraction(Val(x), n, Up).Mixed?
  {
    FracWhole(n);
    Chosen(x, n, Up);
  }

  /** A remainder above (n-1)/n rounds up to n/n, which reduces to 1/1; the
      whole part is not carried. */
  lemma RoundUpOneOverOne(x: real, n: nat)
    requires 1 <= n <= MaxArrayLength && !IsIntegral(x)
    requires Remainder(x) > Frac(n - 1, n)
    ensures DecimalToFraction(Val(x), n, Up) == Mixed(Trunc(x), 1, 1)
  {
    var rem := Remainder(x);
    var r := Select(rem, n, Up);
    RoundUpNeverFallsBack(x, n);
    Chosen(x, n, Up);
    assert r.Some?;
    var k := r.value.numerator;
    assert k == n by {
      assert k <= n - 1 ==> Frac(k, n) <= Frac(n - 1, n) by {
        if k < n - 1 { FracMonotone(k, n - 1, n); }
      }
    }
    ReduceWhole(n);
  }

  lemma ReduceWhole(n: int)
    requires n >= 1
    ensures Reduce(n, n) == (1, 1)
  {
    assert Gcd(n, n) == Gcd(n, 0) == n;
    MultipleDivides(n, 1);
  }

  /** Rounding down a non-negative, non-integral decimal: with
      k = floor(rem * n), the result is k/n in lowest terms after the whole
      part when k >= 1 (so k/n <= rem < (k+1)/n), and the unrounded decimal
      when rem < 1/n. */
  lemma RoundDown(x: real, n: nat, k: int)
    requires 1 <= n <= MaxArrayLength && x >= 0.0 && !IsIntegral(x)
    requires k == (Remainder(x) * n as real).Floor
    ensures Remainder(x) < Frac(1, n) <==> k == 0
    ensures k == 0 ==> DecimalToFraction(Val(x), n, Down) == Plain(Val(x))
    ensures k >= 1 ==> k < n && Frac(k, n) <= Remainder(x) < Frac(k + 1, n)
    ensures k >= 1 ==> DecimalToFraction(Val(x), n, Down) == Mixed(x.Floor, Reduce(k, n).0, Reduce(k, n).1)
  {
    DownChoice(Remainder(x), n, k);
    Chosen(x, n, Down);
    FloorOfNonNegative(x);
  }

  lemma DownChoice(rem: real, n: nat, k: int)
    requires n >= 1 && 0.0 < rem < 1.0 && k == (rem * n as real).Floor
    ensures rem < Frac(1, n) <==> k == 0
    ensures k == 0 ==> Select(rem, n, Down) == None
    ensures k >= 1 ==> Select(rem, n, Down) == Some(FractionalUnit(Frac(k, n), k))
    ensures k >= 1 ==> k < n && Frac(k, n) <= rem < Frac(k + 1, n)
  {
    SelectDownIsFloor(rem, n);
    FracAbove(1, n, rem);
    assert 0 <= k;
    if k >= 1 {
      var c := Select(rem, n, Down);
      assert c.value.numerator == k;
      assert GreatestAtOrBelow(k, rem, n);
      assert Frac(k, n) <= rem;
      assert k < n;
      assert Frac(k + 1, n) > rem;
    }
  }

  /** A negative decimal keeps a negative remainder: rounding up always picks
      1/n, rounding down never finds a candidate. */
  lemma RoundNegative(x: real, n: nat)
    requires 1 <= n <= MaxArrayLength && x < 0.0 && !IsIntegral(x)
    ensures DecimalToFraction(Val(x), n, Up) == Mixed(Trunc(x), 1, n)
    ensures DecimalToFraction(Val(x), n, Down) == Plain(Val(x))
  {
    SelectNegative(Remainder(x), n);
    Chosen(x, n, Up);
    Chosen(x, n, Down);
    ReduceOne(n);
  }

  lemma ReduceOne(n: int)
    ensures Reduce(1, n) == (1, n)
  {
    var (p, q) := Reduce(1, n);
    assert p == 1;
    MultipleDivides(1, n);
  }

  /** Rounding up lands on a multiple of 1/n at or above the decimal and
      less than one step above it. */
  lemma RoundUpWithinOneStep(x: real, n: nat)
    requires 1 <= n <= MaxArrayLength && x >= 0.0 && !IsIntegral(x)
    ensures DecimalToFraction(Val(x), n, Up).Mixed?
    ensures x <= MixedValue(DecimalToFraction(Val(x), n, Up)) < x + Frac(1, n)
  {
    var rem := Remainder(x);
    var k := Ceil(rem * n as real);
    RoundUp(x, n, k);
    ReduceProper(k, n);
    FracStep(k - 1, n);
    FloorOfNonNegative(x);
  }

  /** Rounding down, when the remainder reaches the first candidate 1/n,
      lands on a multiple of 1/n at or below the decimal and less than one
      step below it. */
  lemma RoundDownWithinOneStep(x: real, n: nat)
    requires 1 <= n <= MaxArrayLength && x >= 0.0 && !IsIntegral(x)
    requires Remainder(x) >= Frac(1, n)
    ensures DecimalToFraction(Val(x), n, Down).Mixed?
    ensures x - Frac(1, n) < MixedValue(DecimalToFraction(Val(x), n, Down)) <= x
  {
    var k := (Remainder(x) * n as real).Floor;
    RoundDown(x, n, k);
    assert k >= 1;
    DownStep(x, n, k);
  }

  lemma DownStep(x: real, n: nat, k: int)
    requires 1 <= k < n && x >= 0.0 && Frac(k, n) <= Remainder(x) < Frac(k + 1, n)
    ensures Reduce(k, n).1 >= 1
    ensures x - Frac(1, n) < MixedValue(Mixed(x.Floor, Reduce(k, n).0, Reduce(k, n).1)) <= x
  {
    ReduceProper(k, n);
    FloorOfNonNegative(x);
    FracStep(k, n);
  }

  lemma FracStep(k: int, n: int)
    requires n >= 1
    ensures Frac(k + 1, n) == Frac(k, n) + Frac(1, n)
  {
  }

  // ---------------------------------------------------------------------
  // The text of a result, and fractionToDecimal

  /** `"<num>/<den>"`. */
  function FractionText(num: int, den: int): string
  {
    IntToString(num) + "/" + IntToString(den)
  }

  /** The text `decimalToFraction` builds for a mixed result: the whole part
      and a space only when the whole part is not 0, then the fraction. */
  function MixedText(whole: int, num: int, den: int): (r: string)
    ensures whole == 0 ==> NoWs(r)
    ensures whole != 0 ==> |r| > |IntToString(whole)| && r[|IntToString(whole)|] == ' '
  {
    MixedTextSpace(whole, num, den);
    (if whole != 0 then IntToString(whole) + " " else "") + FractionText(num, den)
  }

  lemma MixedTextSpace(whole: int, num: int, den: int)
    ensures var r := (if whole != 0 then IntToString(whole) + " " else "") + FractionText(num, den);
      && (whole == 0 ==> NoWs(r))
      && (whole != 0 ==> r[|IntToString(whole)|] == ' ')
  {
    if whole == 0 {
      var a, b := IntToString(num), IntToString(den);
      var f := a + "/" + b;
      IntToStringShape(num);
      IntToStringShape(den);
      assert forall i :: 0 <= i < |f| ==> f[i] == (if i < |a| then a[i] else if i == |a| then '/' else b[i - |a| - 1]);
      assert "" + f == f;
    }
  }

  /** The first two pieces of `s` split on each slash together with the
      whitespace around it (the pattern `\s*\/\s*`): the text before the
      whitespace that precedes the first slash, and the text after the
      whitespace that follows it, up to the whitespace before the next
      slash. The second piece is missing when there is no slash. */
  function SlashParts(s: string): (string, Option<string>)
  {
    match IndexOf(s, '/')
    case None => (s, None)
    case Some(f) =>
      var rest := SkipWs(s[f + 1..]);
      var second := match IndexOf(rest, '/')
        case None => rest
        case Some(g) => TrimTrailingWs(rest[..g]);
      (TrimTrailingWs(s[..f]), Some(second))
  }

  /** `fractionToDecimal(fraction)`: `parseInt` of the first piece divided
      by `parseInt` of the second; a missing piece (`parseInt(undefined)`)
      or one without digits is NaN, and NaN divides to NaN. */
  function FractionToDecimal(fraction: string): (r: Num)
    ensures '/' !in fraction ==> r == NaN
  {
    var (first, second) := SlashParts(fraction);
    if second.None? then NaN
    else
      match (ParseInt(first), ParseInt(second.value))
      case (Some(a), Some(b)) => Divide(a, b)
      case _ => NaN
  }

  lemma IndexOfAppend(a: string, c: char, b: string)
    requires c !in a
    ensures IndexOf(a + [c] + b, c) == Some(|a|)
  {
    var s := a + [c] + b;
    assert s[|a|] == c;
    assert s[..|a|] == a;
  }

  /** Text around a single slash with no whitespace next to it splits into
      the text on either side. */
  lemma SlashPartsAround(a: string, b: string)
    requires '/' !in a && '/' !in b
    requires |a| == 0 || !IsWs(a[|a| - 1])
    requires |b| == 0 || !IsWs(b[0])
    ensures SlashParts(a + "/" + b) == (a, Some(b))
  {
    var s := a + "/" + b;
    assert s == a + ['/'] + b;
    IndexOfAppend(a, '/', b);
    assert s[..|a|] == a;
    assert s[|a| + 1..] == b;
    assert WsEnd(b, 0) == 0;
    assert SkipWs(b) == b;
  }

  /** Reading back the text of a fraction gives the quotient of its parts. */
  lemma FractionTextRoundTrip(num: int, den: int)
    ensures FractionToDecimal(FractionText(num, den)) == Divide(num, den)
  {
    var a, b := IntToString(num), IntToString(den);
    IntToStringShape(num);
    IntToStringShape(den);
    SlashPartsAround(a, b);
    ParseIntRoundTrip(num, "");
    ParseIntRoundTrip(den, "");
    assert a + "" == a && b + "" == b;
  }

  /** With a whole part, the text is not a fraction for `fractionToDecimal`:
      its first piece reads as the whole part, so the result is whole/den. */
  lemma MixedTextReadsWholeOverDen(whole: int, num: int, den: int)
    requires whole != 0
    ensures FractionToDecimal(MixedText(whole, num, den)) == Divide(whole, den)
  {
    var w, a, b := IntToString(whole), IntToString(num), IntToString(den);
    var head := w + (" " + a);
    MixedTextSlashParts(whole, num, den);
    assert ParseInt(head) == Some(whole) by {
      ParseIntRoundTrip(whole, " " + a);
    }
    assert ParseInt(b) == Some(den) by {
      ParseIntRoundTrip(den, "");
      assert b + "" == b;
    }
  }

  /** With a whole part, the slash splits the text into the whole part and
      the numerator on one side and the denominator on the other. */
  lemma MixedTextSlashParts(whole: int, num: int, den: int)
    requires whole != 0
    ensures var head := IntToString(whole) + (" " + IntToString(num));
      SlashParts(MixedText(whole, num, den)) == (head, Some(IntToString(den)))
  {
    var w, a, b := IntToString(whole), IntToString(num), IntToString(den);
    var head := w + (" " + a);
    assert MixedText(whole, num, den) == head + "/" + b;
    IntToStringShape(den);
    WholeAndNumeratorShape(whole, num);
    SlashPartsAround(head, b);
  }

  /** The whole part, a space and the numerator hold no slash and end in a
      digit. */
  lemma WholeAndNumeratorShape(whole: int, num: int)
    ensures var w, a := IntToString(whole), IntToString(num);
      var head := w + (" " + a);
      '/' !in head && !IsWs(head[|head| - 1])
  {
    var w, a := IntToString(whole), IntToString(num);
    var head := w + (" " + a);
    IntToStringShape(whole);
    IntToStringShape(num);
    assert forall i :: 0 <= i < |head| ==> head[i] == (if i < |w| then w[i] else if i == |w| then ' ' else a[i - |w| - 1]);
    assert head[|head| - 1] == a[|a| - 1];
  }

  /** Reading back the fraction part of a rounded result gives exactly the
      chosen candidate's value. */
  lemma RoundedFractionRoundTrip(x: real, n: nat, mode: RoundMethod)
    requires 1 <= n <= MaxArrayLength && !IsIntegral(x)
    requires Select(Remainder(x), n, mode).Some?
    ensures DecimalToFraction(Val(x), n, mode).Mixed?
    ensures var d := DecimalToFraction(Val(x), n, mode);
      FractionToDecimal(FractionText(d.num, d.den)) == Val(Select(Remainder(x), n, mode).value.decimalValue)
  {
    var k := Select(Remainder(x), n, mode).value.numerator;
    Chosen(x, n, mode);
    ReduceProper(k, n);
    var (p, q) := Reduce(k, n);
    FractionTextRoundTrip(p, q);
  }
}
