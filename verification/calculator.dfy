/** The click handler's last step (main.ts): each result is rounded to a
    fraction only when the rounding-divisions field is truthy, and is shown
    as plain text otherwise. A shown fraction can be typed back into an
    input field; reading it back ties the formatter to the input parser. */
module Calculator {
  import opened Wrappers
  import opened JsNumber
  import opened JsText
  import opened Rounding
  import opened InputParser

  /** A length `new Array(n)` accepts: an integer from 0 to 2^32 - 1. Any
      other number makes it throw a RangeError. */
  predicate ArrayLengthOk(n: Num)
  {
    n.Val? && IsIntegral(n.v) && 0.0 <= n.v <= MaxArrayLength as real
  }

  /** Whether `decimalToFraction` gets as far as `new Array(divisions)`:
      whenever `decimal % 1` is not 0, which includes NaN and the
      infinities, whose remainder is NaN. */
  predicate BuildsCandidates(decimal: Num)
  {
    !(decimal.Val? && IsIntegral(decimal.v))
  }

  /** What the handler computes for one value: `decimalToFraction` when
      the rounding-divisions field is truthy, `toString` otherwise; `None`
      when that call throws. Whether a box is written at all depends on both
      values: see `Handler`. */
  function Output(value: Num, divisions: Num, mode: RoundMethod): (r: Option<Display>)
    ensures !Truthy(divisions) ==> r == Some(Plain(value))
    ensures r.None? <==> Truthy(divisions) && !ArrayLengthOk(divisions) && BuildsCandidates(value)
    ensures r.Some? && r.value.Plain? ==> r.value.n == value
    ensures r.Some? && r.value.Mixed? ==>
      && Truthy(divisions) && value.Val? && !IsIntegral(value.v)
      && r.value.whole == Trunc(value.v)
      && 1 <= r.value.num <= r.value.den && r.value.den as real <= divisions.v
  {
    if !Truthy(divisions) then Some(Plain(value))
    else if ArrayLengthOk(divisions) then
      var n: nat := divisions.v.Floor;
      Some(DecimalToFraction(value, n, mode))
    else if BuildsCandidates(value) then None
    else Some(Plain(value))
  }

  /** The text the click handler writes into the two output boxes, spread
      first and fence position second. Both boxes are written only after
      both values are formatted, so when either call throws, neither box is
      written (`None`). */
  function Handler(spread: Num, fence: Num, divisions: Num, mode: RoundMethod): (r: Option<(Display, Display)>)
    ensures r.None? <==>
      Truthy(divisions) && !ArrayLengthOk(divisions) && (BuildsCandidates(spread) || BuildsCandidates(fence))
    ensures !Truthy(divisions) ==> r == Some((Plain(spread), Plain(fence)))
    ensures r.Some? ==>
      Output(spread, divisions, mode) == Some(r.value.0) && Output(fence, divisions, mode) == Some(r.value.1)
  {
    match Output(spread, divisions, mode)
    case None => None
    case Some(a) =>
      match Output(fence, divisions, mode)
      case None => None
      case Some(b) => Some((a, b))
  }

  /** An empty rounding-divisions field reads as NaN, which is falsy, so
      both results are shown unrounded. */
  lemma EmptyDivisionsFieldIsPlain(value: Num, mode: RoundMethod, parseFloat: string -> Num)
    requires ParseFloatRejects(parseFloat)
    ensures Output(value, FieldValue("", parseFloat), mode) == Some(Plain(value))
  {
    EmptyFieldIsNaN(parseFloat);
  }

  /** So is a field holding one token without a slash that `parseFloat`
      reads as 0, such as "0". */
  lemma ZeroDivisionsFieldIsPlain(value: Num, mode: RoundMethod, zero: string, parseFloat: string -> Num)
    requires |zero| >= 1 && NoWs(zero) && '/' !in zero && parseFloat(zero) == Val(0.0)
    ensures Output(value, FieldValue(zero, parseFloat), mode) == Some(Plain(value))
  {
    OneTokenField(zero, parseFloat);
    PlainToken(zero, parseFloat);
  }

  /** With a usable number of divisions, rounding up always gives a
      fraction for a value that is not a whole number. */
  lemma RoundingUpAlwaysGivesFraction(x: real, divisions: Num)
    requires ArrayLengthOk(divisions) && divisions.v >= 1.0 && !IsIntegral(x)
    ensures Output(Val(x), divisions, Up).Some? && Output(Val(x), divisions, Up).value.Mixed?
  {
    RoundUpNeverFallsBack(x, divisions.v.Floor);
  }

  /** `parseFloat` reads back what `toString` writes for an integer. */
  ghost predicate ParseFloatReadsIntegers(parseFloat: string -> Num)
  {
    forall i: int :: parseFloat(IntToString(i)) == Val(i as real)
  }

  lemma FractionTextShape(num: nat, den: nat)
    ensures var f := FractionText(num, den);
      |f| >= 1 && NoWs(f) && f == NatToString(num) + "/" + NatToString(den)
  {
    IntToStringShape(num);
    IntToStringShape(den);
    var a, b := NatToString(num), NatToString(den);
    var f := a + "/" + b;
    assert forall i :: 0 <= i < |f| ==> f[i] == (if i < |a| then a[i] else if i == |a| then '/' else b[i - |a| - 1]);
  }

  /** The text of a mixed result, typed into an input field, reads as the
      whole part plus the fraction. */
  lemma MixedTextFieldValue(whole: int, num: nat, den: nat, parseFloat: string -> Num)
    requires den >= 1
    requires whole != 0 ==> parseFloat(IntToString(whole)) == Val(whole as real)
    ensures FieldValue(MixedText(whole, num, den), parseFloat) == Val(whole as real + Frac(num, den))
  {
    if whole == 0 {
      FractionOnlyFieldValue(num, den, parseFloat);
    } else {
      WholeAndFractionText(whole, num, den, parseFloat);
    }
  }

  lemma FractionOnlyFieldValue(num: nat, den: nat, parseFloat: string -> Num)
    requires den >= 1
    ensures FieldValue(MixedText(0, num, den), parseFloat) == Val(0 as real + Frac(num, den))
  {
    var f := FractionText(num, den);
    FractionTextToken(num, den, parseFloat);
    assert MixedText(0, num, den) == f;
    OneTokenField(f, parseFloat);
  }

  lemma WholeAndFractionText(whole: int, num: nat, den: nat, parseFloat: string -> Num)
    requires den >= 1 && whole != 0
    requires parseFloat(IntToString(whole)) == Val(whole as real)
    ensures FieldValue(MixedText(whole, num, den), parseFloat) == Val(whole as real + Frac(num, den))
  {
    MixedTextWithWhole(whole, num, den);
    WholeSpaceFraction(whole, num, den, parseFloat);
  }

  lemma WholeSpaceFraction(whole: int, num: nat, den: nat, parseFloat: string -> Num)
    requires den >= 1 && whole != 0
    requires parseFloat(IntToString(whole)) == Val(whole as real)
    ensures FieldValue(IntToString(whole) + " " + FractionText(num, den), parseFloat) == Val(whole as real + Frac(num, den))
  {
    var f := FractionText(num, den);
    FractionTextToken(num, den, parseFloat);
    WholeAndFractionField(whole, f, parseFloat);
  }

  lemma MixedTextWithWhole(whole: int, num: int, den: int)
    requires whole != 0
    ensures MixedText(whole, num, den) == IntToString(whole) + " " + FractionText(num, den)
  {
  }

  /** The text of a fraction is one token, and it reads as the quotient. */
  lemma FractionTextToken(num: nat, den: nat, parseFloat: string -> Num)
    requires den >= 1
    ensures var f := FractionText(num, den);
      |f| >= 1 && NoWs(f) && TokenValue(f, parseFloat) == Val(Frac(num, den))
  {
    FractionTextShape(num, den);
    FractionTokenValue(num, den, parseFloat);
  }

  /** A whole number, a space and a fraction token add up. */
  lemma WholeAndFractionField(whole: int, f: string, parseFloat: string -> Num)
    requires whole != 0 && parseFloat(IntToString(whole)) == Val(whole as real)
    requires |f| >= 1 && NoWs(f) && TokenValue(f, parseFloat).Val?
    ensures FieldValue(IntToString(whole) + " " + f, parseFloat) == Val(whole as real + TokenValue(f, parseFloat).v)
  {
    var w := IntToString(whole);
    IntToStringShape(whole);
    TwoTokenField(w, f, parseFloat);
    PlainToken(w, parseFloat);
  }

  /** Reading an upward-rounded result back in gives a value no smaller than
      the input and less than one division above it. */
  lemma RoundedUpReadsBack(x: real, divisions: Num, parseFloat: string -> Num)
    requires ArrayLengthOk(divisions) && divisions.v >= 1.0
    requires x >= 0.0 && !IsIntegral(x)
    requires ParseFloatReadsIntegers(parseFloat)
    ensures Output(Val(x), divisions, Up).Some? && Output(Val(x), divisions, Up).value.Mixed?
    ensures var d := Output(Val(x), divisions, Up).value;
      var back := FieldValue(MixedText(d.whole, d.num, d.den), parseFloat);
      back.Val? && x <= back.v < x + 1.0 / divisions.v
  {
    var n: nat := divisions.v.Floor;
    RoundUpWithinOneStep(x, n);
    var d := DecimalToFraction(Val(x), n, Up);
    MixedTextFieldValue(d.whole, d.num, d.den, parseFloat);
  }

  /** Reading a downward-rounded result back in gives a value no larger than
      the input and less than one division below it, whenever the input's
      fractional part is at least one division (below that the result is
      shown unrounded). */
  lemma RoundedDownReadsBack(x: real, divisions: Num, parseFloat: string -> Num)
    requires ArrayLengthOk(divisions) && divisions.v >= 1.0
    requires x >= 0.0 && !IsIntegral(x) && Remainder(x) >= 1.0 / divisions.v
    requires ParseFloatReadsIntegers(parseFloat)
    ensures Output(Val(x), divisions, Down).Some? && Output(Val(x), divisions, Down).value.Mixed?
    ensures var d := Output(Val(x), divisions, Down).value;
      var back := FieldValue(MixedText(d.whole, d.num, d.den), parseFloat);
      back.Val? && x - 1.0 / divisions.v < back.v <= x
  {
    var n: nat := divisions.v.Floor;
    RoundDownWithinOneStep(x, n);
    var d := DecimalToFraction(Val(x), n, Down);
    MixedTextFieldValue(d.whole, d.num, d.den, parseFloat);
  }
}
