/** JavaScript numbers, as far as the calculator's arithmetic needs them.

    A finite number is taken as an exact real: IEEE-754 rounding, signed
    zero and the largest finite double are not modelled. What is modelled
    is the special values that the source lets flow silently through its
    sums: NaN and the two infinities. */
module JsNumber {

  datatype Num = NaN | PosInf | NegInf | Val(v: real)

  /** The `+` operator: NaN absorbs, opposite infinities give NaN, an
      infinity absorbs every finite value, finite values add exactly. */
  function Add(a: Num, b: Num): (r: Num)
    ensures r.NaN? <==> a.NaN? || b.NaN? || (a.PosInf? && b.NegInf?) || (a.NegInf? && b.PosInf?)
    ensures a.Val? && b.Val? ==> r == Val(a.v + b.v)
    ensures !r.NaN? && (a.PosInf? || b.PosInf?) ==> r == PosInf
    ensures !r.NaN? && (a.NegInf? || b.NegInf?) ==> r == NegInf
  {
    match (a, b)
    case (NaN, _) => NaN
    case (_, NaN) => NaN
    case (PosInf, NegInf) => NaN
    case (NegInf, PosInf) => NaN
    case (PosInf, _) => PosInf
    case (_, PosInf) => PosInf
    case (NegInf, _) => NegInf
    case (_, NegInf) => NegInf
    case (Val(x), Val(y)) => Val(x + y)
  }

  /** The `/` operator on two integer-valued numbers: division by zero gives
      an infinity of the numerator's sign, and 0/0 gives NaN. */
  function Divide(a: int, b: int): (r: Num)
    ensures b != 0 ==> r.Val? && r.v * b as real == a as real
    ensures b == 0 ==> (r.NaN? <==> a == 0)
    ensures b == 0 && a > 0 ==> r == PosInf
    ensures b == 0 && a < 0 ==> r == NegInf
  {
    if b != 0 then Val(a as real / b as real)
    else if a > 0 then PosInf
    else if a < 0 then NegInf
    else NaN
  }

  /** JavaScript truthiness of a number: everything but 0 and NaN. */
  predicate Truthy(n: Num)
  {
    !n.NaN? && n != Val(0.0)
  }

  predicate IsIntegral(x: real)
  {
    x == x.Floor as real
  }
}
