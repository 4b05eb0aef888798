/**
 The radius sanitiser `getValidRadius` of main.js.

 The source first converts the raw field text with `Number(...)`; that
 conversion is outside the model, and its result is the `Parsed` value the
 sanitiser receives. JavaScript numbers are modelled as `real`, so the only
 non-finite results of the conversion are kept as separate constructors.
 */
module Radius {

  /** The outcome of `Number(text)`: not a number, a finite number, or an infinity. */
  datatype Parsed = NaN | Num(value: real) | Infinity(negative: bool)

  /** The radius used when the field does not hold a number. */
  const DefaultRadius: real := 0.2
  /** The smallest radius the sanitiser lets through. */
  const MinRadius: real := 0.001
  /** The largest radius the sanitiser lets through. */
  const MaxRadius: real := 100.0

  predicate InRange(r: real) {
    MinRadius <= r <= MaxRadius
  }

  function Abs(v: real): real {
    if v < 0.0 then -v else v
  }

  /**
   The sanitiser, step by step as the source writes it: the early return for
   NaN, then magnitude, then the lower bound, then the upper bound. An
   infinity of either sign ends up above the upper bound.

   The contract states the result declaratively: always in range; NaN gives
   the default; otherwise the magnitude when that is in range, the bound it
   crosses when it is not.
   */
  function ValidRadius(v: Parsed): (r: real)
    ensures InRange(r)
    ensures v.NaN? ==> r == DefaultRadius
    ensures v.Infinity? ==> r == MaxRadius
    ensures v.Num? && InRange(Abs(v.value)) ==> r == Abs(v.value)
    ensures v.Num? && Abs(v.value) < MinRadius ==> r == MinRadius
    ensures v.Num? && Abs(v.value) > MaxRadius ==> r == MaxRadius
  {
    match v
    case NaN => DefaultRadius
    case Infinity(_) => MaxRadius
    case Num(x) =>
      var a := if x < 0.0 then -x else x;
      var b := if a < MinRadius then MinRadius else a;
      if b > MaxRadius then MaxRadius else b
  }

  /** A negative number is treated as its magnitude: the sign never matters. */
  lemma SignInsensitive(x: real)
    ensures ValidRadius(Num(x)) == ValidRadius(Num(-x))
  {
  }

  /** Re-sanitising an already sanitised radius changes nothing. */
  lemma Idempotent(v: Parsed)
    ensures ValidRadius(Num(ValidRadius(v))) == ValidRadius(v)
  {
  }

  /** A number already inside the range comes back unchanged, and only such numbers do. */
  lemma FixedPoints(x: real)
    ensures ValidRadius(Num(x)) == x <==> InRange(x)
  {
  }

  /** A larger magnitude never gives a smaller radius. */
  lemma MonotoneInMagnitude(x: real, y: real)
    requires Abs(x) <= Abs(y)
    ensures ValidRadius(Num(x)) <= ValidRadius(Num(y))
  {
  }
}
