/** The conversion of a double to the numbers a column can hold. */
module Casts {
  import opened Comparisons

  /** `static_cast<int>`: truncation toward zero. */
  function Truncate(x: real): int {
    if x >= 0.0 then x.Floor else -((-x).Floor)
  }

  predicate Integral(x: real) {
    x == x.Floor as real
  }

  lemma TruncateBounds(x: real)
    ensures x >= 0.0 ==> Truncate(x) as real <= x < (Truncate(x) + 1) as real
    ensures x <= 0.0 ==> (Truncate(x) - 1) as real < x <= Truncate(x) as real
    ensures Integral(x) <==> x == Truncate(x) as real
  {
    if x < 0.0 {
      var k := (-x).Floor;
      assert k as real <= -x < (k + 1) as real;
      assert Truncate(x) as real == -(k as real);
    }
  }

  // ---- Column types ----------------------------------------------------------------------------------------

  /** Integers of some width, or floating point numbers with some rounding to them. */
  datatype NumType = Whole(min: int, max: int) | Float(round: real -> real)

  const INT32 := Whole(-0x8000_0000, 0x7fff_ffff)
  const INT64 := Whole(-0x8000_0000_0000_0000, 0x7fff_ffff_ffff_ffff)

  /** Rounding keeps the order and leaves what is already rounded alone. */
  ghost predicate Rounding(round: real -> real) {
    && (forall x, y :: x <= y ==> round(x) <= round(y))
    && (forall x :: round(round(x)) == round(x))
  }

  ghost predicate Sane(t: NumType) {
    match t
    case Whole(min, max) => min + 2 <= max
    case Float(round) => Rounding(round)
  }

  /** A number that a column of the type can hold. */
  predicate Value(t: NumType, v: real) {
    match t
    case Whole(min, max) => Integral(v) && min as real <= v <= max as real
    case Float(round) => round(v) == v
  }

  /** The conversion of x is defined: truncated, it is in the integer type's range. */
  predicate Defined(t: NumType, x: real) {
    match t
    case Whole(min, max) => min <= Truncate(x) <= max
    case Float(_) => true
  }

  function Converted(t: NumType, x: real): real {
    match t
    case Whole(_, _) => Truncate(x) as real
    case Float(round) => round(x)
  }

  /** What the conversion yields where it is not defined: some number of the type, whichever the machine gives. */
  ghost predicate Wild(t: NumType, wild: real -> real) {
    forall x :: Value(t, wild(x))
  }

  /** `static_cast<T>`. */
  function Cast(t: NumType, wild: real -> real, x: real): real {
    if Defined(t, x) then Converted(t, x) else wild(x)
  }

  /** A defined conversion does not pass over any number of the type. */
  lemma ConvertedBetween(t: NumType, x: real, v: real)
    requires Sane(t) && Defined(t, x) && Value(t, v)
    ensures Value(t, Converted(t, x))
    ensures v <= x ==> v <= Converted(t, x)
    ensures v >= x ==> v >= Converted(t, x)
  {
    match t
    case Float(round) =>
      assert v <= x ==> round(v) <= round(x);
      assert v >= x ==> round(x) <= round(v);
    case Whole(_, _) =>
      TruncateBounds(x);
      TruncateBounds(Truncate(x) as real);
      WholeBetween(x, v.Floor);
  }

  lemma WholeBetween(x: real, v: int)
    ensures v as real <= x ==> v <= Truncate(x)
    ensures v as real >= x ==> v >= Truncate(x)
  {
    TruncateBounds(x);
    var k := Truncate(x);
    if v <= k - 1 {
      assert v as real <= (k - 1) as real;
    } else if v >= k + 1 {
      assert v as real >= (k + 1) as real;
    }
  }

  // ---- Comparisons with a converted number -------------------------------------------------------------------

  /** When comparing with the converted threshold is comparing with the threshold. */
  predicate CastExact(t: NumType, op: NumOp, x: real) {
    && Defined(t, x)
    && var c := Converted(t, x);
       match op
       case GT => c <= x
       case LTE => c <= x
       case GTE => c >= x
       case LT => c >= x
       case EQ => c == x
       case NEQ => c == x
  }

  predicate SameTest(t: NumType, wild: real -> real, op: NumOp, x: real, v: real) {
    Compare(op, v, Cast(t, wild, x)) == Compare(op, v, x)
  }

  /** The least, the second, and the greatest number of an integer type. */
  function Bottom(t: NumType): real
    requires t.Whole?
  {
    t.min as real
  }

  function Top(t: NumType): real
    requires t.Whole?
  {
    t.max as real
  }

  lemma EndsAreValues(t: NumType)
    requires t.Whole? && Sane(t)
    ensures Value(t, Bottom(t)) && Value(t, Bottom(t) + 1.0) && Value(t, Top(t)) && Value(t, Top(t) - 1.0)
    ensures Bottom(t) + 2.0 <= Top(t)
  {
    EndValue(t, t.min);
    EndValue(t, t.min + 1);
    EndValue(t, t.max);
    EndValue(t, t.max - 1);
    assert t.min as real + 1.0 == (t.min + 1) as real && t.max as real - 1.0 == (t.max - 1) as real;
    assert (t.min + 2) as real <= t.max as real;
  }

  lemma EndValue(t: NumType, n: int)
    requires t.Whole? && t.min <= n <= t.max
    ensures Value(t, n as real)
  {
  }

  /** Outside the range by more than the truncation takes away. */
  lemma Outside(t: NumType, x: real)
    requires t.Whole? && Sane(t) && !Defined(t, x)
    ensures x < Bottom(t) || x > Top(t)
    ensures forall v: real | Value(t, v) :: v != x
  {
    TruncateBounds(x);
    WholeBetween(x, t.min);
    WholeBetween(x, t.max);
  }

  /** A machine and a number for which the undefined conversion answers wrongly. */
  lemma WildFails(t: NumType, op: NumOp, x: real) returns (wild: real -> real, v: real)
    requires t.Whole? && Sane(t) && !Defined(t, x)
    ensures Wild(t, wild) && Value(t, v) && v != x && !SameTest(t, wild, op, x, v)
  {
    EndsAreValues(t);
    Outside(t, x);
    var low, high := Bottom(t), Top(t);
    match op {
      case EQ => wild, v := _ => low, low;
      case NEQ => wild, v := _ => low, low;
      case GT => if x > high { wild, v := _ => low, high; } else { wild, v := _ => high, low; }
      case GTE => if x > high { wild, v := _ => low, high; } else { wild, v := _ => high, low; }
      case LT => if x > high { wild, v := _ => low, high; } else { wild, v := _ => high, low; }
      case LTE => if x > high { wild, v := _ => low, high; } else { wild, v := _ => high, low; }
    }
  }

  /** A number on which an inexact but defined conversion answers wrongly. */
  lemma CastFails(t: NumType, op: NumOp, x: real) returns (wild: real -> real, v: real)
    requires Sane(t) && !CastExact(t, op, x)
    ensures Wild(t, wild) && Value(t, v) && v != x && !SameTest(t, wild, op, x, v)
  {
    if Defined(t, x) {
      v := Converted(t, x);
      ConvertedValue(t, x);
      wild := _ => v;
    } else {
      wild, v := WildFails(t, op, x);
    }
  }

  lemma ConvertedValue(t: NumType, x: real)
    requires Sane(t) && Defined(t, x)
    ensures Value(t, Converted(t, x))
  {
    if t.Whole? { TruncateBounds(Truncate(x) as real); }
  }

  /** On every machine and for every number of the type, comparing with the converted threshold is comparing with
      the threshold: exactly when the conversion is defined and moves the threshold to the harmless side. */
  lemma CastExactIff(t: NumType, op: NumOp, x: real)
    requires Sane(t)
    ensures CastExact(t, op, x) <==>
            forall wild: real -> real, v: real | Wild(t, wild) && Value(t, v) :: SameTest(t, wild, op, x, v)
  {
    if CastExact(t, op, x) {
      forall wild: real -> real, v: real | Wild(t, wild) && Value(t, v) ensures SameTest(t, wild, op, x, v) {
        ConvertedBetween(t, x, v);
      }
    } else {
      var wild, v := CastFails(t, op, x);
    }
  }

  // ---- Ranges with converted bounds --------------------------------------------------------------------------

  predicate InRange(including: bool, lower: real, upper: real, v: real) {
    if including then v >= lower && v <= upper else v > lower && v < upper
  }

  predicate SameRange(t: NumType, wild: real -> real, including: bool, lower: real, upper: real, v: real) {
    InRange(including, Cast(t, wild, lower), Cast(t, wild, upper), v) == InRange(including, lower, upper, v)
  }

  /** When both conversions are defined: they move no bound over a number of the range, or the range with the
      converted bounds is as empty as the range itself. */
  predicate DefinedRangeExact(t: NumType, including: bool, lower: real, upper: real) {
    var lo, hi := Converted(t, lower), Converted(t, upper);
    if including then (lo >= lower && hi <= upper) || lo > hi
    else !(lower < lo < upper) && !(lower < hi < upper)
  }

  /** An undefined conversion is harmless only to an excluding range that is empty whatever the bound becomes. */
  predicate UndefinedRangeExact(t: NumType, lower: real, upper: real)
    requires t.Whole?
  {
    if Defined(t, upper) then
      if lower < Bottom(t) then upper <= Bottom(t) else Converted(t, upper) <= Bottom(t) + 1.0
    else if Defined(t, lower) then
      if upper > Top(t) then lower >= Top(t) else Converted(t, lower) >= Top(t) - 1.0
    else
      lower == upper
  }

  predicate RangeCastExact(t: NumType, including: bool, lower: real, upper: real) {
    if Defined(t, lower) && Defined(t, upper) then DefinedRangeExact(t, including, lower, upper)
    else t.Whole? && !including && UndefinedRangeExact(t, lower, upper)
  }

  lemma DefinedRange(t: NumType, wild: real -> real, including: bool, lower: real, upper: real, v: real)
    requires Sane(t) && Defined(t, lower) && Defined(t, upper) && Value(t, v)
    requires DefinedRangeExact(t, including, lower, upper)
    ensures SameRange(t, wild, including, lower, upper, v)
  {
    ConvertedBetween(t, lower, v);
    ConvertedBetween(t, upper, v);
    ConvertedValue(t, lower);
    ConvertedValue(t, upper);
  }

  lemma DefinedRangeFails(t: NumType, including: bool, lower: real, upper: real) returns (wild: real -> real, v: real)
    requires Sane(t) && Defined(t, lower) && Defined(t, upper) && !DefinedRangeExact(t, including, lower, upper)
    ensures Wild(t, wild) && Value(t, v) && !SameRange(t, wild, including, lower, upper, v)
  {
    var lo, hi := Converted(t, lower), Converted(t, upper);
    ConvertedValue(t, lower);
    ConvertedValue(t, upper);
    wild := _ => lo;
    if including {
      v := if lo < lower then lo else hi;
    } else {
      v := if lower < lo < upper then lo else hi;
    }
  }

  /** Numbers of the type are whole and inside its range. */
  lemma WholeValue(t: NumType, v: real, w: real)
    requires t.Whole? && Value(t, v) && Value(t, w)
    ensures Bottom(t) <= v <= Top(t)
    ensures v < w ==> v + 1.0 <= w
  {
    if v < w {
      assert v == v.Floor as real && w == w.Floor as real;
      assert v.Floor + 1 <= w.Floor;
      assert (v.Floor + 1) as real <= w.Floor as real;
    }
  }

  lemma UndefinedRange(t: NumType, wild: real -> real, lower: real, upper: real, v: real)
    requires Sane(t) && t.Whole? && Wild(t, wild) && Value(t, v) && !(Defined(t, lower) && Defined(t, upper))
    requires UndefinedRangeExact(t, lower, upper)
    ensures SameRange(t, wild, false, lower, upper, v)
  {
    var lo, hi := Cast(t, wild, lower), Cast(t, wild, upper);
    if !Defined(t, lower) { Outside(t, lower); } else { ConvertedValue(t, lower); ConvertedBetween(t, lower, v); }
    if !Defined(t, upper) { Outside(t, upper); } else { ConvertedValue(t, upper); ConvertedBetween(t, upper, v); }
    assert Value(t, lo) && Value(t, hi);
    WholeValue(t, v, hi);
    WholeValue(t, lo, v);
  }

  lemma UndefinedRangeFails(t: NumType, including: bool, lower: real, upper: real) returns (wild: real -> real, v: real)
    requires Sane(t) && t.Whole? && !(Defined(t, lower) && Defined(t, upper))
    requires including || !UndefinedRangeExact(t, lower, upper)
    ensures Wild(t, wild) && Value(t, v) && !SameRange(t, wild, including, lower, upper, v)
  {
    EndsAreValues(t);
    var low, high := Bottom(t), Top(t);
    if !Defined(t, lower) { Outside(t, lower); } else { ConvertedValue(t, lower); }
    if !Defined(t, upper) { Outside(t, upper); } else { ConvertedValue(t, upper); }
    if !Defined(t, lower) && !Defined(t, upper) {
      if lower < low && upper > high {
        wild, v := _ => low, if including then high else low;
      } else if including {
        wild, v := _ => low, low;
      } else {
        wild, v := x => if x == lower then low else high, low + 1.0;
      }
    } else if !Defined(t, lower) {
      if lower < low && upper >= low && (including || upper > low) {
        wild, v := _ => high, low;
      } else {
        wild, v := _ => low, if including then low else low + 1.0;
      }
    } else {
      if upper > high && lower <= high && (including || lower < high) {
        wild, v := _ => low, high;
      } else {
        wild, v := _ => high, if including then high else high - 1.0;
      }
    }
  }

  lemma RangeCastExactIff(t: NumType, including: bool, lower: real, upper: real)
    requires Sane(t)
    ensures RangeCastExact(t, including, lower, upper) <==>
            forall wild: real -> real, v: real | Wild(t, wild) && Value(t, v) :: SameRange(t, wild, including, lower, upper, v)
  {
    if RangeCastExact(t, including, lower, upper) {
      forall wild: real -> real, v: real | Wild(t, wild) && Value(t, v) ensures SameRange(t, wild, including, lower, upper, v) {
        if Defined(t, lower) && Defined(t, upper) {
          DefinedRange(t, wild, including, lower, upper, v);
        } else {
          UndefinedRange(t, wild, lower, upper, v);
        }
      }
    } else if Defined(t, lower) && Defined(t, upper) {
      var wild, v := DefinedRangeFails(t, including, lower, upper);
    } else {
      var wild, v := UndefinedRangeFails(t, including, lower, upper);
    }
  }
}
