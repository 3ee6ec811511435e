/** A scalar confined to the closed interval [min, max] of its template
    parameters: the conversion reads it back, and the checked assignment
    refuses a value outside the interval. */
module CivilRange {
  import opened Errors

  class Range {
    /** The template bounds `_min` and `_max`, published as `min` and `max`. */
    const min: int
    const max: int
    /** The stored value (`m_value`). */
    var value: int

    /** True when the stored value lies inside [min, max]. */
    predicate InBounds()
      reads this
    {
      min <= value <= max
    }

    /** `Range(Type value = 0)`: stores its argument WITHOUT checking it
        against the bounds. */
    constructor (lo: int, hi: int, initial: int)
      ensures min == lo && max == hi
      ensures value == initial
    {
      min, max := lo, hi;
      value := initial;
    }

    /** `operator Type()`: the stored value, returned unchanged. */
    function Get(): (v: int)
      reads this
      ensures InBounds() ==> min <= v <= max
    {
      value
    }

    /** `operator=(Type value)`: raises `RangeError` and keeps the old value
        when the argument lies outside [min, max]; stores it otherwise. */
    method Assign(v: int) returns (out: Outcome)
      modifies this
      ensures out.Fail? <==> v < min || max < v
      ensures out.Fail? ==> out.error == RangeError && value == old(value)
      ensures out.Pass? ==> value == v && Get() == v && InBounds()
    {
      if v > max || v < min {
        return Fail(RangeError);
      }
      value := v;
      return Pass;
    }
  }

  /** A `Range` built with an out-of-range argument does not satisfy its
      bounds: only the checked assignment establishes them. */
  method UncheckedConstruction() returns (r: Range)
    ensures !r.InBounds() && r.Get() == 75 && r.max == 59
  {
    r := new Range(0, 59, 75);
  }
}
