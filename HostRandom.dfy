/**
 * The random draws the modelled systems take from the host's random service.
 * A draw is a parameter of the operation that uses it; these predicates say
 * which values the service can return, so a caller may pass any of them.
 */
module HostRandom {

  /**
   * `Next(lo, hi)` of the host's integer generator: a value in [lo, hi) when
   * lo < hi, and lo itself when lo == hi (the service throws when lo > hi).
   */
  predicate IsNextDraw(lo: int, hi: int, r: int)
  {
    if lo < hi then lo <= r < hi else r == lo
  }

  /** `NextDouble()` and the unit draw behind `NextFloat(lo, hi)`: a value in [0, 1). */
  predicate IsUnitDraw(u: real)
  {
    0.0 <= u < 1.0
  }

  /** `NextFloat(lo, hi)` for the unit draw `u`. */
  function NextFloat(lo: real, hi: real, u: real): real
  {
    lo + (hi - lo) * u
  }
}
