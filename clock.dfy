/** The clock shift of `getThaiTime`: the current instant (integer
    milliseconds since the Unix epoch) moved forward by seven hours, the
    fixed UTC+7 offset of Thailand, which has no daylight-saving time. */
module ThaiClock {
  import opened Wrappers

  /** Seven hours in milliseconds. */
  const Offset: int := 7 * 60 * 60 * 1000

  /** The largest magnitude of a time value that an ECMAScript `Date` can
      hold (ECMA-262, "Time Values and Time Range"): 100,000,000 days. */
  const MaxTimeValue: int := 8_640_000_000_000_000

  /** A millisecond count that a `Date` object can represent. */
  predicate IsTimeValue(t: int) {
    -MaxTimeValue <= t <= MaxTimeValue
  }

  /** The shifted timestamp. `Date.getTime()` of the current date is always
      a valid time value; the shifted value can leave the range, in which
      case `new Date` is invalid and `toISOString` throws a RangeError,
      modelled as `None`. */
  function ThaiTime(instant: int): (r: Option<int>)
    requires IsTimeValue(instant)
    ensures r.Some? <==> instant <= MaxTimeValue - 25_200_000
    ensures r.Some? ==> r.value == instant + 25_200_000 && IsTimeValue(r.value)
  {
    var shifted := instant + Offset;
    if IsTimeValue(shifted) then Some(shifted) else None
  }
}
