/** Time units, local calendar days and the time-zone abstraction.

    Instants are integers counting microseconds since 1970-01-01T00:00Z, the
    resolution of Python's `datetime`. Local calendar dates are day numbers,
    day 0 being 1970-01-01. */
module Clock {
  import opened Wrappers

  const SECOND: int := 1_000_000
  const MINUTE: int := 60 * SECOND
  const HOUR: int := 60 * MINUTE
  const DAY: int := 24 * HOUR

  /** A time of day (`datetime.time`), in microseconds after local midnight. */
  type TimeOfDay = t: int | 0 <= t < 86_400_000_000

  const MIDNIGHT: TimeOfDay := 0
  /** 23:59:59.999999, the last representable time of a day. */
  const LAST_MICROSECOND: TimeOfDay := 86_399_999_999

  /** `date.weekday()`: Monday is 0 and Sunday is 6; 1970-01-01 was a Thursday. */
  function Weekday(day: int): (w: int)
    ensures 0 <= w < 7
  {
    (day + 3) % 7
  }

  /** A time zone as the engine uses it: `toUtc` localizes a wall-clock time on
      a local date and converts it to an instant (pytz `localize` followed by
      `astimezone(utc)`); `localDate` gives the local calendar date of an
      instant (`astimezone(tz).date()`). The zone database itself, with its
      daylight-saving rules, lies behind these two functions. */
  datatype Zone = Zone(toUtc: (int, TimeOfDay) -> int, localDate: int -> int)

  /** A zone whose offset from UTC never changes (`offset` microseconds east). */
  function FixedOffset(offset: int): Zone
  {
    Zone((day: int, t: TimeOfDay) => day * DAY + t - offset,
         (u: int) => (u + offset) / DAY)
  }

  /** A `datetime`: a wall-clock reading and, when it is zone-aware, the UTC
      offset attached to it; `offset == None` is a naive datetime. */
  datatype DateTime = DateTime(wall: int, offset: Option<int>)

  /** The instant an aware datetime denotes. */
  function Instant(d: DateTime): int
    requires d.offset.Some?
  {
    d.wall - d.offset.value
  }
}
