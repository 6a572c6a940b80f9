/** The part of JavaScript's `Date` the core relies on, over integer
    milliseconds: a fixed day length and a fixed offset of local time from
    UTC. A date key (the source's `toLocaleDateString('en-CA')`) is the number
    of the local day. */
module Clock {

  const DayMs: int := 86400000

  /** Local time minus UTC, in milliseconds; fixed (no daylight saving). */
  const LocalOffsetMs: int := 0

  /** The local date a timestamp falls on. */
  function DayKey(t: int): (d: int)
    ensures d * DayMs - LocalOffsetMs <= t < (d + 1) * DayMs - LocalOffsetMs
  {
    (t + LocalOffsetMs) / DayMs
  }

  /** Local midnight at the start of `t`'s date. */
  function StartOfDay(t: int): int {
    DayKey(t) * DayMs - LocalOffsetMs
  }

  /** 23:59:59.999 on `t`'s date (the source's `setHours(23, 59, 59, 999)`). */
  function EndOfDay(t: int): (e: int)
    ensures t <= e && DayKey(e) == DayKey(t) && DayKey(e + 1) == DayKey(t) + 1
  {
    StartOfDay(t) + DayMs - 1
  }

  lemma DayBounds(t: int)
    ensures StartOfDay(t) <= t <= EndOfDay(t)
    ensures DayKey(StartOfDay(t)) == DayKey(t) && DayKey(EndOfDay(t)) == DayKey(t)
  {
  }

  /** Two timestamps share a date exactly when the second lies in the first's day. */
  lemma SameDay(t: int, u: int)
    ensures DayKey(u) == DayKey(t) <==> StartOfDay(t) <= u <= EndOfDay(t)
  {
  }

  /** A timestamp after the end of `t`'s day is on a later date, and conversely. */
  lemma LaterDay(t: int, u: int)
    ensures DayKey(t) < DayKey(u) <==> EndOfDay(t) < u
  {
  }

  /** Adding a whole day (`setDate(getDate() + 1)`, which keeps the time of
      day) moves to the next date. */
  lemma NextDay(t: int)
    ensures DayKey(t + DayMs) == DayKey(t) + 1
    ensures StartOfDay(t + DayMs) == StartOfDay(t) + DayMs
  {
  }

  /** The millisecond after the end of `t`'s day is the next date's midnight. */
  lemma NextMidnight(t: int)
    ensures t < EndOfDay(t) + 1
    ensures DayKey(EndOfDay(t) + 1) == DayKey(t) + 1
    ensures StartOfDay(EndOfDay(t) + 1) == EndOfDay(t) + 1
  {
  }
}
