/** Wall-clock arithmetic in integer milliseconds. */
module Clock {

  /** Milliseconds in `minutes` minutes. */
  function MinutesToMs(minutes: int): int
  {
    minutes * 60000
  }

  /** The instant `hours:minutes:00.000` of the local day that starts at `dayStart`
      (what `setHours(hours, minutes, 0, 0)` yields on a date of that day). */
  function At(dayStart: int, hours: int, minutes: int): int
  {
    dayStart + MinutesToMs(hours * 60 + minutes)
  }
}
