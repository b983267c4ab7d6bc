/** The countdown hook: the time left in a slot, clamped at zero, split into
    minutes and seconds, and shown as `mm:ss`. The hook keeps the time left in
    fractional seconds; here it is kept in whole milliseconds, which is the
    resolution of the clock it is computed from. */
module Countdown {
  import opened Wrappers
  import opened Text
  import Clock

  /** What the hook returns. */
  datatype Reading = Reading(remainingMs: nat, minutes: nat, seconds: nat, isFinished: bool, formatted: string)

  /** `remaining`: nothing without a (truthy) start time; otherwise the slot length
      minus the time elapsed since the start, but never below zero. */
  function RemainingMs(startTime: Option<int>, durationMinutes: int, now: int): nat
  {
    if !Truthy(startTime) then 0
    else Max(0, Clock.MinutesToMs(durationMinutes) - (now - startTime.value))
  }

  /** `minutes:seconds` with each part zero-padded to two characters. */
  function Format(minutes: nat, seconds: nat): string
  {
    PadStart2(DecimalString(minutes)) + ":" + PadStart2(DecimalString(seconds))
  }

  /** The hook's result at time `now`. */
  function Read(startTime: Option<int>, durationMinutes: int, now: int): Reading
  {
    var rem := RemainingMs(startTime, durationMinutes, now);
    var minutes := rem / 60000;
    var seconds := (rem % 60000) / 1000;
    Reading(rem, minutes, seconds, rem == 0, Format(minutes, seconds))
  }

  /** Before the slot is over the time left and the time elapsed add up to the
      slot; afterwards, and without a start time, the time left is zero. */
  lemma RemainingClamped(startTime: Option<int>, durationMinutes: int, now: int)
    ensures !Truthy(startTime) ==> RemainingMs(startTime, durationMinutes, now) == 0
    ensures Truthy(startTime) && now - startTime.value <= Clock.MinutesToMs(durationMinutes) ==>
              RemainingMs(startTime, durationMinutes, now) + (now - startTime.value) == Clock.MinutesToMs(durationMinutes)
    ensures Truthy(startTime) && now - startTime.value >= Clock.MinutesToMs(durationMinutes) ==>
              RemainingMs(startTime, durationMinutes, now) == 0
  {
  }

  /** The time left never grows as the clock advances. */
  lemma RemainingNonIncreasing(startTime: Option<int>, durationMinutes: int, now1: int, now2: int)
    requires now1 <= now2
    ensures RemainingMs(startTime, durationMinutes, now2) <= RemainingMs(startTime, durationMinutes, now1)
  {
  }

  /** `isFinished` holds exactly when the time left is zero: there is no start time,
      or the whole slot has elapsed. */
  lemma FinishedIff(startTime: Option<int>, durationMinutes: int, now: int)
    ensures Read(startTime, durationMinutes, now).isFinished
        <==> !Truthy(startTime) || now - startTime.value >= Clock.MinutesToMs(durationMinutes)
  {
  }

  /** The split is a whole-minutes / whole-seconds reading of the time left:
      the seconds are below 60 and together they count its whole seconds. */
  lemma {:induction false} SplitIsExact(startTime: Option<int>, durationMinutes: int, now: int)
    ensures var r := Read(startTime, durationMinutes, now);
            && r.seconds < 60
            && r.minutes * 60 + r.seconds == r.remainingMs / 1000
            && r.minutes * 60000 <= r.remainingMs < (r.minutes + 1) * 60000
  {
    var r := Read(startTime, durationMinutes, now);
    var rem := r.remainingMs;
    var q := rem / 60000;
    var m := rem % 60000;
    assert rem == 60000 * q + m;
    var s := m / 1000;
    assert m == 1000 * s + m % 1000;
    assert rem == 1000 * (60 * q + s) + m % 1000;
  }

  /** Below 100 minutes the text is `mm:ss`: five characters, a colon in the
      middle, and two digits on each side that read back as the minutes and
      the seconds. */
  lemma FormattedShape(startTime: Option<int>, durationMinutes: int, now: int)
    requires Read(startTime, durationMinutes, now).minutes < 100
    ensures var r := Read(startTime, durationMinutes, now);
            && |r.formatted| == 5
            && r.formatted[2] == ':'
            && AllDigits(r.formatted[..2]) && DecimalValue(r.formatted[..2]) == r.minutes
            && AllDigits(r.formatted[3..]) && DecimalValue(r.formatted[3..]) == r.seconds
  {
    var r := Read(startTime, durationMinutes, now);
    SplitIsExact(startTime, durationMinutes, now);
    TwoDigitRoundTrip(r.minutes);
    TwoDigitRoundTrip(r.seconds);
    var mm := PadStart2(DecimalString(r.minutes));
    var ss := PadStart2(DecimalString(r.seconds));
    assert r.formatted == mm + ":" + ss;
    assert r.formatted[..2] == mm;
    assert r.formatted[3..] == ss;
  }

  /** In the last second of a slot the text already reads `00:00` although the
      countdown is not finished. */
  lemma LastSecondShowsZero(startTime: Option<int>, durationMinutes: int, now: int)
    requires 0 < RemainingMs(startTime, durationMinutes, now) < 1000
    ensures !Read(startTime, durationMinutes, now).isFinished
    ensures Read(startTime, durationMinutes, now).formatted == "00:00"
  {
  }

  /** At the moment a three-minute slot starts the text reads `03:00`. */
  lemma StartReading(startTime: int)
    requires startTime != 0
    ensures Read(Some(startTime), 3, startTime).formatted == "03:00"
    ensures Read(Some(startTime), 3, startTime).remainingMs == 180000
  {
  }
}
