/** The logic of the display page: the two time-of-day tests, the table of
    estimated start times, the remaining-seconds readout and the guard that
    starts the next user automatically. */
module Display {
  import opened Wrappers
  import Clock
  import R = Reservations

  /** A reservation as the page receives it from the server; `startTime` is the
      parsed start instant, present when the server sends a non-empty one. */
  datatype Entry = Entry(id: int, name: string, duration: int, startTime: Option<int>)

  /** `isStartedTime`: the daily service has begun (12:15 or later). */
  predicate IsStartedTime(now: int, dayStart: int)
  {
    now >= Clock.At(dayStart, 12, 15)
  }

  /** `isReservationTime`: registration is open, from 8:30 to 17:30 inclusive. */
  predicate IsReservationTime(now: int, dayStart: int)
  {
    now >= Clock.At(dayStart, 8, 30) && now <= Clock.At(dayStart, 17, 30)
  }

  /** Read on the clock, the service has begun exactly from 12:15:00.000 on. */
  lemma StartedTimeByClock(dayStart: int, h: int, m: int, ms: int)
    requires 0 <= h < 24 && 0 <= m < 60 && 0 <= ms < 60000
    ensures IsStartedTime(Clock.At(dayStart, h, m) + ms, dayStart) <==> h > 12 || (h == 12 && m >= 15)
  {
  }

  /** Read on the clock, registration is open from 8:30:00.000 up to and including
      17:30:00.000, and not a millisecond later. */
  lemma ReservationTimeByClock(dayStart: int, h: int, m: int, ms: int)
    requires 0 <= h < 24 && 0 <= m < 60 && 0 <= ms < 60000
    ensures IsReservationTime(Clock.At(dayStart, h, m) + ms, dayStart)
        <==> (h > 8 || (h == 8 && m >= 30)) && (h < 17 || (h == 17 && m < 30) || (h == 17 && m == 30 && ms == 0))
  {
  }

  /** The window is wider than the 8:30 - 12:30 the closed page announces: it is
      still open at 12:31 and at 17:30, closed just before 8:30 and just after 17:30. */
  lemma ReservationWindowBounds(dayStart: int)
    ensures IsReservationTime(Clock.At(dayStart, 8, 30), dayStart)
    ensures !IsReservationTime(Clock.At(dayStart, 8, 30) - 1, dayStart)
    ensures IsReservationTime(Clock.At(dayStart, 12, 31), dayStart)
    ensures IsReservationTime(Clock.At(dayStart, 17, 30), dayStart)
    ensures !IsReservationTime(Clock.At(dayStart, 17, 30) + 1, dayStart)
  {
  }

  // ---------------------------------------------------------------------------
  // The table of estimated start times

  /** The time the table starts from: the end of the current user's slot (without
      the buffer) when that user has a start time; otherwise 12:15 while nobody is
      in use, somebody waits and it is not yet 12:15; otherwise now. */
  function TableBase(current: Option<Entry>, waitingCount: int, now: int, dayStart: int): int
  {
    var start := Clock.At(dayStart, 12, 15);
    var base := if current.None? && waitingCount > 0 && now < start then start else now;
    if current.Some? && current.value.startTime.Some?
    then current.value.startTime.value + Clock.MinutesToMs(current.value.duration)
    else base
  }

  /** The sum of the requested durations (no buffer) of `w`, in minutes. */
  function DurationSum(w: seq<Entry>): int
  {
    if w == [] then 0 else DurationSum(w[..|w| - 1]) + w[|w| - 1].duration
  }

  lemma {:induction false} DurationSumPrefixMonotone(w: seq<Entry>, i: nat, j: nat)
    requires i <= j <= |w|
    requires forall k :: 0 <= k < |w| ==> w[k].duration >= 0
    ensures DurationSum(w[..i]) <= DurationSum(w[..j])
  {
    if i < j {
      assert w[..j][..j - 1] == w[..j - 1];
      DurationSumPrefixMonotone(w, i, j - 1);
    }
  }

  /** `estimatedTimes`: one entry per waiting user, in waiting order; entry `i` is
      the base plus the requested minutes of everyone ahead of `i`. */
  method EstimatedTimes(current: Option<Entry>, waiting: seq<Entry>, now: int, dayStart: int)
    returns (times: seq<int>)
    ensures |times| == |waiting|
    ensures forall i :: 0 <= i < |times| ==>
              times[i] == TableBase(current, |waiting|, now, dayStart) + Clock.MinutesToMs(DurationSum(waiting[..i]))
    ensures |times| > 0 ==> times[0] == TableBase(current, |waiting|, now, dayStart)
    ensures forall i :: 0 <= i < |times| - 1 ==> times[i + 1] == times[i] + Clock.MinutesToMs(waiting[i].duration)
    ensures (forall k :: 0 <= k < |waiting| ==> waiting[k].duration >= 0) ==>
              forall i, j :: 0 <= i <= j < |times| ==> times[i] <= times[j]
  {
    var base := now;
    if current.None? && |waiting| > 0 {
      var start := Clock.At(dayStart, 12, 15);
      if now < start {
        base := start;
      }
    }
    if current.Some? && current.value.startTime.Some? {
      base := current.value.startTime.value + Clock.MinutesToMs(current.value.duration);
    }
    times := [];
    var acc := 0;
    for k := 0 to |waiting|
      invariant |times| == k
      invariant acc == DurationSum(waiting[..k])
      invariant forall i :: 0 <= i < k ==> times[i] == base + Clock.MinutesToMs(DurationSum(waiting[..i]))
    {
      times := times + [base + Clock.MinutesToMs(acc)];
      assert waiting[..k + 1][..k] == waiting[..k];
      acc := acc + waiting[k].duration;
    }
    forall i | 0 <= i < |times| - 1
      ensures times[i + 1] == times[i] + Clock.MinutesToMs(waiting[i].duration)
    {
      assert waiting[..i + 1][..i] == waiting[..i];
    }
    if forall k :: 0 <= k < |waiting| ==> waiting[k].duration >= 0 {
      forall i, j | 0 <= i <= j < |times| ensures times[i] <= times[j] {
        DurationSumPrefixMonotone(waiting, i, j);
      }
    }
  }

  // ---------------------------------------------------------------------------
  // Remaining seconds and the automatic start

  /** The seconds shown for the current user: the whole seconds to the end of the
      slot (start plus the requested minutes, no buffer), floored, never below 0. */
  function RemainingSeconds(startMs: int, duration: int, now: int): (r: nat)
    ensures var left := startMs + Clock.MinutesToMs(duration) - now;
            (r > 0 ==> r * 1000 <= left < (r + 1) * 1000) && (r == 0 <==> left < 1000)
  {
    var end := startMs + Clock.MinutesToMs(duration);
    var x := (end - now) / 1000;
    if x > 0 then x else 0
  }

  /** The automatic start fires once the service has begun, nobody is in use and
      somebody waits. */
  predicate ShouldAutoStart<T>(hasStarted: bool, current: Option<T>, waitingCount: int)
  {
    hasStarted && current.None? && waitingCount > 0
  }

  /** The page's start request goes to a server whose code is not part of this
      model; here it is taken to act like the store's promotion on the same list.
      Under that assumption the guard is what keeps a promotion from creating a
      second record in use: when it fires, exactly one record is in use afterwards,
      it is the first waiting one, and it starts now (12:15 is past). */
  lemma AutoStartPromotesOne(rs: seq<R.Reservation>, now: int, dayStart: int)
    requires ShouldAutoStart(IsStartedTime(now, dayStart), R.CurrentOf(rs), |R.WithStatus(rs, R.Waiting)|)
    ensures var after := R.StartNext(rs, now, Clock.At(dayStart, 12, 15));
            && R.CountOf(after, R.Using) == 1
            && R.CountOf(after, R.Waiting) == R.CountOf(rs, R.Waiting) - 1
            && R.FirstWith(rs, R.Waiting).Some?
            && after[R.FirstWith(rs, R.Waiting).value].startTime == Some(now)
  {
    var threshold := Clock.At(dayStart, 12, 15);
    R.CurrentIsFirstUsing(rs);
    R.CountOfZero(rs, R.Waiting);
    R.StartNextFromIdle(rs, now, threshold);
    var i := R.FirstWith(rs, R.Waiting).value;
    R.StartNextPromotesFirstWaiting(rs, i, now, threshold);
  }
}
