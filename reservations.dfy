/** The reservation queue of the shared microwave, as values: the record, the
    list queries the store offers (find, filter, findIndex), the new list each
    mutating operation produces, and the estimated start time of a queue
    position. The class in store.dfy applies these to its field. */
module Reservations {
  import opened Wrappers
  import Clock

  datatype Status = Waiting | Using | Completed

  /** One reservation. Times are milliseconds; `totalDuration` is in minutes. */
  datatype Reservation = Reservation(
    id: string,
    name: string,
    duration: int,
    totalDuration: int,
    createdAt: int,
    startTime: Option<int>,
    status: Status)

  /** The minutes added to every requested duration for changing over. */
  const BufferMinutes: int := 1

  /** The record `addReservation` creates. */
  function NewReservation(id: string, name: string, duration: int, now: int): (r: Reservation)
    ensures r.status == Waiting && r.startTime.None?
    ensures r.totalDuration == duration + 1
    ensures r.id == id && r.name == name && r.duration == duration && r.createdAt == now
  {
    Reservation(id, name, duration, duration + BufferMinutes, now, None, Waiting)
  }

  // ---------------------------------------------------------------------------
  // Queries over the list

  /** The number of records with status `s`. */
  function CountOf(rs: seq<Reservation>, s: Status): (n: nat)
    ensures n <= |rs|
  {
    if rs == [] then 0 else (if rs[0].status == s then 1 else 0) + CountOf(rs[1..], s)
  }

  /** The count is zero exactly when no record has the status, and then `find` fails. */
  lemma {:induction false} CountOfZero(rs: seq<Reservation>, s: Status)
    ensures CountOf(rs, s) == 0 <==> forall i :: 0 <= i < |rs| ==> rs[i].status != s
    ensures CountOf(rs, s) == 0 <==> FirstWith(rs, s).None?
  {
    if rs != [] {
      CountOfZero(rs[1..], s);
    }
  }

  /** `find(r => r.status === s)`, as an index: the first record with status `s`. */
  function FirstWith(rs: seq<Reservation>, s: Status): (k: Option<nat>)
    ensures k.None? <==> forall i :: 0 <= i < |rs| ==> rs[i].status != s
    ensures k.Some? ==> k.value < |rs| && rs[k.value].status == s
    ensures k.Some? ==> forall j :: 0 <= j < k.value ==> rs[j].status != s
  {
    if rs == [] then None
    else if rs[0].status == s then Some(0)
    else match FirstWith(rs[1..], s)
      case None => None
      case Some(k) => Some(k + 1)
  }

  /** `filter(r => r.status === s)`. */
  function WithStatus(rs: seq<Reservation>, s: Status): (w: seq<Reservation>)
    ensures |w| == CountOf(rs, s)
    ensures forall i :: 0 <= i < |w| ==> w[i].status == s
  {
    if rs == [] then []
    else if rs[0].status == s then [rs[0]] + WithStatus(rs[1..], s)
    else WithStatus(rs[1..], s)
  }

  /** `filter(r => r.status !== s)`. */
  function WithoutStatus(rs: seq<Reservation>, s: Status): (w: seq<Reservation>)
    ensures |w| == |rs| - CountOf(rs, s)
    ensures forall i :: 0 <= i < |w| ==> w[i].status != s
  {
    if rs == [] then []
    else if rs[0].status != s then [rs[0]] + WithoutStatus(rs[1..], s)
    else WithoutStatus(rs[1..], s)
  }

  /** `getCurrentReservation`: the first record that is in use, if any. */
  function CurrentOf(rs: seq<Reservation>): Option<Reservation>
  {
    match FirstWith(rs, Using)
    case None => None
    case Some(i) => Some(rs[i])
  }

  /** The current record exists exactly when some record is in use, and it is the
      first such record. */
  lemma CurrentIsFirstUsing(rs: seq<Reservation>)
    ensures CurrentOf(rs).Some? <==> CountOf(rs, Using) > 0
    ensures CurrentOf(rs).Some? ==> CurrentOf(rs).value.status == Using && CurrentOf(rs).value in rs
  {
    CountOfZero(rs, Using);
  }

  /** `findIndex(r => r.id === id)`: the index of the first record with `id`, or -1. */
  function FindIndex(w: seq<Reservation>, id: string): (k: int)
    ensures -1 <= k < |w|
    ensures k == -1 <==> forall i :: 0 <= i < |w| ==> w[i].id != id
    ensures k >= 0 ==> w[k].id == id && forall j :: 0 <= j < k ==> w[j].id != id
  {
    if w == [] then -1
    else if w[0].id == id then 0
    else
      var k := FindIndex(w[1..], id);
      if k == -1 then -1 else k + 1
  }

  // ---------------------------------------------------------------------------
  // The new list after each mutating operation

  /** The start time a promoted record gets: the daily threshold for the first
      user of a session who arrives before it, the current time otherwise. */
  function PromotionStart(rs: seq<Reservation>, now: int, threshold: int): int
  {
    if FirstWith(rs, Using).None? then (if now < threshold then threshold else now) else now
  }

  /** `startNextReservation`: the first waiting record becomes in use. As in the
      source, nothing prevents this while another record is already in use. */
  function StartNext(rs: seq<Reservation>, now: int, threshold: int): seq<Reservation>
  {
    match FirstWith(rs, Waiting)
    case None => rs
    case Some(i) => rs[i := rs[i].(status := Using, startTime := Some(PromotionStart(rs, now, threshold)))]
  }

  /** The status change of `completeCurrentReservation`. */
  function Complete(rs: seq<Reservation>): seq<Reservation>
  {
    match FirstWith(rs, Using)
    case None => rs
    case Some(i) => rs[i := rs[i].(status := Completed)]
  }

  /** `completeCurrentReservation` followed by the `startNextReservation` it
      schedules; without a current record nothing is scheduled. */
  function CompleteAndAdvance(rs: seq<Reservation>, now: int, threshold: int): seq<Reservation>
  {
    if FirstWith(rs, Using).Some? then StartNext(Complete(rs), now, threshold) else rs
  }

  // ---------------------------------------------------------------------------
  // Estimated start time

  /** The sum of `totalDuration` over the records `w[i]` with `0 <= i < k`. */
  function PriorTotal(w: seq<Reservation>, k: int): int
  {
    if k <= 0 || w == [] then 0 else w[0].totalDuration + PriorTotal(w[1..], k - 1)
  }

  /** What is left of the current record's slot, buffer included, in ms; zero when
      there is no current record or it has no start time. */
  function RemainingMs(current: Option<Reservation>, now: int): int
  {
    if current.Some? && Truthy(current.value.startTime)
    then Max(0, Clock.MinutesToMs(current.value.totalDuration) - (now - current.value.startTime.value))
    else 0
  }

  /** `getEstimatedTime(position)`, in ms, from the current record and the
      waiting list the source reads first. */
  function Estimate(current: Option<Reservation>, waiting: seq<Reservation>, position: int,
                    now: int, threshold: int): int
  {
    if current.None? && position == 1 then
      (if now < threshold then threshold else now)
    else
      var base := if current.None? && |waiting| > 0 && now < threshold then threshold else now;
      base + RemainingMs(current, now) + Clock.MinutesToMs(PriorTotal(waiting, position - 1))
  }

  /** `getEstimatedTime(position)` on the list `rs`. */
  function EstimatedTime(rs: seq<Reservation>, position: int, now: int, threshold: int): int
  {
    Estimate(CurrentOf(rs), WithStatus(rs, Waiting), position, now, threshold)
  }

  // ---------------------------------------------------------------------------
  // Lemmas: the lists

  /** A record is in the filtered list exactly when it is in the list with that status. */
  lemma {:induction false} WithStatusMembers(rs: seq<Reservation>, s: Status, r: Reservation)
    ensures r in WithStatus(rs, s) <==> r in rs && r.status == s
    ensures r in WithoutStatus(rs, s) <==> r in rs && r.status != s
  {
    if rs != [] {
      assert rs == [rs[0]] + rs[1..];
      WithStatusMembers(rs[1..], s, r);
    }
  }

  /** Filtering distributes over concatenation, so it keeps list order. */
  lemma {:induction false} WithStatusAppend(a: seq<Reservation>, b: seq<Reservation>, s: Status)
    ensures WithStatus(a + b, s) == WithStatus(a, s) + WithStatus(b, s)
  {
    if a == [] {
      assert a + b == b;
    } else {
      assert (a + b)[1..] == a[1..] + b;
      WithStatusAppend(a[1..], b, s);
    }
  }

  /** Dropping the records of one status distributes over concatenation: the
      survivors of any prefix still come before the survivors of the rest, so
      `clearCompleted` keeps the remaining records in their original order. */
  lemma {:induction false} WithoutStatusAppend(a: seq<Reservation>, b: seq<Reservation>, s: Status)
    ensures WithoutStatus(a + b, s) == WithoutStatus(a, s) + WithoutStatus(b, s)
  {
    if a == [] {
      assert a + b == b;
    } else {
      assert (a + b)[1..] == a[1..] + b;
      WithoutStatusAppend(a[1..], b, s);
    }
  }

  lemma {:induction false} CountOfAppend(a: seq<Reservation>, b: seq<Reservation>, s: Status)
    ensures CountOf(a + b, s) == CountOf(a, s) + CountOf(b, s)
  {
    if a == [] {
      assert a + b == b;
    } else {
      assert (a + b)[1..] == a[1..] + b;
      CountOfAppend(a[1..], b, s);
    }
  }

  /** Replacing one record changes each count by at most the one record. */
  lemma {:induction false} CountOfUpdate(rs: seq<Reservation>, i: nat, x: Reservation, s: Status)
    requires i < |rs|
    ensures CountOf(rs[i := x], s)
         == CountOf(rs, s) - (if rs[i].status == s then 1 else 0) + (if x.status == s then 1 else 0)
  {
    if i == 0 {
      assert rs[i := x][1..] == rs[1..];
    } else {
      assert rs[i := x][1..] == rs[1..][i - 1 := x];
      CountOfUpdate(rs[1..], i - 1, x, s);
    }
  }

  /** The record `find` locates is the head of the filtered list: position 1 of
      the waiting list is the record `startNextReservation` promotes. */
  lemma {:induction false} FirstWithIsHead(rs: seq<Reservation>, s: Status)
    ensures FirstWith(rs, s).None? <==> WithStatus(rs, s) == []
    ensures FirstWith(rs, s).Some? ==> WithStatus(rs, s)[0] == rs[FirstWith(rs, s).value]
  {
    if rs != [] && rs[0].status != s {
      FirstWithIsHead(rs[1..], s);
    }
  }

  /** A record appended as waiting joins the end of the waiting list (FIFO), every
      count but the waiting one is unchanged, and its 1-based position is the new
      waiting count when its id is not already waiting. */
  lemma AppendJoinsQueueEnd(rs: seq<Reservation>, r: Reservation)
    requires r.status == Waiting
    ensures WithStatus(rs + [r], Waiting) == WithStatus(rs, Waiting) + [r]
    ensures CountOf(rs + [r], Waiting) == CountOf(rs, Waiting) + 1
    ensures CountOf(rs + [r], Using) == CountOf(rs, Using)
    ensures CurrentOf(rs + [r]) == CurrentOf(rs)
    ensures (forall q :: q in WithStatus(rs, Waiting) ==> q.id != r.id) ==>
              FindIndex(WithStatus(rs + [r], Waiting), r.id) + 1 == CountOf(rs + [r], Waiting)
  {
    WithStatusAppend(rs, [r], Waiting);
    assert WithStatus([r], Waiting) == [r];
    CountOfAppend(rs, [r], Waiting);
    CountOfAppend(rs, [r], Using);
    FirstWithAppendWaiting(rs, r);
    var w := WithStatus(rs, Waiting);
    if forall q :: q in w ==> q.id != r.id {
      var k := FindIndex(w + [r], r.id);
      assert (w + [r])[|w|].id == r.id;
      assert forall i :: 0 <= i < |w| ==> (w + [r])[i] == w[i] && w[i] in w;
    }
  }

  lemma {:induction false} FirstWithAppendWaiting(rs: seq<Reservation>, r: Reservation)
    requires r.status == Waiting
    ensures FirstWith(rs + [r], Using) == FirstWith(rs, Using)
    ensures forall i :: 0 <= i < |rs| ==> (rs + [r])[i] == rs[i]
  {
    if rs != [] {
      assert (rs + [r])[1..] == rs[1..] + [r];
      FirstWithAppendWaiting(rs[1..], r);
    }
  }

  // ---------------------------------------------------------------------------
  // Lemmas: startNextReservation

  /** With nobody waiting, `startNextReservation` changes nothing. */
  lemma StartNextWithoutWaiting(rs: seq<Reservation>, now: int, threshold: int)
    requires CountOf(rs, Waiting) == 0
    ensures StartNext(rs, now, threshold) == rs
  {
    CountOfZero(rs, Waiting);
  }

  /** Otherwise exactly the first waiting record `rs[i]` changes: it becomes in use
      with the threshold rule's start time (the threshold only when nobody is in
      use and it is not yet reached); every other record is untouched. */
  lemma StartNextPromotesFirstWaiting(rs: seq<Reservation>, i: nat, now: int, threshold: int)
    requires i < |rs| && rs[i].status == Waiting
    requires forall j :: 0 <= j < i ==> rs[j].status != Waiting
    ensures |StartNext(rs, now, threshold)| == |rs|
    ensures StartNext(rs, now, threshold)[i]
         == rs[i].(status := Using,
                   startTime := Some(if CountOf(rs, Using) == 0 && now < threshold then threshold else now))
    ensures forall j :: 0 <= j < |rs| && j != i ==> StartNext(rs, now, threshold)[j] == rs[j]
  {
    CountOfZero(rs, Using);
    var k := FirstWith(rs, Waiting);
    assert rs[i].status == Waiting;
    assert k.Some?;
    assert k.value == i;
  }

  /** When nobody is in use beforehand, at most one record is in use afterwards
      (exactly one when somebody was waiting). */
  lemma StartNextFromIdle(rs: seq<Reservation>, now: int, threshold: int)
    requires CountOf(rs, Using) == 0
    ensures CountOf(StartNext(rs, now, threshold), Using) == (if CountOf(rs, Waiting) > 0 then 1 else 0)
    ensures CountOf(StartNext(rs, now, threshold), Waiting) == Max(0, CountOf(rs, Waiting) - 1)
    ensures CountOf(StartNext(rs, now, threshold), Completed) == CountOf(rs, Completed)
  {
    CountOfZero(rs, Using);
    CountOfZero(rs, Waiting);
    match FirstWith(rs, Waiting)
    case None =>
    case Some(i) =>
      var x := rs[i].(status := Using, startTime := Some(PromotionStart(rs, now, threshold)));
      CountOfUpdate(rs, i, x, Using);
      CountOfUpdate(rs, i, x, Waiting);
      CountOfUpdate(rs, i, x, Completed);
  }

  /** In general a promotion adds one record in use to those already in use. */
  lemma StartNextAddsUsing(rs: seq<Reservation>, now: int, threshold: int)
    requires CountOf(rs, Waiting) > 0
    ensures CountOf(StartNext(rs, now, threshold), Using) == CountOf(rs, Using) + 1
  {
    var i := FirstWith(rs, Waiting).value;
    CountOfUpdate(rs, i, rs[i].(status := Using, startTime := Some(PromotionStart(rs, now, threshold))), Using);
  }

  /** The code does not refuse to promote while a record is in use: a list with one
      record in use and one waiting ends up with two in use. */
  lemma StartNextCanDoubleUsing(now: int, threshold: int)
    ensures var rs := [
              Reservation("1", "A", 3, 4, 0, Some(1), Using),
              Reservation("2", "B", 1, 2, 0, None, Waiting)];
            CountOf(StartNext(rs, now, threshold), Using) == 2
  {
    var rs := [
      Reservation("1", "A", 3, 4, 0, Some(1), Using),
      Reservation("2", "B", 1, 2, 0, None, Waiting)];
    StartNextAddsUsing(rs, now, threshold);
  }

  // ---------------------------------------------------------------------------
  // Lemmas: completeCurrentReservation

  /** The first record in use becomes completed and nothing else changes; with no
      record in use the list is unchanged. */
  lemma CompleteFinishesCurrent(rs: seq<Reservation>)
    ensures |Complete(rs)| == |rs|
    ensures CountOf(rs, Using) == 0 ==> Complete(rs) == rs
    ensures FirstWith(rs, Using).Some? ==>
              var i := FirstWith(rs, Using).value;
              && Complete(rs)[i] == rs[i].(status := Completed)
              && (forall j :: 0 <= j < |rs| && j != i ==> Complete(rs)[j] == rs[j])
  {
    CountOfZero(rs, Using);
  }

  /** Completing moves one record from the in-use count to the completed count. */
  lemma CompleteCounts(rs: seq<Reservation>)
    requires CountOf(rs, Using) > 0
    ensures CountOf(Complete(rs), Using) == CountOf(rs, Using) - 1
    ensures CountOf(Complete(rs), Completed) == CountOf(rs, Completed) + 1
    ensures CountOf(Complete(rs), Waiting) == CountOf(rs, Waiting)
  {
    CountOfZero(rs, Using);
    var i := FirstWith(rs, Using).value;
    var x := rs[i].(status := Completed);
    CountOfUpdate(rs, i, x, Using);
    CountOfUpdate(rs, i, x, Completed);
    CountOfUpdate(rs, i, x, Waiting);
  }

  /** Completing the only record in use while somebody waits promotes exactly one
      waiting record, so exactly one is in use afterwards. */
  lemma CompleteThenAdvance(rs: seq<Reservation>, now: int, threshold: int)
    requires CountOf(rs, Using) == 1 && CountOf(rs, Waiting) >= 1
    ensures CountOf(CompleteAndAdvance(rs, now, threshold), Using) == 1
    ensures CountOf(CompleteAndAdvance(rs, now, threshold), Waiting) == CountOf(rs, Waiting) - 1
    ensures CountOf(CompleteAndAdvance(rs, now, threshold), Completed) == CountOf(rs, Completed) + 1
  {
    CurrentIsFirstUsing(rs);
    var c := Complete(rs);
    assert CompleteAndAdvance(rs, now, threshold) == StartNext(c, now, threshold);
    CompleteCounts(rs);
    assert CountOf(c, Using) == 0 && CountOf(c, Waiting) == CountOf(rs, Waiting);
    StartNextFromIdle(c, now, threshold);
  }

  /** "At most one record in use" survives a completion and its follow-up start. */
  lemma CompleteKeepsSingleUsing(rs: seq<Reservation>, now: int, threshold: int)
    requires CountOf(rs, Using) <= 1
    ensures CountOf(CompleteAndAdvance(rs, now, threshold), Using) <= 1
  {
    CountOfZero(rs, Using);
    if CountOf(rs, Using) == 1 {
      CompleteCounts(rs);
      StartNextFromIdle(Complete(rs), now, threshold);
    }
  }

  // ---------------------------------------------------------------------------
  // Lemmas: status only moves forward

  function Rank(s: Status): nat
  {
    match s
    case Waiting => 0
    case Using => 1
    case Completed => 2
  }

  /** `after` is `before` with some records moved one step along
      waiting -> using -> completed, and no other change of status. */
  ghost predicate StepsForward(before: seq<Reservation>, after: seq<Reservation>)
  {
    && |before| == |after|
    && forall i :: 0 <= i < |before| ==>
         after[i].status == before[i].status || Rank(after[i].status) == Rank(before[i].status) + 1
  }

  /** Neither operation moves a status backwards or skips a step, and both keep
      every other field of a completed record. */
  lemma StatusOnlyMovesForward(rs: seq<Reservation>, now: int, threshold: int)
    ensures StepsForward(rs, StartNext(rs, now, threshold))
    ensures StepsForward(rs, Complete(rs))
    ensures forall i :: 0 <= i < |rs| && rs[i].status == Completed ==>
              StartNext(rs, now, threshold)[i] == rs[i] && Complete(rs)[i] == rs[i]
  {
  }

  // ---------------------------------------------------------------------------
  // Lemmas: clearCompleted

  /** `clearCompleted` keeps the waiting list (in order) and the current record. */
  lemma {:induction false} ClearCompletedKeepsQueue(rs: seq<Reservation>)
    ensures WithStatus(WithoutStatus(rs, Completed), Waiting) == WithStatus(rs, Waiting)
    ensures WithStatus(WithoutStatus(rs, Completed), Using) == WithStatus(rs, Using)
    ensures CountOf(WithoutStatus(rs, Completed), Completed) == 0
  {
    if rs != [] {
      ClearCompletedKeepsQueue(rs[1..]);
      if rs[0].status != Completed {
        assert ([rs[0]] + WithoutStatus(rs[1..], Completed))[1..] == WithoutStatus(rs[1..], Completed);
      }
    }
  }

  /** Each record that is not completed keeps its multiplicity; completed ones vanish. */
  lemma {:induction false} ClearCompletedMultiset(rs: seq<Reservation>, r: Reservation)
    ensures multiset(WithoutStatus(rs, Completed))[r]
         == if r.status == Completed then 0 else multiset(rs)[r]
  {
    if rs != [] {
      assert rs == [rs[0]] + rs[1..];
      ClearCompletedMultiset(rs[1..], r);
    }
  }

  /** Clearing twice is clearing once. */
  lemma {:induction false} ClearCompletedIdempotent(rs: seq<Reservation>)
    ensures WithoutStatus(WithoutStatus(rs, Completed), Completed) == WithoutStatus(rs, Completed)
  {
    if rs != [] {
      ClearCompletedIdempotent(rs[1..]);
      if rs[0].status != Completed {
        assert ([rs[0]] + WithoutStatus(rs[1..], Completed))[1..] == WithoutStatus(rs[1..], Completed);
      }
    }
  }

  // ---------------------------------------------------------------------------
  // Lemmas: the estimated time

  /** One more position adds the next waiting record's total duration, if there is one. */
  lemma {:induction false} PriorTotalStep(w: seq<Reservation>, k: nat)
    ensures PriorTotal(w, k + 1) == PriorTotal(w, k) + (if k < |w| then w[k].totalDuration else 0)
  {
    if w != [] && k > 0 {
      PriorTotalStep(w[1..], k - 1);
    }
  }

  /** With non-negative durations the prior total never decreases in `k`. */
  lemma {:induction false} PriorTotalMonotone(w: seq<Reservation>, j: int, k: int)
    requires j <= k
    requires forall i :: 0 <= i < |w| ==> w[i].totalDuration >= 0
    ensures PriorTotal(w, j) <= PriorTotal(w, k)
  {
    if k > 0 && w != [] {
      if j <= 0 {
        PriorTotalMonotone(w[1..], 0, k - 1);
      } else {
        PriorTotalMonotone(w[1..], j - 1, k - 1);
      }
    }
  }

  /** Past the end of the waiting list the prior total stops growing. */
  lemma {:induction false} PriorTotalPlateau(w: seq<Reservation>, k: int)
    requires k >= |w|
    ensures PriorTotal(w, k) == PriorTotal(w, |w|)
  {
    if w != [] {
      PriorTotalPlateau(w[1..], k - 1);
    }
  }

  /** With no record in use, the first position starts at the threshold or now,
      whichever is later. */
  lemma EstimateFirstWhenIdle(rs: seq<Reservation>, now: int, threshold: int)
    requires CountOf(rs, Using) == 0
    ensures EstimatedTime(rs, 1, now, threshold) == Max(now, threshold)
  {
    CurrentIsFirstUsing(rs);
  }

  /** The estimate is non-decreasing in the position, unless (see
      EstimateDropsWhenEmpty) nobody is in use or waiting before the threshold. */
  lemma EstimateMonotone(current: Option<Reservation>, waiting: seq<Reservation>, p: int, q: int,
                         now: int, threshold: int)
    requires 1 <= p <= q
    requires forall i :: 0 <= i < |waiting| ==> waiting[i].totalDuration >= 0
    requires current.Some? || |waiting| > 0 || now >= threshold
    ensures Estimate(current, waiting, p, now, threshold) <= Estimate(current, waiting, q, now, threshold)
  {
    PriorTotalMonotone(waiting, p - 1, q - 1);
    PriorTotalMonotone(waiting, 0, p - 1);
    assert PriorTotal(waiting, 0) == 0;
  }

  /** The same on the store's list: records waiting with non-negative durations. */
  lemma EstimatedTimeMonotone(rs: seq<Reservation>, p: int, q: int, now: int, threshold: int)
    requires 1 <= p <= q
    requires forall i :: 0 <= i < |rs| && rs[i].status == Waiting ==> rs[i].totalDuration >= 0
    requires CountOf(rs, Using) > 0 || CountOf(rs, Waiting) > 0 || now >= threshold
    ensures EstimatedTime(rs, p, now, threshold) <= EstimatedTime(rs, q, now, threshold)
  {
    WaitingDurationsNonNegative(rs);
    CurrentIsFirstUsing(rs);
    EstimateMonotone(CurrentOf(rs), WithStatus(rs, Waiting), p, q, now, threshold);
  }

  lemma {:induction false} WaitingDurationsNonNegative(rs: seq<Reservation>)
    requires forall i :: 0 <= i < |rs| && rs[i].status == Waiting ==> rs[i].totalDuration >= 0
    ensures forall i :: 0 <= i < |WithStatus(rs, Waiting)| ==> WithStatus(rs, Waiting)[i].totalDuration >= 0
  {
    if rs != [] {
      WaitingDurationsNonNegative(rs[1..]);
    }
  }

  /** Once `position - 1` reaches the waiting count the estimate no longer changes. */
  lemma EstimatePlateau(current: Option<Reservation>, waiting: seq<Reservation>, p: int, q: int,
                        now: int, threshold: int)
    requires |waiting| + 1 <= p && |waiting| + 1 <= q
    requires current.Some? || (p >= 2 && q >= 2)
    ensures Estimate(current, waiting, p, now, threshold) == Estimate(current, waiting, q, now, threshold)
  {
    PriorTotalPlateau(waiting, p - 1);
    PriorTotalPlateau(waiting, q - 1);
  }

  /** With an empty list before the threshold, position 1 is estimated at the
      threshold but position 2 at now, which is earlier. */
  lemma EstimateDropsWhenEmpty(now: int, threshold: int)
    requires now < threshold
    ensures EstimatedTime([], 2, now, threshold) < EstimatedTime([], 1, now, threshold)
  {
  }

  /** A worked example: durations 1, 3 and 5 minutes (2, 4 and 6 with the buffer)
      wait behind a record whose slot is used up: they start now, two minutes and
      six minutes from now. */
  lemma EstimateExample(now: int, threshold: int)
    ensures var rs := [
              Reservation("0", "C", 3, 4, 0, Some(now - Clock.MinutesToMs(10)), Using),
              Reservation("1", "A", 1, 2, 0, None, Waiting),
              Reservation("2", "B", 3, 4, 0, None, Waiting),
              Reservation("3", "D", 5, 6, 0, None, Waiting)];
            && EstimatedTime(rs, 1, now, threshold) == now
            && EstimatedTime(rs, 2, now, threshold) == now + Clock.MinutesToMs(2)
            && EstimatedTime(rs, 3, now, threshold) == now + Clock.MinutesToMs(6)
  {
    var rs := [
      Reservation("0", "C", 3, 4, 0, Some(now - Clock.MinutesToMs(10)), Using),
      Reservation("1", "A", 1, 2, 0, None, Waiting),
      Reservation("2", "B", 3, 4, 0, None, Waiting),
      Reservation("3", "D", 5, 6, 0, None, Waiting)];
    assert rs[1..][1..] == rs[2..] && rs[2..][1..] == rs[3..] && rs[3..][1..] == [];
    assert WithStatus(rs[3..], Waiting) == [rs[3]];
    assert WithStatus(rs[2..], Waiting) == [rs[2], rs[3]];
    assert WithStatus(rs, Waiting) == [rs[1], rs[2], rs[3]];
    assert [rs[1], rs[2], rs[3]][1..] == [rs[2], rs[3]] && [rs[2], rs[3]][1..] == [rs[3]];
    assert PriorTotal([rs[3]], 0) == 0;
    assert PriorTotal([rs[2], rs[3]], 1) == 4;
    assert PriorTotal([rs[1], rs[2], rs[3]], 2) == 6;
    assert PriorTotal([rs[2], rs[3]], 0) == 0;
    assert PriorTotal([rs[1], rs[2], rs[3]], 1) == 2;
    assert RemainingMs(CurrentOf(rs), now) == 0;
    assert CurrentOf(rs) == Some(rs[0]);
  }
}
