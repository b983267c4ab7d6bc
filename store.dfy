/** The reservation store: one object holding the list of reservations, whose
    methods read it and replace it. Each mutating method states its new list in
    terms of the functions of module Reservations, whose lemmas carry the
    queue's properties; the query methods state what they return. */
module Store {
  import opened Wrappers
  import opened Reservations
  import Clock

  class ReservationStore {
    /** The stored list, in insertion order. */
    var reservations: seq<Reservation>

    /** A store starts with no stored list, which reads as the empty list. */
    constructor ()
      ensures reservations == []
    {
      reservations := [];
    }

    /** The queue invariant: at most one record is in use. */
    ghost predicate SingleUsing()
      reads this
    {
      CountOf(reservations, Using) <= 1
    }

    /** `addReservation`: appends a waiting record with the one-minute buffer. */
    method AddReservation(id: string, name: string, duration: int, now: int) returns (r: Reservation)
      modifies this
      ensures r == NewReservation(id, name, duration, now)
      ensures reservations == old(reservations) + [r]
      ensures WithStatus(reservations, Waiting) == WithStatus(old(reservations), Waiting) + [r]
      ensures old(SingleUsing()) ==> SingleUsing()
    {
      r := NewReservation(id, name, duration, now);
      reservations := reservations + [r];
      AppendJoinsQueueEnd(old(reservations), r);
    }

    /** `startNextReservation`: promotes the first waiting record, whether or not
        another record is in use; its start time follows the threshold rule. */
    method StartNextReservation(now: int, threshold: int)
      modifies this
      ensures reservations == StartNext(old(reservations), now, threshold)
      ensures old(CountOf(reservations, Using)) == 0 ==> SingleUsing()
    {
      var waiting := WithStatus(reservations, Waiting);
      var current := CurrentOf(reservations);
      if |waiting| > 0 {
        FirstWithIsHead(reservations, Waiting);
        var i := FirstWith(reservations, Waiting).value;
        var start: int;
        if current.None? {
          if now < threshold {
            start := threshold;
          } else {
            start := now;
          }
        } else {
          start := now;
        }
        reservations := reservations[i := reservations[i].(status := Using, startTime := Some(start))];
      } else {
        FirstWithIsHead(reservations, Waiting);
      }
      if old(CountOf(reservations, Using)) == 0 {
        StartNextFromIdle(old(reservations), now, threshold);
      }
    }

    /** `completeCurrentReservation`: the first record in use becomes completed,
        and then the start of the next one runs; `now` is the time at which that
        delayed start happens. Without a record in use nothing happens. */
    method CompleteCurrentReservation(now: int, threshold: int)
      modifies this
      ensures reservations == CompleteAndAdvance(old(reservations), now, threshold)
      ensures old(SingleUsing()) ==> SingleUsing()
    {
      var current := FirstWith(reservations, Using);
      if current.Some? {
        var i := current.value;
        reservations := reservations[i := reservations[i].(status := Completed)];
        StartNextReservation(now, threshold);
      }
      if old(SingleUsing()) {
        CompleteKeepsSingleUsing(old(reservations), now, threshold);
      }
    }

    /** `getCurrentReservation`. */
    method GetCurrentReservation() returns (c: Option<Reservation>)
      ensures c == CurrentOf(reservations)
      ensures c.None? <==> CountOf(reservations, Using) == 0
      ensures c.Some? ==> c.value.status == Using && c.value in reservations
    {
      c := CurrentOf(reservations);
      CurrentIsFirstUsing(reservations);
    }

    /** `getWaitingReservations`. */
    method GetWaitingReservations() returns (w: seq<Reservation>)
      ensures w == WithStatus(reservations, Waiting)
      ensures forall i :: 0 <= i < |w| ==> w[i].status == Waiting
      ensures forall r :: r in w <==> r in reservations && r.status == Waiting
    {
      w := WithStatus(reservations, Waiting);
      forall r | true ensures r in w <==> r in reservations && r.status == Waiting {
        WithStatusMembers(reservations, Waiting, r);
      }
    }

    /** `getWaitingCount`. */
    method GetWaitingCount() returns (n: nat)
      ensures n == CountOf(reservations, Waiting)
      ensures n == 0 <==> forall i :: 0 <= i < |reservations| ==> reservations[i].status != Waiting
    {
      var w := WithStatus(reservations, Waiting);
      n := |w|;
      CountOfZero(reservations, Waiting);
    }

    /** `getPositionById`: the 1-based place of `id` in the waiting list, 0 if absent. */
    method GetPositionById(id: string) returns (p: nat)
      ensures p <= CountOf(reservations, Waiting)
      ensures p == 0 <==> forall r :: r in WithStatus(reservations, Waiting) ==> r.id != id
      ensures p > 0 ==> WithStatus(reservations, Waiting)[p - 1].id == id
      ensures p > 0 ==> forall j :: 0 <= j < p - 1 ==> WithStatus(reservations, Waiting)[j].id != id
    {
      var waiting := WithStatus(reservations, Waiting);
      var index := FindIndex(waiting, id);
      p := index + 1;
      assert forall i :: 0 <= i < |waiting| ==> waiting[i] in waiting;
    }

    /** `getEstimatedTime(position)`, in ms: the threshold rule for the first
        position of an idle queue, otherwise a base time plus what is left of the
        current slot plus the slots of everyone waiting ahead. */
    method GetEstimatedTime(position: int, now: int, threshold: int) returns (t: int)
      ensures t == EstimatedTime(reservations, position, now, threshold)
    {
      var current := CurrentOf(reservations);
      var waiting := WithStatus(reservations, Waiting);
      if current.None? && position == 1 {
        if now < threshold {
          return threshold;
        } else {
          return now;
        }
      }
      var baseTime := now;
      var totalMs := 0;
      if current.None? && |waiting| > 0 {
        if now < threshold {
          baseTime := threshold;
        }
      }
      if current.Some? && Truthy(current.value.startTime) {
        var elapsed := now - current.value.startTime.value;
        var remaining := Max(0, Clock.MinutesToMs(current.value.totalDuration) - elapsed);
        totalMs := totalMs + remaining;
      }
      var i := 0;
      while i < position - 1
        invariant 0 <= i
        invariant i <= position - 1 || i == 0
        invariant totalMs == RemainingMs(current, now) + Clock.MinutesToMs(PriorTotal(waiting, i))
      {
        if i < |waiting| {
          totalMs := totalMs + Clock.MinutesToMs(waiting[i].totalDuration);
        }
        PriorTotalStep(waiting, i);
        i := i + 1;
      }
      t := baseTime + totalMs;
    }

    /** `clearCompleted`: drops the completed records and keeps the rest in order. */
    method ClearCompleted()
      modifies this
      ensures reservations == WithoutStatus(old(reservations), Completed)
      ensures WithStatus(reservations, Waiting) == WithStatus(old(reservations), Waiting)
      ensures CurrentOf(reservations) == CurrentOf(old(reservations))
      ensures old(SingleUsing()) ==> SingleUsing()
    {
      reservations := WithoutStatus(reservations, Completed);
      ClearCompletedKeepsQueue(old(reservations));
      FirstWithIsHead(reservations, Using);
      FirstWithIsHead(old(reservations), Using);
    }

    /** `reset`: the list becomes empty, so nobody waits and nobody is in use. */
    method Reset()
      modifies this
      ensures reservations == []
      ensures CountOf(reservations, Waiting) == 0 && CurrentOf(reservations).None?
    {
      reservations := [];
    }
  }
}
