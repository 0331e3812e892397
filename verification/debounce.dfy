/** The debounce of `startSearch` (src/components/AddressSearch.tsx) as a
    state machine without a clock: the component holds at most one pending
    timer handle; starting a search clears that timer and schedules a new
    one; a timer that comes due runs only if it is still the pending one. */
module Debounce {
  import opened Records

  /** `debounceTimerRef.current`, plus the handle the next `setTimeout` returns. */
  datatype Timer = Timer(pending: Option<nat>, nextId: nat)

  /** Every handle that was handed out is older than `nextId`. */
  predicate Valid(t: Timer) {
    t.pending.Some? ==> t.pending.value < t.nextId
  }

  const NoTimer := Timer(None, 0)

  /** `clearTimeout` of the pending handle, then a fresh `setTimeout`. */
  function Schedule(t: Timer): Timer {
    Timer(Some(t.nextId), t.nextId + 1)
  }

  /** Timer `id` comes due. If it is the pending one, its callback runs and
      clears the handle; a cleared timer does nothing. */
  function Fire(t: Timer, id: nat): (Timer, bool) {
    if t.pending == Some(id) then (Timer(None, t.nextId), true) else (t, false)
  }

  /** Scheduling cancels every timer handed out before: none of them can run
      any more, and the new one can. */
  lemma ScheduleSupersedes(t: Timer, id: nat)
    requires Valid(t)
    ensures Valid(Schedule(t))
    ensures Fire(Schedule(t), id).1 <==> id == t.nextId
  {
  }

  /** `k` calls of `startSearch` in a row. */
  function ScheduleTimes(t: Timer, k: nat): Timer {
    if k == 0 then t else Schedule(ScheduleTimes(t, k - 1))
  }

  lemma {:induction false} ScheduleTimesPending(t: Timer, k: nat)
    requires 1 <= k
    ensures ScheduleTimes(t, k) == Timer(Some(t.nextId + k - 1), t.nextId + k)
  {
    if k > 1 {
      ScheduleTimesPending(t, k - 1);
    }
  }

  /** Timers coming due one after the other, in the order of `ids`; the
      second component counts the callbacks that ran. */
  function FireAll(t: Timer, ids: seq<nat>): (Timer, nat)
    decreases |ids|
  {
    if ids == [] then (t, 0)
    else
      var (t', ran) := Fire(t, ids[0]);
      var (t'', n) := FireAll(t', ids[1..]);
      (t'', n + (if ran then 1 else 0))
  }

  lemma {:induction false} FireAllRunsPendingOnce(t: Timer, ids: seq<nat>)
    ensures FireAll(t, ids).1 == if t.pending.Some? && t.pending.value in ids then 1 else 0
    decreases |ids|
  {
    if ids != [] {
      var (t', ran) := Fire(t, ids[0]);
      FireAllRunsPendingOnce(t', ids[1..]);
      assert ids == [ids[0]] + ids[1..];
    }
  }

  /** A burst of `k >= 1` keystrokes leaves one pending search, the last one;
      whatever timers then come due, in whatever order, at most one search
      runs, and it is the one the last keystroke scheduled. */
  lemma BurstRunsOnlyLast(t: Timer, k: nat, ids: seq<nat>)
    requires 1 <= k
    ensures var last := t.nextId + k - 1;
            && ScheduleTimes(t, k).pending == Some(last)
            && FireAll(ScheduleTimes(t, k), ids).1 == (if last in ids then 1 else 0)
  {
    ScheduleTimesPending(t, k);
    FireAllRunsPendingOnce(ScheduleTimes(t, k), ids);
  }
}
