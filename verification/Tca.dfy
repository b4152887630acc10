/**
 Threshold-crossing alarms: hysteresis with time-to-trigger for each (rule, managed object).
 */
module Tca {

  // ----- one rule on one managed object

  /** Time zero means "not pending"; calls carry a non-zero time. */
  datatype RuleState = RuleState(active: bool, pendingRaise: int, pendingClear: int)

  const IDLE := RuleState(false, 0, 0)

  datatype Timing = Timing(raiseDuration: int, clearDuration: int)

  datatype Call = Call(now: int, violation: bool, clear: bool)

  datatype Action = Quiet | Raise | Clear | Touch

  /** The decision of one transition call. */
  function Next(t: Timing, s: RuleState, c: Call): (RuleState, Action) {
    if !s.active then
      if !c.violation then (IDLE, Quiet)
      else if s.pendingRaise == 0 && t.raiseDuration > 0 then (s.(pendingRaise := c.now), Quiet)
      else
        var since := if s.pendingRaise == 0 then c.now else s.pendingRaise;
        if c.now - since < t.raiseDuration then (s.(pendingRaise := since), Quiet)
        else (s.(active := true, pendingRaise := 0), Raise)
    else if c.clear then
      if s.pendingClear == 0 && t.clearDuration > 0 then (s.(pendingClear := c.now), Quiet)
      else
        var since := if s.pendingClear == 0 then c.now else s.pendingClear;
        if c.now - since < t.clearDuration then (s.(pendingClear := since), Quiet)
        else (IDLE, Clear)
    else (s.(pendingClear := 0), if c.violation then Touch else Quiet)
  }

  function StateAfter(t: Timing, calls: seq<Call>, k: nat): RuleState
    requires k <= |calls|
  {
    if k == 0 then IDLE else Next(t, StateAfter(t, calls, k - 1), calls[k - 1]).0
  }

  function ActionAt(t: Timing, calls: seq<Call>, k: nat): Action
    requires k < |calls|
  {
    Next(t, StateAfter(t, calls, k), calls[k]).1
  }

  /** The alarm is up before call `k`: it was raised and not cleared since. */
  predicate Up(t: Timing, calls: seq<Call>, k: nat)
    requires k <= |calls|
  {
    k > 0 && match ActionAt(t, calls, k - 1)
             case Raise => true
             case Clear => false
             case _ => Up(t, calls, k - 1)
  }

  /** Call `k` is one that drives the alarm towards its other state: a violation when down, a clear when up. */
  predicate Drives(t: Timing, calls: seq<Call>, k: nat, up: bool)
    requires k < |calls|
  {
    Up(t, calls, k) == up && if up then calls[k].clear else calls[k].violation
  }

  /** Where the unbroken streak of driving calls that ends before call `k` starts. */
  function StreakStart(t: Timing, calls: seq<Call>, k: nat, up: bool): (s: nat)
    requires k <= |calls|
    ensures s <= k
  {
    if k == 0 || !Drives(t, calls, k - 1, up) then k else StreakStart(t, calls, k - 1, up)
  }

  /** The streak is unbroken and cannot be extended to the left. */
  lemma {:induction false} StreakIsMaximal(t: Timing, calls: seq<Call>, k: nat, up: bool)
    requires k <= |calls|
    ensures var s := StreakStart(t, calls, k, up);
            && (forall j | s <= j < k :: Drives(t, calls, j, up))
            && (s == 0 || !Drives(t, calls, s - 1, up))
  {
    if k > 0 && Drives(t, calls, k - 1, up) {
      StreakIsMaximal(t, calls, k - 1, up);
    }
  }

  predicate OldEnough(calls: seq<Call>, s: nat, j: nat, duration: int)
    requires s <= j < |calls|
  {
    calls[j].now - calls[s].now >= duration
  }

  /** No call in [s, k) is old enough for a streak that starts at `s`. */
  ghost predicate Young(calls: seq<Call>, s: nat, k: nat, duration: int)
    requires s <= k <= |calls|
  {
    forall j | s <= j < k :: !OldEnough(calls, s, j, duration)
  }

  /** Call `k` is the first of its streak whose age reaches the duration. */
  ghost predicate Triggers(t: Timing, calls: seq<Call>, k: nat, up: bool)
    requires k < |calls|
  {
    var s := StreakStart(t, calls, k, up);
    var duration := if up then t.clearDuration else t.raiseDuration;
    && Drives(t, calls, k, up)
    && OldEnough(calls, s, k, duration)
    && Young(calls, s, k, duration)
  }

  /** What the engine's state records before call `k`. */
  ghost predicate Tracks(t: Timing, calls: seq<Call>, k: nat)
    requires k <= |calls|
  {
    var s, up := StateAfter(t, calls, k), Up(t, calls, k);
    var start := StreakStart(t, calls, k, up);
    var duration := if up then t.clearDuration else t.raiseDuration;
    && s.active == up
    && (if up then s.pendingRaise == 0 else s.pendingClear == 0)
    && (if up then s.pendingClear else s.pendingRaise) == (if start == k then 0 else calls[start].now)
    && Young(calls, start, k, duration)
  }

  ghost predicate Timed(calls: seq<Call>) {
    forall k | 0 <= k < |calls| :: calls[k].now != 0
  }

  /** A call flips the alarm exactly when it drives it and its streak is old enough. */
  lemma Decides(t: Timing, calls: seq<Call>, k: nat, up: bool)
    requires k < |calls| && Timed(calls) && Tracks(t, calls, k) && up == Up(t, calls, k)
    ensures ActionAt(t, calls, k) == Raise <==>
              !up && Drives(t, calls, k, up) && OldEnough(calls, StreakStart(t, calls, k, up), k, t.raiseDuration)
    ensures ActionAt(t, calls, k) == Clear <==>
              up && Drives(t, calls, k, up) && OldEnough(calls, StreakStart(t, calls, k, up), k, t.clearDuration)
    ensures ActionAt(t, calls, k) == Touch ==> up && !calls[k].clear
  {
    var start := StreakStart(t, calls, k, up);
    assert start < k ==> calls[start].now != 0;
    assert calls[k].now != 0;
  }

  /** The state after a call: flipped and fresh, waiting since the start of the streak, or not waiting. */
  lemma Remembers(t: Timing, calls: seq<Call>, k: nat, up: bool)
    requires k < |calls| && Timed(calls) && Tracks(t, calls, k) && up == Up(t, calls, k)
    ensures var s' := StateAfter(t, calls, k + 1);
            var since := calls[StreakStart(t, calls, k, up)].now;
            if Up(t, calls, k + 1) != up then s' == RuleState(!up, 0, 0)
            else if Drives(t, calls, k, up) then s' == RuleState(up, if up then 0 else since, if up then since else 0)
            else s' == RuleState(up, 0, 0)
  {
    var start := StreakStart(t, calls, k, up);
    assert start < k ==> calls[start].now != 0;
    assert calls[k].now != 0;
  }

  lemma TracksNext(t: Timing, calls: seq<Call>, k: nat)
    requires k < |calls| && Timed(calls) && Tracks(t, calls, k)
    ensures Tracks(t, calls, k + 1)
  {
    var up := Up(t, calls, k);
    var start := StreakStart(t, calls, k, up);
    Decides(t, calls, k, up);
    Remembers(t, calls, k, up);
    hide Next, StateAfter, ActionAt;
    var up' := Up(t, calls, k + 1);
    if up' != up {
      assert StreakStart(t, calls, k + 1, up') == k + 1;
    } else if Drives(t, calls, k, up) {
      assert StreakStart(t, calls, k + 1, up) == start;
      var duration := if up then t.clearDuration else t.raiseDuration;
      assert !OldEnough(calls, start, k, duration);
      assert Young(calls, start, k + 1, duration);
    } else {
      assert StreakStart(t, calls, k + 1, up) == k + 1;
    }
  }

  lemma {:induction false} AlwaysTracks(t: Timing, calls: seq<Call>, k: nat)
    requires k <= |calls| && Timed(calls)
    ensures Tracks(t, calls, k)
  {
    if k > 0 {
      AlwaysTracks(t, calls, k - 1);
      TracksNext(t, calls, k - 1);
    }
  }

  /**
   Exact time-to-trigger: for every sequence of calls on one key, an alarm is raised at precisely
   the first call of an unbroken streak of violations whose age reaches the raise duration, cleared
   at precisely the first call of an unbroken streak of clears whose age reaches the clear duration,
   and touched at every other violation while it is up.
   */
  lemma ExactTimeToTrigger(t: Timing, calls: seq<Call>, k: nat)
    requires k < |calls| && Timed(calls)
    ensures ActionAt(t, calls, k) == Raise <==> !Up(t, calls, k) && Triggers(t, calls, k, false)
    ensures ActionAt(t, calls, k) == Clear <==> Up(t, calls, k) && Triggers(t, calls, k, true)
    ensures ActionAt(t, calls, k) == Touch <==> Up(t, calls, k) && !calls[k].clear && calls[k].violation
    ensures Up(t, calls, k) == StateAfter(t, calls, k).active
  {
    AlwaysTracks(t, calls, k);
    Decides(t, calls, k, Up(t, calls, k));
  }

  /** A call that is neither a violation nor a clear flips nothing and restarts both timers. */
  lemma NeitherRestartsTimers(t: Timing, calls: seq<Call>, k: nat)
    requires k < |calls| && Timed(calls) && !calls[k].violation && !calls[k].clear
    ensures ActionAt(t, calls, k) == Quiet && Up(t, calls, k + 1) == Up(t, calls, k)
    ensures StateAfter(t, calls, k + 1).pendingRaise == 0 && StateAfter(t, calls, k + 1).pendingClear == 0
    ensures k + 1 < |calls| ==> StreakStart(t, calls, k + 1, Up(t, calls, k)) == k + 1
  {
    AlwaysTracks(t, calls, k);
    Decides(t, calls, k, Up(t, calls, k));
  }
}
