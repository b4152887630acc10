/**
 Lock ownership over whole runs of the lock table.
 */
module LockRuns {
  import opened Text
  import opened Locks

  datatype Event =
    | Lock(target: string, meta: Meta, now: int)
    | Unlock(target: string, meta: Meta, now: int, later: int)
    | Ensure(ds: Datastore, meta: Meta, now: int, later: int)
    | Release(session: nat)
    | Reset
    | KeepAlive(metas: seq<Meta>, now: int)
    | Sweep(now: int)

  function Step(t: Table, ttl: int, ev: Event): Table {
    match ev
    case Lock(target, m, now) => Locks.Lock(t, ttl, target, m, now).0
    case Unlock(target, m, now, later) => Locks.Unlock(t, ttl, target, m, now, later).0
    case Ensure(ds, m, now, later) => Locks.Ensure(t, ttl, ds, m, now, later, true).0
    case Release(session) => Locks.Release(t, session)
    case Reset => Table(map[], map[])
    case KeepAlive(ms, now) => Locks.KeepAlive(t, ms, now)
    case Sweep(now) => Expire(t, now, ttl)
  }

  function Run(t: Table, ttl: int, events: seq<Event>): Table {
    if events == [] then t else Step(Run(t, ttl, events[..|events| - 1]), ttl, events[|events| - 1])
  }

  predicate Holds(t: Table, ds: Datastore, a: nat) {
    ds in t.locks && t.locks[ds].session == a
  }

  /** The event gives up the lock of `a` on `ds`: its own unlock, the end of its session, or a reset. */
  predicate GivesUp(ev: Event, ds: Datastore, a: nat) {
    match ev
    case Unlock(target, m, _, _) => ParseTarget(target) == Known(ds) && m.session == a
    case Release(session) => session == a
    case Reset => true
    case _ => false
  }

  /** The event is contact that renews the lock of `a` on `ds`: its own lock request for it, or a keep-alive. */
  predicate Renews(ev: Event, ds: Datastore, a: nat) {
    match ev
    case Lock(target, m, _) => ParseTarget(target) == Known(ds) && m.session == a
    case KeepAlive(ms, _) => exists m | m in ms :: m.session == a
    case _ => false
  }

  /** The time at which the event checks locks for expiry, if it does. */
  predicate ChecksAt(ev: Event, now: int) {
    match ev
    case Lock(target, _, t) => now == t
    case Unlock(target, _, t, _) => now == t
    case Ensure(_, _, t, _) => now == t
    case Sweep(t) => now == t
    case _ => false
  }

  function TimeOf(ev: Event): int
    requires ev.Lock? || ev.KeepAlive?
  {
    ev.now
  }

  /** When `a` last renewed its lock on `ds` in a run, starting from `initial`. */
  function LastRenewal(events: seq<Event>, ds: Datastore, a: nat, initial: int): int {
    if events == [] then initial
    else
      var ev := events[|events| - 1];
      if Renews(ev, ds, a) then TimeOf(ev) else LastRenewal(events[..|events| - 1], ds, a, initial)
  }

  lemma {:induction false} KeepAliveHolds(t: Table, ms: seq<Meta>, now: int, ds: Datastore)
    requires ds in t.locks && t.locks[ds].session != 0
    ensures var t' := Locks.KeepAlive(t, ms, now);
            && ds in t'.locks && t'.locks[ds].session == t.locks[ds].session
            && t'.locks[ds].lastSeen == (if exists m | m in ms :: m.session == t.locks[ds].session then now else t.locks[ds].lastSeen)
    decreases |ms|
  {
    hide Trim;
    if ms != [] {
      var t1 := KeepAliveOne(t, ms[0], now);
      KeepAliveHolds(t1, ms[1..], now, ds);
      assert forall m :: m in ms <==> m == ms[0] || m in ms[1..];
    }
  }

  /** One event either keeps the lock, with its renewal time, or is one of the ways to lose it. */
  lemma StepKeepsOrLoses(t: Table, ttl: int, ev: Event, ds: Datastore, a: nat)
    requires a != 0 && Holds(t, ds, a)
    ensures Holds(Step(t, ttl, ev), ds, a) ==>
              || GivesUp(ev, ds, a)
              || Step(t, ttl, ev).locks[ds].lastSeen == (if Renews(ev, ds, a) then TimeOf(ev) else t.locks[ds].lastSeen)
              || (exists now :: ChecksAt(ev, now) && ttl > 0 && now - t.locks[ds].lastSeen > ttl)
    ensures !Holds(Step(t, ttl, ev), ds, a) ==>
              || GivesUp(ev, ds, a)
              || (exists now :: ChecksAt(ev, now) && ttl > 0 && now - t.locks[ds].lastSeen > ttl)
  {
    hide Trim, ParseTarget;
    match ev
    case KeepAlive(ms, now) => KeepAliveHolds(t, ms, now, ds);
    case Lock(_, _, now) => assert ChecksAt(ev, now);
    case Unlock(_, _, now, _) => assert ChecksAt(ev, now);
    case Ensure(_, _, now, _) => assert ChecksAt(ev, now);
    case Sweep(now) => assert ChecksAt(ev, now);
    case _ =>
  }

  /** At event `k`, session `a` gave up its lock, or the event came more than `ttl` after its last renewal. */
  ghost predicate Loss(events: seq<Event>, ttl: int, ds: Datastore, a: nat, initial: int, k: nat)
    requires k < |events|
  {
    || GivesUp(events[k], ds, a)
    || (exists now :: ChecksAt(events[k], now) && ttl > 0 && now - LastRenewal(events[..k], ds, a, initial) > ttl)
  }

  /**
   While no loss has happened, the lock is held and carries the time of its last renewal. So a
   lock leaves a session only through the session's own unlock, its release, a reset, or a
   moment more than ttl after the session's last lock request or keep-alive; and a session that
   renews within every ttl never loses its lock.
   */
  lemma {:induction false} LockOwnership(t: Table, ttl: int, events: seq<Event>, ds: Datastore, a: nat)
    requires a != 0 && Holds(t, ds, a)
    requires forall k | 0 <= k < |events| :: !Loss(events, ttl, ds, a, t.locks[ds].lastSeen, k)
    ensures Holds(Run(t, ttl, events), ds, a)
    ensures Run(t, ttl, events).locks[ds].lastSeen == LastRenewal(events, ds, a, t.locks[ds].lastSeen)
    decreases |events|
  {
    if events != [] {
      var n := |events| - 1;
      var before, ev := events[..n], events[n];
      forall k | 0 <= k < n ensures !Loss(before, ttl, ds, a, t.locks[ds].lastSeen, k) {
        assert before[..k] == events[..k];
        assert !Loss(events, ttl, ds, a, t.locks[ds].lastSeen, k);
      }
      LockOwnership(t, ttl, before, ds, a);
      assert !Loss(events, ttl, ds, a, t.locks[ds].lastSeen, n);
      StepKeepsOrLoses(Run(t, ttl, before), ttl, ev, ds, a);
    }
  }

  /** A held lock denies every other session, whatever it asks for. */
  lemma HeldLockExcludes(t: Table, ttl: int, ds: Datastore, a: nat, target: string, m: Meta, now: int, later: int, inUse: bool)
    requires Holds(t, ds, a) && !LockExpires(t, ds, now, ttl) && m.session != a
    requires ParseTarget(target) == Known(ds)
    ensures Locks.Lock(t, ttl, target, m, now).1 == LockDenied(a)
    ensures Locks.Unlock(t, ttl, target, m, now, later).1 == OperationFailed(a)
    ensures Locks.Ensure(t, ttl, ds, m, now, later, inUse).1 == if inUse then InUse(a) else LockDenied(a)
  {
    hide Trim, ParseTarget;
  }
}
