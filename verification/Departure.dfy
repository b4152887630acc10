/**
 What becomes of the candidate of a session that goes stale. Every request removes stale locks and
 session entries from the table, but only a sweep resets the candidate they stood for: whoever looks
 first decides.
 */
module Departure {
  import opened Lexer
  import opened Text
  import opened Config
  import opened Store
  import opened Commits
  import opened Protocol
  import opened Reduction
  import opened Isolation
  import L = Locks

  /** A sweep would find the candidate lock or the last editor stale. */
  predicate Due(sys: System, ttl: int, now: int) {
    || L.LockExpires(sys.table, L.Candidate, now, ttl)
    || (sys.lastEdit != 0 && sys.lastEdit in L.ExpiredSessions(sys.table, now, ttl))
  }

  /** A sweep changes the configuration exactly when it is due and something is pending. */
  lemma SweepDropsDue(sys: System, ttl: int, now: int)
    ensures Protocol.Sweep(sys, ttl, now).content == if Due(sys, ttl, now) then Reset(sys.content) else sys.content
  {
    hide L.ExpiredSessions, L.LockExpires;
  }

  // ----- a request that looks before the sweep

  /** Nothing in the table is stale. */
  predicate AllFresh(t: L.Table, now: int, ttl: int) {
    && (forall ds | ds in t.locks :: !L.LockExpires(t, ds, now, ttl))
    && (forall id | id in t.sessions :: !L.SessionExpires(t, id, now, ttl))
  }

  /** After a look for stale locks and the contact of a session, nothing is stale. */
  lemma LookLeavesFresh(t: L.Table, ttl: int, m: L.Meta, now: int, later: int)
    requires now <= later
    ensures AllFresh(L.Touch(L.Expire(t, now, ttl), m, later), now, ttl)
  {
    hide Trim;
  }

  lemma LockLeavesFresh(t: L.Table, ttl: int, target: string, m: L.Meta, now: int)
    requires L.ParseTarget(target).Known?
    ensures AllFresh(L.Lock(t, ttl, target, m, now).0, now, ttl)
  {
    hide L.Expire, L.Touch, Trim, L.ParseTarget;
    LookLeavesFresh(t, ttl, m, now, now);
  }

  lemma FreshIsNotDue(sys: System, ttl: int, now: int)
    requires AllFresh(sys.table, now, ttl)
    ensures !Due(sys, ttl, now)
  {}

  /**
   A lock request that looks first costs the sweep its effect, exactly when the sweep would have had
   one: the candidate lock or the last editor is stale and something is pending. This is so for
   either datastore and whether the lock is granted or not.
   */
  lemma LockHidesDeparture(sys: System, ttl: int, target: string, m: L.Meta, now: int)
    requires L.ParseTarget(target).Known?
    ensures var looked := Protocol.Lock(sys, ttl, target, m, now);
            && Protocol.Sweep(looked, ttl, now).content == sys.content
            && (Protocol.Sweep(looked, ttl, now).content != Protocol.Sweep(sys, ttl, now).content
                <==> Due(sys, ttl, now) && Reset(sys.content) != sys.content)
  {
    hide L.Expire, L.Lock, L.ParseTarget, Protocol.Sweep, Due, AllFresh;
    var looked := Protocol.Lock(sys, ttl, target, m, now);
    LockLeavesFresh(sys.table, ttl, target, m, now);
    FreshIsNotDue(looked, ttl, now);
    SweepDropsDue(looked, ttl, now);
    SweepDropsDue(sys, ttl, now);
  }

  /** So does the access check of an edit, a discard or a commit. */
  lemma AdmitHidesDeparture(sys: System, ttl: int, ds: L.Datastore, m: L.Meta, c: Clock, inUse: bool)
    requires c.now <= c.later
    ensures var looked := Admit(sys, ttl, ds, m, c, inUse).0;
            && Protocol.Sweep(looked, ttl, c.now).content == sys.content
            && (Protocol.Sweep(looked, ttl, c.now).content != Protocol.Sweep(sys, ttl, c.now).content
                <==> Due(sys, ttl, c.now) && Reset(sys.content) != sys.content)
  {
    hide L.Expire, L.Touch, Protocol.Sweep, Due, AllFresh;
    var looked := Admit(sys, ttl, ds, m, c, inUse).0;
    LookLeavesFresh(sys.table, ttl, m, c.now, c.later);
    FreshIsNotDue(looked, ttl, c.now);
    SweepDropsDue(looked, ttl, c.now);
    SweepDropsDue(sys, ttl, c.now);
  }

  /**
   Whatever an edit request does, it builds on the pending changes of the departed session, and a sweep
   after it finds nothing to drop.
   */
  lemma EditKeepsDeparted(sys: System, ttl: int, req: EditRequest, c: Clock, isIP: string -> bool)
    requires c.now <= c.later
    ensures var next := Protocol.EditConfig(sys, ttl, req, c, isIP).0;
            && Protocol.Sweep(next, ttl, c.now).content == next.content
            && (next.content == sys.content
                || (req.payload.Some? && next.content == Edited(sys.content, Reduced(sys.content.cand, req.payload.value), isIP)))
  {
    hide L.Expire, L.Touch, Protocol.Sweep, Due, AllFresh, Edited, Preview, Reduced, Trim;
    var next := Protocol.EditConfig(sys, ttl, req, c, isIP).0;
    LookLeavesFresh(sys.table, ttl, req.meta, c.now, c.later);
    FreshIsNotDue(next, ttl, c.now);
    SweepDropsDue(next, ttl, c.now);
  }

  /** So does a commit, which makes them running when it succeeds. */
  lemma CommitKeepsDeparted(sys: System, ttl: int, m: L.Meta, c: Clock, d: Clock, env: Env, isIP: string -> bool)
    requires c.now <= c.later && d.now <= d.later
    ensures var next := Protocol.Commit(sys, ttl, m, c, d, env, isIP).0;
            var look := if Admit(sys, ttl, L.Candidate, m, c, true).1 then d.now else c.now;
            && Protocol.Sweep(next, ttl, look).content == next.content
            && (next.content == sys.content || next.content == Committed(sys.content, env, isIP).content)
  {
    hide L.Expire, L.Touch, Protocol.Sweep, Due, AllFresh, Committed, Persists;
    var next := Protocol.Commit(sys, ttl, m, c, d, env, isIP).0;
    var first := Admit(sys, ttl, L.Candidate, m, c, true);
    var look := if first.1 then d.now else c.now;
    LookLeavesFresh(sys.table, ttl, m, c.now, c.later);
    LookLeavesFresh(first.0.table, ttl, m, d.now, d.later);
    FreshIsNotDue(next, ttl, look);
    SweepDropsDue(next, ttl, look);
  }

  // ----- a candidate that nobody drops

  /** Session `a` has pending changes as the last editor, and the table knows nothing of it. */
  ghost predicate Orphaned(sys: System, a: nat) {
    && a != 0 && sys.lastEdit == a && L.Candidate !in sys.table.locks && a !in sys.table.sessions
    && forall ds | ds in sys.table.locks :: sys.table.locks[ds].session != a
  }

  /** Sweeps, closings, keep-alives, validations and locks of running, all of other sessions. */
  predicate Passive(ev: Event, a: nat) {
    match ev
    case Validate(_) => true
    case Lock(target, m, _) => L.ParseTarget(target) != L.Known(L.Candidate) && m.session != a
    case SessionClose(session) => session != a
    case KeepAlive(metas, _) => forall m | m in metas :: m.session != a
    case Sweep(_) => true
    case _ => false
  }

  lemma {:induction false} AliveKeepsOrphan(t: L.Table, a: nat, ms: seq<L.Meta>, now: int)
    requires L.Candidate !in t.locks && a !in t.sessions && forall ds | ds in t.locks :: t.locks[ds].session != a
    requires forall m | m in ms :: m.session != a
    ensures var t' := L.KeepAlive(t, ms, now);
            L.Candidate !in t'.locks && a !in t'.sessions && forall ds | ds in t'.locks :: t'.locks[ds].session != a
    decreases |ms|
  {
    hide Trim;
    if ms != [] {
      AliveKeepsOrphan(L.KeepAliveOne(t, ms[0], now), a, ms[1..], now);
    }
  }

  lemma OrphanStep(sys: System, ttl: int, a: nat, ev: Event, isIP: string -> bool)
    requires Orphaned(sys, a) && Passive(ev, a)
    ensures var next := Step(sys, ttl, ev, isIP); next.content == sys.content && Orphaned(next, a)
  {
    hide Trim, L.ParseTarget, L.KeepAlive, Protocol.EditConfig, Protocol.Commit, Protocol.DiscardChanges;
    match ev
    case Validate(_) =>
    case Lock(target, m, now) =>
    case SessionClose(session) =>
    case KeepAlive(metas, now) => AliveKeepsOrphan(sys.table, a, metas, now);
    case Sweep(now) =>
  }

  /** No number of sweeps drops an orphaned candidate. */
  lemma {:induction false} OrphanStays(sys: System, ttl: int, a: nat, events: seq<Event>, isIP: string -> bool)
    requires Orphaned(sys, a) && forall k | 0 <= k < |events| :: Passive(events[k], a)
    ensures Isolation.Run(sys, ttl, events, isIP).content == sys.content && Orphaned(Isolation.Run(sys, ttl, events, isIP), a)
    decreases |events|
  {
    hide Orphaned, Passive, Step;
    if events != [] {
      var n := |events| - 1;
      OrphanStays(sys, ttl, a, events[..n], isIP);
      OrphanStep(Isolation.Run(sys, ttl, events[..n], isIP), ttl, a, events[n], isIP);
    }
  }

  /** Everything the table holds of session `a` is stale, its candidate lock among it. */
  ghost predicate Abandoned(sys: System, ttl: int, a: nat, now: int) {
    && a != 0 && sys.lastEdit == a && L.HoldsCandidate(sys.table, a)
    && (forall ds | ds in sys.table.locks && sys.table.locks[ds].session == a :: L.LockExpires(sys.table, ds, now, ttl))
    && (a in sys.table.sessions ==> L.SessionExpires(sys.table, a, now, ttl))
  }

  /** The first look at an abandoned candidate: a sweep, or another session's lock of running. */
  predicate FirstLook(ev: Event, a: nat, now: int) {
    match ev
    case Sweep(t) => t == now
    case Lock(target, m, t) => t == now && L.ParseTarget(target) == L.Known(L.Running) && m.session != a
    case _ => false
  }

  lemma LookOrphans(sys: System, ttl: int, a: nat, now: int, ev: Event, isIP: string -> bool)
    requires Abandoned(sys, ttl, a, now) && FirstLook(ev, a, now)
    ensures var next := Step(sys, ttl, ev, isIP);
            Orphaned(next, a) && next.content == if ev.Sweep? then Reset(sys.content) else sys.content
  {
    hide Trim, L.ParseTarget, Protocol.EditConfig, Protocol.Commit, Protocol.DiscardChanges;
  }

  /**
   The first look decides for good. Once everything of the last editor is stale, its candidate is
   dropped if a sweep is the first to look; if another session's request is, the candidate survives
   every later run of sweeps and passive requests.
   */
  lemma FirstLookDecides(sys: System, ttl: int, a: nat, now: int, ev: Event, after: seq<Event>, isIP: string -> bool)
    requires Abandoned(sys, ttl, a, now) && FirstLook(ev, a, now)
    requires forall k | 0 <= k < |after| :: Passive(after[k], a)
    ensures Isolation.Run(Step(sys, ttl, ev, isIP), ttl, after, isIP).content == if ev.Sweep? then Reset(sys.content) else sys.content
  {
    hide Abandoned, FirstLook, Passive, Orphaned, Step, Isolation.Run, Reset;
    LookOrphans(sys, ttl, a, now, ev, isIP);
    OrphanStays(Step(sys, ttl, ev, isIP), ttl, a, after, isIP);
  }

  // ----- another session commits it

  /** A session locks the candidate at `t0` and edits. */
  function LockedCandidate(content: Content, ttl: int, m: L.Meta, t0: int, req: EditRequest, isIP: string -> bool): System {
    var locked := Protocol.Lock(System(content, L.Table(map[], map[]), 0), ttl, "candidate", m, t0);
    Protocol.EditConfig(locked, ttl, req, Clock(t0, t0), isIP).0
  }

  lemma OneLock(content: Content, ttl: int, m: L.Meta, t0: int)
    requires m.session != 0
    ensures var sys := Protocol.Lock(System(content, L.Table(map[], map[]), 0), ttl, "candidate", m, t0);
            && sys.content == content && sys.lastEdit == 0
            && sys.table.locks == map[L.Candidate := L.Owner(m.session, Trim(m.username), t0)]
            && sys.table.sessions == map[m.session := L.Owner(m.session, Trim(m.username), t0)]
  {
    hide Trim, L.ParseTarget;
    TargetNames();
    assert L.Expire(L.Table(map[], map[]), t0, ttl) == L.Table(map[], map[]);
  }

  lemma EditedByOwner(content: Content, ttl: int, m: L.Meta, t0: int, t1: int, req: EditRequest, isIP: string -> bool)
    requires m.session != 0 && req.meta == m && Takes(content, req, isIP) && 0 < t0 && 0 < ttl < t1 - t0
    ensures var sys := LockedCandidate(content, ttl, m, t0, req, isIP);
            && sys.content == Edited(content, Reduced(content.cand, req.payload.value), isIP) != Reset(sys.content)
            && Abandoned(sys, ttl, m.session, t1) && sys.table.sessions.Keys == {m.session} && sys.table.locks.Keys == {L.Candidate}
  {
    hide Trim, Reduced, Preview, Edited, Reset, L.Lock;
    OneLock(content, ttl, m, t0);
    var locked := Protocol.Lock(System(content, L.Table(map[], map[]), 0), ttl, "candidate", m, t0);
    EditTakes(locked, ttl, m, t0, req, isIP);
  }

  lemma TakenTable(t: L.Table, ttl: int, a: nat, m: L.Meta, now: int)
    requires m.session != 0 && m.session != a && t.locks.Keys == {L.Candidate} && t.sessions.Keys == {a}
    requires L.LockExpires(t, L.Candidate, now, ttl) && L.SessionExpires(t, a, now, ttl)
    ensures var (t', reply) := L.Lock(t, ttl, "candidate", m, now);
            && reply == L.Ok && t'.locks == map[L.Candidate := L.Owner(m.session, Trim(m.username), now)]
            && t'.sessions == map[m.session := L.Owner(m.session, Trim(m.username), now)]
  {
    hide Trim, L.ParseTarget;
    TargetNames();
    assert L.Expire(t, now, ttl) == L.Table(map[], map[]);
  }

  lemma HolderCommits(sys: System, ttl: int, m: L.Meta, now: int, env: Env, isIP: string -> bool)
    requires m.session != 0 && 0 < ttl && sys.table.locks == map[L.Candidate := L.Owner(m.session, Trim(m.username), now)]
    ensures var (done, ok) := Protocol.Commit(sys, ttl, m, Clock(now, now), Clock(now, now), env, isIP);
            done.content == Committed(sys.content, env, isIP).content && ok == Committed(sys.content, env, isIP).ok
  {
    hide Trim, Committed, Persists;
    assert L.Expire(sys.table, now, ttl).locks == sys.table.locks;
  }

  /**
   Such a run from an empty lock table: session `a` locks the candidate, edits and keeps silent for
   more than ttl. A sweep would now drop its edit. If session `b` asks first, it is given the
   lock with the edit still in the candidate, and its commit, when it succeeds, makes it running.
   */
  lemma StrangerCommitsTheEdit(content: Content, ttl: int, a: L.Meta, b: L.Meta, t0: int, t1: int, req: EditRequest, env: Env, isIP: string -> bool)
    requires a.session != 0 && b.session != 0 && a.session != b.session && req.meta == a && Takes(content, req, isIP)
    requires 0 < t0 && 0 < ttl < t1 - t0
    ensures var sys := LockedCandidate(content, ttl, a, t0, req, isIP);
            var taken := Protocol.Lock(sys, ttl, "candidate", b, t1);
            var (done, ok) := Protocol.Commit(taken, ttl, b, Clock(t1, t1), Clock(t1, t1), env, isIP);
            && Protocol.Sweep(sys, ttl, t1).content == Reset(sys.content) != sys.content
            && L.Lock(sys.table, ttl, "candidate", b, t1).1 == L.Ok && taken.content == sys.content
            && ok == Committed(sys.content, env, isIP).ok
            && (ok ==> done.content.running == Edited(content, Reduced(content.cand, req.payload.value), isIP).cand)
  {
    hide Trim, Reduced, Preview, Edited, Reset, Committed, Takes, L.Lock, L.ParseTarget, LockedCandidate, Protocol.Commit, Protocol.Sweep, Persists;
    var sys := LockedCandidate(content, ttl, a, t0, req, isIP);
    EditedByOwner(content, ttl, a, t0, t1, req, isIP);
    AbandonedIsDue(sys, ttl, a.session, t1);
    SweepDropsDue(sys, ttl, t1);
    TakenTable(sys.table, ttl, a.session, b, t1);
    HolderCommits(Protocol.Lock(sys, ttl, "candidate", b, t1), ttl, b, t1, env, isIP);
    CommitIsAtomic(sys.content, env, isIP);
  }

  lemma AbandonedIsDue(sys: System, ttl: int, a: nat, now: int)
    requires Abandoned(sys, ttl, a, now)
    ensures Due(sys, ttl, now)
  {}
}
