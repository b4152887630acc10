/**
 Candidate isolation over runs: what other sessions can do to the candidate of a session that
 holds its lock.
 */
module Isolation {
  import opened Lexer
  import opened Text
  import opened Config
  import opened Store
  import opened Commits
  import opened Protocol
  import L = Locks
  import opened Reduction

  /** Requests of sessions, keep-alives and sweeps. Unlock, flat edits and session resets are not among them. */
  datatype Event =
    | EditConfig(req: EditRequest, clock: Clock)
    | Validate(valid: ValidateRequest)
    | Lock(target: string, meta: L.Meta, now: int)
    | Discard(meta: L.Meta, clock: Clock)
    | Commit(meta: L.Meta, clock: Clock, second: Clock, env: Env)
    | SessionClose(session: nat)
    | KeepAlive(metas: seq<L.Meta>, now: int)
    | Sweep(now: int)

  function Step(sys: System, ttl: int, ev: Event, isIP: string -> bool): System {
    match ev
    case EditConfig(req, c) => Protocol.EditConfig(sys, ttl, req, c, isIP).0
    case Validate(_) => sys
    case Lock(target, m, now) => Protocol.Lock(sys, ttl, target, m, now)
    case Discard(m, c) => Protocol.DiscardChanges(sys, ttl, m, c).0
    case Commit(m, c, d, env) => Protocol.Commit(sys, ttl, m, c, d, env, isIP).0
    case SessionClose(session) => Protocol.SessionClose(sys, session)
    case KeepAlive(metas, now) => Protocol.KeepAlive(sys, metas, now)
    case Sweep(now) => Protocol.Sweep(sys, ttl, now)
  }

  function Run(sys: System, ttl: int, events: seq<Event>, isIP: string -> bool): System {
    if events == [] then sys else Step(Run(sys, ttl, events[..|events| - 1], isIP), ttl, events[|events| - 1], isIP)
  }

  /** The event is no request of session `a`. */
  predicate ByOthers(ev: Event, a: nat) {
    match ev
    case EditConfig(req, _) => req.meta.session != a
    case Lock(_, m, _) => m.session != a
    case Discard(m, _) => m.session != a
    case Commit(m, _, _, _) => m.session != a
    case SessionClose(session) => session != a
    case _ => true
  }

  /** The event looks for expired locks at time `t`. */
  predicate LooksAt(ev: Event, t: int) {
    match ev
    case EditConfig(_, c) => t == c.now
    case Lock(_, _, now) => t == now
    case Discard(_, c) => t == c.now
    case Commit(_, c, d, _) => t == c.now || t == d.now
    case Sweep(now) => t == now
    case _ => false
  }

  predicate Renews(ev: Event, a: nat) {
    ev.KeepAlive? && exists m | m in ev.metas :: m.session == a
  }

  /** When session `a` last gave a sign of life; before the run, at `start`. */
  function LastContact(events: seq<Event>, a: nat, start: int): int {
    if events == [] then start
    else if Renews(events[|events| - 1], a) then events[|events| - 1].now
    else LastContact(events[..|events| - 1], a, start)
  }

  /** Every look for expired locks comes within ttl of the last contact. */
  ghost predicate StaysFresh(events: seq<Event>, a: nat, start: int, ttl: int) {
    forall k, t | 0 <= k < |events| && LooksAt(events[k], t) :: t - LastContact(events[..k], a, start) <= ttl
  }

  /** Every lock and the session entry of `a` were seen at `seen` or later. */
  ghost predicate SeenSince(t: L.Table, a: nat, seen: int) {
    && (forall ds | ds in t.locks && t.locks[ds].session == a :: t.locks[ds].lastSeen >= seen)
    && (a in t.sessions ==> t.sessions[a].lastSeen >= seen)
  }

  /** Session `a` holds the candidate lock and nobody else has edited. */
  ghost predicate Owns(sys: System, a: nat, seen: int) {
    a != 0 && L.HoldsCandidate(sys.table, a) && (sys.lastEdit == 0 || sys.lastEdit == a) && SeenSince(sys.table, a, seen)
  }

  /** Expiry and the contact of another session leave the owner alone. */
  lemma ExpiryKeepsOwner(t: L.Table, ttl: int, a: nat, seen: int, now: int)
    requires a != 0 && L.HoldsCandidate(t, a) && SeenSince(t, a, seen) && now - seen <= ttl
    ensures L.HoldsCandidate(L.Expire(t, now, ttl), a) && SeenSince(L.Expire(t, now, ttl), a, seen)
    ensures !L.LockExpires(t, L.Candidate, now, ttl) && a !in L.ExpiredSessions(t, now, ttl)
  {}

  lemma TouchKeepsOwner(t: L.Table, a: nat, seen: int, m: L.Meta, now: int)
    requires a != 0 && L.HoldsCandidate(t, a) && SeenSince(t, a, seen) && m.session != a
    ensures L.HoldsCandidate(L.Touch(t, m, now), a) && SeenSince(L.Touch(t, m, now), a, seen)
  {
    hide Trim;
  }

  /** Another session is not admitted to the candidate. */
  lemma OthersAreRefused(sys: System, ttl: int, a: nat, seen: int, m: L.Meta, c: Clock)
    requires Owns(sys, a, seen) && m.session != a && c.now - seen <= ttl
    ensures var (next, admitted) := Admit(sys, ttl, L.Candidate, m, c, true);
            !admitted && next.content == sys.content && next.lastEdit == sys.lastEdit && Owns(next, a, seen)
  {
    hide L.Expire, L.Touch, SeenSince;
    ExpiryKeepsOwner(sys.table, ttl, a, seen, c.now);
    TouchKeepsOwner(L.Expire(sys.table, c.now, ttl), a, seen, m, c.later);
  }

  lemma LockKeepsOwner(sys: System, ttl: int, a: nat, seen: int, target: string, m: L.Meta, now: int)
    requires Owns(sys, a, seen) && m.session != a && now - seen <= ttl
    ensures Owns(Protocol.Lock(sys, ttl, target, m, now), a, seen)
  {
    hide L.Expire, L.Touch, Trim, L.ParseTarget;
    ExpiryKeepsOwner(sys.table, ttl, a, seen, now);
    TouchKeepsOwner(L.Expire(sys.table, now, ttl), a, seen, m, now);
  }

  lemma CloseKeepsOwner(sys: System, a: nat, seen: int, session: nat)
    requires Owns(sys, a, seen) && session != a
    ensures Owns(Protocol.SessionClose(sys, session), a, seen) && Protocol.SessionClose(sys, session).content == sys.content
  {}

  lemma SweepKeepsOwner(sys: System, ttl: int, a: nat, seen: int, now: int)
    requires Owns(sys, a, seen) && now - seen <= ttl
    ensures Owns(Protocol.Sweep(sys, ttl, now), a, seen) && Protocol.Sweep(sys, ttl, now).content == sys.content
  {
    hide SeenSince, L.ExpiredSessions, L.Expire, L.LockExpires;
    ExpiryKeepsOwner(sys.table, ttl, a, seen, now);
  }

  lemma {:induction false} AliveKeepsOwner(t: L.Table, a: nat, seen: int, ms: seq<L.Meta>, now: int)
    requires a != 0 && L.HoldsCandidate(t, a) && SeenSince(t, a, seen)
    ensures var t', renewed := L.KeepAlive(t, ms, now), exists m | m in ms :: m.session == a;
            L.HoldsCandidate(t', a) && (if renewed then SeenSince(t', a, now) else SeenSince(t', a, seen))
    decreases |ms|
  {
    hide Trim;
    if ms != [] {
      var t1 := L.KeepAliveOne(t, ms[0], now);
      assert forall m :: m in ms <==> m == ms[0] || m in ms[1..];
      if ms[0].session == a {
        OneRenews(t, a, ms[0], now);
        AliveKeepsOwner(t1, a, now, ms[1..], now);
      } else {
        OneKeeps(t, a, seen, ms[0], now);
        AliveKeepsOwner(t1, a, seen, ms[1..], now);
      }
    }
  }

  lemma OneRenews(t: L.Table, a: nat, m: L.Meta, now: int)
    requires a != 0 && m.session == a && L.HoldsCandidate(t, a)
    ensures L.HoldsCandidate(L.KeepAliveOne(t, m, now), a) && SeenSince(L.KeepAliveOne(t, m, now), a, now)
  {
    hide Trim;
  }

  lemma OneKeeps(t: L.Table, a: nat, seen: int, m: L.Meta, now: int)
    requires a != 0 && m.session != a && L.HoldsCandidate(t, a) && SeenSince(t, a, seen)
    ensures L.HoldsCandidate(L.KeepAliveOne(t, m, now), a) && SeenSince(L.KeepAliveOne(t, m, now), a, seen)
  {
    hide Trim;
  }

  /** One event of others leaves the owner in place and the configuration alone. */
  lemma StepIsIsolated(sys: System, ttl: int, a: nat, seen: int, ev: Event, isIP: string -> bool)
    requires Owns(sys, a, seen) && ByOthers(ev, a)
    requires forall t | LooksAt(ev, t) :: t - seen <= ttl
    ensures var next := Step(sys, ttl, ev, isIP);
            next.content == sys.content && Owns(next, a, if Renews(ev, a) then ev.now else seen)
  {
    hide Owns, Admit, Protocol.Lock, Protocol.SessionClose, Protocol.Sweep, Committed, Edited, Preview, Reduced, Trim, Persists;
    match ev
    case EditConfig(req, c) =>
      assert LooksAt(ev, c.now);
      OthersAreRefused(sys, ttl, a, seen, req.meta, c);
    case Validate(_) =>
    case Lock(target, m, now) =>
      assert LooksAt(ev, now);
      LockKeepsOwner(sys, ttl, a, seen, target, m, now);
      LockIsQuiet(sys, ttl, target, m, now);
    case Discard(m, c) =>
      assert LooksAt(ev, c.now);
      OthersAreRefused(sys, ttl, a, seen, m, c);
    case Commit(m, c, d, env) =>
      assert LooksAt(ev, c.now);
      OthersAreRefused(sys, ttl, a, seen, m, c);
    case SessionClose(session) =>
      CloseKeepsOwner(sys, a, seen, session);
    case KeepAlive(metas, now) =>
      KeepAliveKeepsOwner(sys, a, seen, metas, now);
    case Sweep(now) =>
      assert LooksAt(ev, now);
      SweepKeepsOwner(sys, ttl, a, seen, now);
  }

  lemma LockIsQuiet(sys: System, ttl: int, target: string, m: L.Meta, now: int)
    ensures Protocol.Lock(sys, ttl, target, m, now).content == sys.content
  {}

  lemma KeepAliveKeepsOwner(sys: System, a: nat, seen: int, metas: seq<L.Meta>, now: int)
    requires Owns(sys, a, seen)
    ensures Owns(Protocol.KeepAlive(sys, metas, now), a, if exists m | m in metas :: m.session == a then now else seen)
  {
    hide SeenSince, L.KeepAlive;
    AliveKeepsOwner(sys.table, a, seen, metas, now);
  }

  /**
   Candidate isolation. Once session `a` holds the candidate lock, is the last editor (or nobody
   is), and gives a sign of life within every ttl, no sequence of requests of other sessions,
   keep-alives and sweeps changes candidate, running configuration, dirty marks or files.
   */
  lemma {:induction false} CandidateIsolation(sys: System, ttl: int, a: nat, start: int, events: seq<Event>, isIP: string -> bool)
    requires Owns(sys, a, start) && StaysFresh(events, a, start, ttl)
    requires forall k | 0 <= k < |events| :: ByOthers(events[k], a)
    ensures Run(sys, ttl, events, isIP).content == sys.content
    ensures Owns(Run(sys, ttl, events, isIP), a, LastContact(events, a, start))
    decreases |events|
  {
    hide Owns, Step, ByOthers;
    if events != [] {
      var n := |events| - 1;
      var before, ev := events[..n], events[n];
      forall k, t | 0 <= k < n && LooksAt(before[k], t) ensures t - LastContact(before[..k], a, start) <= ttl {
        assert before[..k] == events[..k] && LooksAt(events[k], t);
      }
      CandidateIsolation(sys, ttl, a, start, before, isIP);
      StepIsIsolated(Run(sys, ttl, before, isIP), ttl, a, LastContact(before, a, start), ev, isIP);
    }
  }

  // ----- what a departing session leaves

  /**
   A session that closes takes its candidate with it: if it held the candidate lock or was the last
   editor, the candidate is running again with nothing dirty, and none of its locks remains. A sweep
   does the same for a session that it finds stale, and removes every stale lock; module Departure
   says what happens when another request finds it first.
   */
  lemma DepartureDropsCandidate(sys: System, ttl: int, a: nat, now: int)
    requires a != 0 && (L.HoldsCandidate(sys.table, a) || sys.lastEdit == a)
    ensures var closed := Protocol.SessionClose(sys, a);
            closed.content == Reset(sys.content) && forall ds | ds in closed.table.locks :: closed.table.locks[ds].session != a
    ensures a in L.ExpiredSessions(sys.table, now, ttl) && sys.lastEdit == a ==> Protocol.Sweep(sys, ttl, now).content == Reset(sys.content)
    ensures L.LockExpires(sys.table, L.Candidate, now, ttl) ==> Protocol.Sweep(sys, ttl, now).content == Reset(sys.content)
    ensures forall ds | L.LockExpires(sys.table, ds, now, ttl) :: ds !in Protocol.Sweep(sys, ttl, now).table.locks
  {
    hide L.ExpiredSessions;
  }

  // ----- what isolation does not cover

  /** Something of session `a` other than a candidate lock has gone stale: its running lock or its entry. */
  predicate PartlyStale(t: L.Table, a: nat, now: int, ttl: int) {
    || (L.LockExpires(t, L.Running, now, ttl) && t.locks[L.Running].session == a)
    || L.SessionExpires(t, a, now, ttl)
  }

  /**
   The freshness of every lock matters. While the last editor holds a fresh candidate lock, a sweep
   changes the configuration if and only if the editor's running lock or session entry is stale
   and something is pending; the candidate lock stays in any case.
   */
  lemma StaleRunningLockDropsCandidate(sys: System, ttl: int, a: nat, now: int)
    requires a != 0 && sys.lastEdit == a && L.HoldsCandidate(sys.table, a) && !L.LockExpires(sys.table, L.Candidate, now, ttl)
    ensures var next := Protocol.Sweep(sys, ttl, now);
            && (next.content != sys.content <==> PartlyStale(sys.table, a, now, ttl) && Reset(sys.content) != sys.content)
            && L.HoldsCandidate(next.table, a)
  {
    assert a in L.ExpiredSessions(sys.table, now, ttl) <==> PartlyStale(sys.table, a, now, ttl) by {
      if a in L.ExpiredSessions(sys.table, now, ttl) && !L.SessionExpires(sys.table, a, now, ttl) {
        var ds :| ds in sys.table.locks && L.LockExpires(sys.table, ds, now, ttl) && sys.table.locks[ds].session == a;
        assert ds == L.Running;
      }
    }
  }

  /** A session locks running at `t0`, then candidate at `t1`, and edits. */
  function LockedAndEdited(content: Content, ttl: int, m: L.Meta, t0: int, t1: int, req: EditRequest, isIP: string -> bool): System {
    var start := System(content, L.Table(map[], map[]), 0);
    var running := Protocol.Lock(start, ttl, "running", m, t0);
    var both := Protocol.Lock(running, ttl, "candidate", m, t1);
    Protocol.EditConfig(both, ttl, req, Clock(t1, t1), isIP).0
  }

  lemma TargetNames()
    ensures L.ParseTarget("running") == L.Known(L.Running) && L.ParseTarget("candidate") == L.Known(L.Candidate)
    ensures Trim("candidate") == "candidate"
  {
    hide Trim;
    TrimOfTrimmed("running");
    TrimOfTrimmed("candidate");
  }

  /** The request is an edit of the candidate that is carried out and leaves something pending. */
  ghost predicate Takes(content: Content, req: EditRequest, isIP: string -> bool) {
    && req.target == "candidate" && req.optionsOk && !req.testOnly && req.payload.Some? && req.payload.value != []
    && var changes := Reduced(content.cand, req.payload.value);
       changes != [] && Preview(content.cand, changes, isIP).Good? && Reset(Edited(content, changes, isIP)) != Edited(content, changes, isIP)
  }

  /**
   Such a state arises from an empty lock table: a session that locks running, later locks
   candidate and edits, and then keeps silent, loses its edit to the first sweep that comes more
   than ttl after the first lock, while its candidate lock is still fresh and stays with it.
   */
  lemma OlderLockCostsTheEdit(content: Content, ttl: int, m: L.Meta, t0: int, t1: int, now: int, req: EditRequest, isIP: string -> bool)
    requires m.session != 0 && req.meta == m && Takes(content, req, isIP)
    requires 0 < t0 < t1 <= now && t1 - t0 <= ttl && now - t1 <= ttl < now - t0
    ensures var sys := LockedAndEdited(content, ttl, m, t0, t1, req, isIP);
            var next := Protocol.Sweep(sys, ttl, now);
            && L.HoldsCandidate(sys.table, m.session) && !L.LockExpires(sys.table, L.Candidate, now, ttl)
            && next.content == Reset(sys.content) != sys.content && L.HoldsCandidate(next.table, m.session)
  {
    hide Trim, L.ParseTarget, Reduced, Preview, Edited, Reset;
    TargetNames();
    var sys := LockedAndEdited(content, ttl, m, t0, t1, req, isIP);
    TwoLocks(content, ttl, m, t0, t1);
    var both := Protocol.Lock(Protocol.Lock(System(content, L.Table(map[], map[]), 0), ttl, "running", m, t0), ttl, "candidate", m, t1);
    EditTakes(both, ttl, m, t1, req, isIP);
    assert sys.lastEdit == m.session && PartlyStale(sys.table, m.session, now, ttl);
    StaleRunningLockDropsCandidate(sys, ttl, m.session, now);
  }

  lemma TwoLocks(content: Content, ttl: int, m: L.Meta, t0: int, t1: int)
    requires m.session != 0 && 0 < t0 < t1 && t1 - t0 <= ttl
    ensures var both := Protocol.Lock(Protocol.Lock(System(content, L.Table(map[], map[]), 0), ttl, "running", m, t0), ttl, "candidate", m, t1);
            && both.content == content && both.lastEdit == 0
            && both.table.locks == map[L.Running := L.Owner(m.session, Trim(m.username), t0), L.Candidate := L.Owner(m.session, Trim(m.username), t1)]
            && both.table.sessions.Keys == {m.session} && both.table.sessions[m.session].lastSeen == t1
  {
    hide Trim, L.ParseTarget;
    TargetNames();
    var t := L.Lock(L.Table(map[], map[]), ttl, "running", m, t0).0;
    assert t.locks == map[L.Running := L.Owner(m.session, Trim(m.username), t0)];
    assert t.sessions == map[m.session := L.Owner(m.session, Trim(m.username), t0)];
  }

  lemma EditTakes(sys: System, ttl: int, m: L.Meta, t: int, req: EditRequest, isIP: string -> bool)
    requires m.session != 0 && req.meta == m && Takes(sys.content, req, isIP) && ttl > 0 && 0 < t
    requires forall ds | ds in sys.table.locks :: sys.table.locks[ds].session == m.session && t - sys.table.locks[ds].lastSeen <= ttl
    requires sys.table.sessions.Keys == {m.session} && sys.table.sessions[m.session].lastSeen == t
    ensures var next := Protocol.EditConfig(sys, ttl, req, Clock(t, t), isIP).0;
            && next.content == Edited(sys.content, Reduced(sys.content.cand, req.payload.value), isIP)
            && next.lastEdit == m.session && next.table.locks == sys.table.locks
            && next.table.sessions.Keys == {m.session} && next.table.sessions[m.session].lastSeen == t
  {
    hide Trim, Reduced, Preview, Edited, Reset;
    TargetNames();
    assert L.Expire(sys.table, t, ttl).locks == sys.table.locks;
    assert L.Expire(sys.table, t, ttl).sessions == sys.table.sessions;
  }

  /** After expiry nobody else holds the datastore that the request names. */
  predicate Unopposed(t: L.Table, ttl: int, target: string, m: L.Meta, now: int) {
    match L.ParseTarget(target)
    case Unknown => false
    case Known(ds) => var t' := L.Expire(t, now, ttl); ds !in t'.locks || t'.locks[ds].session == m.session
  }

  /**
   Unlock is outside the isolation. An unlock changes the configuration if and only if it names a
   datastore that nobody else holds, whichever of the two that is, and something is pending.
   */
  lemma UnlockDropsCandidate(sys: System, ttl: int, target: string, m: L.Meta, c: Clock)
    ensures Protocol.Unlock(sys, ttl, target, m, c).0.content != sys.content
            <==> Unopposed(sys.table, ttl, target, m, c.now) && Reset(sys.content) != sys.content
  {
    hide L.ParseTarget, Trim;
  }

  /** So another session drops the candidate of the lock holder by unlocking running, which nobody has locked. */
  lemma StrangerDropsCandidate(sys: System, ttl: int, a: nat, m: L.Meta, c: Clock)
    requires L.HoldsCandidate(sys.table, a) && m.session != a && L.Running !in sys.table.locks && sys.content.cand != sys.content.running
    ensures var next := Protocol.Unlock(sys, ttl, "running", m, c).0;
            next.content == Reset(sys.content) != sys.content
    ensures !L.LockExpires(sys.table, L.Candidate, c.now, ttl) ==> L.HoldsCandidate(Protocol.Unlock(sys, ttl, "running", m, c).0.table, a)
  {
    hide L.ParseTarget, Trim;
    TargetNames();
  }
}
