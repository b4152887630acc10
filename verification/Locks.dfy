/**
 The lock table of the configuration manager (sections 7.5 and 7.6 of RFC 6241): session locks
 on the candidate and running datastores that expire when their owner is not seen for `ttl`.
 */
module Locks {
  import opened Text

  datatype Datastore = Candidate | Running

  datatype Parsed = Known(ds: Datastore) | Unknown

  /** normalizeDatastore. */
  function ParseTarget(target: string): Parsed {
    var ds := Trim(target);
    if ds == "candidate" then Known(Candidate)
    else if ds == "running" then Known(Running)
    else Unknown
  }

  datatype Meta = Meta(session: nat, username: string)

  /** `lastSeen` zero means unset. */
  datatype Owner = Owner(session: nat, username: string, lastSeen: int)

  datatype Table = Table(locks: map<Datastore, Owner>, sessions: map<nat, Owner>)

  datatype Reply = Ok | BadTarget | LockDenied(owner: nat) | InUse(owner: nat) | OperationFailed(owner: nat)

  // ----- expiry and contact

  predicate Stale(o: Owner, now: int, ttl: int) {
    o.lastSeen != 0 && now - o.lastSeen > ttl
  }

  predicate LockExpires(t: Table, ds: Datastore, now: int, ttl: int) {
    ttl > 0 && ds in t.locks && t.locks[ds].session != 0 && Stale(t.locks[ds], now, ttl)
  }

  predicate SessionExpires(t: Table, id: nat, now: int, ttl: int) {
    ttl > 0 && id in t.sessions && Stale(t.sessions[id], now, ttl)
  }

  function Expire(t: Table, now: int, ttl: int): Table {
    Table(map ds | ds in t.locks && !LockExpires(t, ds, now, ttl) :: t.locks[ds],
          map id | id in t.sessions && !SessionExpires(t, id, now, ttl) :: t.sessions[id])
  }

  /** The sessions that lose a lock or their own entry to expiry. */
  function ExpiredSessions(t: Table, now: int, ttl: int): set<nat> {
    (set ds | ds in t.locks && LockExpires(t, ds, now, ttl) :: t.locks[ds].session)
    + set id | id in t.sessions && SessionExpires(t, id, now, ttl)
  }

  function Touch(t: Table, m: Meta, now: int): Table {
    if m.session == 0 then t
    else
      var name := Trim(m.username);
      var kept := if name == [] && m.session in t.sessions then t.sessions[m.session].username else name;
      t.(sessions := t.sessions[m.session := Owner(m.session, kept, now)])
  }

  // ----- the operations

  function Lock(t: Table, ttl: int, target: string, m: Meta, now: int): (Table, Reply) {
    match ParseTarget(target)
    case Unknown => (t, BadTarget)
    case Known(ds) =>
      var t := Touch(Expire(t, now, ttl), m, now);
      if ds !in t.locks then (t.(locks := t.locks[ds := Owner(m.session, Trim(m.username), now)]), Ok)
      else
        var o := t.locks[ds];
        if o.session == m.session then (t.(locks := t.locks[ds := o.(lastSeen := now)]), LockDenied(o.session))
        else (t, LockDenied(o.session))
  }

  /** Unlock and Ensure read the clock twice. */
  function Unlock(t: Table, ttl: int, target: string, m: Meta, now: int, now': int): (Table, Reply) {
    match ParseTarget(target)
    case Unknown => (t, BadTarget)
    case Known(ds) =>
      var t := Touch(Expire(t, now, ttl), m, now');
      if ds !in t.locks then (t, Ok)
      else if t.locks[ds].session != m.session then (t, OperationFailed(t.locks[ds].session))
      else (t.(locks := t.locks - {ds}), Ok)
  }

  function Ensure(t: Table, ttl: int, ds: Datastore, m: Meta, now: int, now': int, inUse: bool): (Table, Reply) {
    var t := Touch(Expire(t, now, ttl), m, now');
    if ds in t.locks && t.locks[ds].session != m.session
    then (t, if inUse then InUse(t.locks[ds].session) else LockDenied(t.locks[ds].session))
    else (t, Ok)
  }

  function Release(t: Table, session: nat): Table {
    if session == 0 then t
    else Table(map ds | ds in t.locks && t.locks[ds].session != session :: t.locks[ds], t.sessions - {session})
  }

  predicate HoldsCandidate(t: Table, session: nat) {
    Candidate in t.locks && t.locks[Candidate].session == session
  }

  function Refreshed(o: Owner, m: Meta, now: int): Owner {
    if o.session != m.session then o
    else Owner(o.session, if Trim(m.username) != [] then Trim(m.username) else o.username, now)
  }

  function KeepAliveOne(t: Table, m: Meta, now: int): Table {
    if m.session == 0 then t
    else Table(map ds | ds in t.locks :: Refreshed(t.locks[ds], m, now),
               t.sessions[m.session := Owner(m.session, Trim(m.username), now)])
  }

  function KeepAlive(t: Table, ms: seq<Meta>, now: int): Table
    decreases |ms|
  {
    if ms == [] then t else KeepAlive(KeepAliveOne(t, ms[0], now), ms[1..], now)
  }

  // ----- the lock manager

  class LockManager {
    var locks: map<Datastore, Owner>
    var sessions: map<nat, Owner>
    const ttl: int

    constructor (limit: int)
      ensures ttl == limit && View() == Table(map[], map[])
    {
      locks, sessions, ttl := map[], map[], limit;
    }

    ghost function View(): Table
      reads this
    {
      Table(locks, sessions)
    }

    /** The first loop of expireLocked: locks, visited in any order and deleted on the way. */
    method ExpireLocks(now: int) returns (expired: set<nat>, candidateExpired: bool)
      requires ttl > 0
      modifies this`locks
      ensures locks == Expire(old(View()), now, ttl).locks
      ensures expired == set ds | ds in old(locks) && LockExpires(old(View()), ds, now, ttl) :: old(locks)[ds].session
      ensures candidateExpired == LockExpires(old(View()), Candidate, now, ttl)
    {
      expired, candidateExpired := {}, false;
      ghost var t := View();
      var todo := locks.Keys;
      while todo != {}
        invariant todo <= t.locks.Keys
        invariant locks == map ds | ds in t.locks && (ds in todo || !LockExpires(t, ds, now, ttl)) :: t.locks[ds]
        invariant expired == set ds | ds in t.locks && ds !in todo && LockExpires(t, ds, now, ttl) :: t.locks[ds].session
        invariant candidateExpired == (Candidate !in todo && LockExpires(t, Candidate, now, ttl))
        decreases |todo|
      {
        var ds :| ds in todo;
        todo := todo - {ds};
        var owner := locks[ds];
        if owner.session != 0 && owner.lastSeen != 0 && now - owner.lastSeen > ttl {
          if ds == Candidate {
            candidateExpired := true;
          }
          expired := expired + {owner.session};
          locks := locks - {ds};
        }
      }
    }

    /** The second loop of expireLocked: sessions. */
    method ExpireSessions(now: int) returns (expired: set<nat>)
      requires ttl > 0
      modifies this`sessions
      ensures sessions == Expire(old(View()), now, ttl).sessions
      ensures expired == set id | id in old(sessions) && SessionExpires(old(View()), id, now, ttl)
    {
      expired := {};
      ghost var t := View();
      var todo := sessions.Keys;
      while todo != {}
        invariant todo <= t.sessions.Keys
        invariant sessions == map id | id in t.sessions && (id in todo || !SessionExpires(t, id, now, ttl)) :: t.sessions[id]
        invariant expired == set id | id in t.sessions && id !in todo && SessionExpires(t, id, now, ttl)
        decreases |todo|
      {
        var id :| id in todo;
        todo := todo - {id};
        var owner := sessions[id];
        if owner.lastSeen != 0 && now - owner.lastSeen > ttl {
          expired := expired + {id};
          sessions := sessions - {id};
        }
      }
    }

    method ExpireLocked(now: int) returns (expired: set<nat>, candidateExpired: bool)
      modifies this
      ensures View() == Expire(old(View()), now, ttl)
      ensures expired == ExpiredSessions(old(View()), now, ttl)
      ensures candidateExpired == LockExpires(old(View()), Candidate, now, ttl)
    {
      if ttl <= 0 {
        assert Expire(View(), now, ttl) == View();
        return {}, false;
      }
      ghost var t := View();
      expired, candidateExpired := ExpireLocks(now);
      var more := ExpireSessions(now);
      expired := expired + more;
    }

    method TouchLocked(m: Meta, now: int)
      modifies this`sessions
      ensures View() == Touch(old(View()), m, now)
    {
      hide Trim;
      if m.session == 0 {
        return;
      }
      var owner := Owner(m.session, Trim(m.username), now);
      if m.session in sessions && owner.username == [] {
        owner := owner.(username := sessions[m.session].username);
      }
      sessions := sessions[m.session := owner];
    }

    method Acquire(target: string, m: Meta, now: int) returns (reply: Reply)
      modifies this
      ensures (View(), reply) == Lock(old(View()), ttl, target, m, now)
    {
      var parsed := ParseTarget(target);
      if parsed.Unknown? {
        return BadTarget;
      }
      var ds := parsed.ds;
      var _, _ := ExpireLocked(now);
      TouchLocked(m, now);
      if ds in locks {
        var owner := locks[ds];
        if owner.session == m.session {
          locks := locks[ds := owner.(lastSeen := now)];
        }
        return LockDenied(owner.session);
      }
      locks := locks[ds := Owner(m.session, Trim(m.username), now)];
      return Ok;
    }

    method Free(target: string, m: Meta, now: int, now': int) returns (reply: Reply)
      modifies this
      ensures (View(), reply) == Unlock(old(View()), ttl, target, m, now, now')
    {
      var parsed := ParseTarget(target);
      if parsed.Unknown? {
        return BadTarget;
      }
      var ds := parsed.ds;
      var _, _ := ExpireLocked(now);
      TouchLocked(m, now');
      if ds !in locks {
        return Ok;
      }
      if locks[ds].session != m.session {
        return OperationFailed(locks[ds].session);
      }
      locks := locks - {ds};
      return Ok;
    }

    method Check(ds: Datastore, m: Meta, now: int, now': int, inUse: bool) returns (reply: Reply)
      modifies this
      ensures (View(), reply) == Ensure(old(View()), ttl, ds, m, now, now', inUse)
    {
      var _, _ := ExpireLocked(now);
      TouchLocked(m, now');
      if ds in locks && locks[ds].session != m.session {
        return if inUse then InUse(locks[ds].session) else LockDenied(locks[ds].session);
      }
      return Ok;
    }

    method ReleaseSession(session: nat) returns (candidateReleased: bool)
      modifies this
      ensures View() == Release(old(View()), session)
      ensures candidateReleased == (session != 0 && HoldsCandidate(old(View()), session))
    {
      if session == 0 {
        return false;
      }
      candidateReleased := false;
      ghost var t := View();
      sessions := sessions - {session};
      var todo := locks.Keys;
      while todo != {}
        invariant todo <= t.locks.Keys && sessions == t.sessions - {session}
        invariant locks == map ds | ds in t.locks && (ds in todo || t.locks[ds].session != session) :: t.locks[ds]
        invariant candidateReleased == (Candidate !in todo && HoldsCandidate(t, session))
        decreases |todo|
      {
        var ds :| ds in todo;
        todo := todo - {ds};
        if locks[ds].session == session {
          if ds == Candidate {
            candidateReleased := true;
          }
          locks := locks - {ds};
        }
      }
    }

    method ResetAll() returns (candidateReleased: bool)
      modifies this
      ensures View() == Table(map[], map[])
      ensures candidateReleased == (Candidate in old(locks))
    {
      candidateReleased := Candidate in locks;
      locks, sessions := map[], map[];
    }

    method Refresh(ms: seq<Meta>, now: int)
      modifies this
      ensures View() == KeepAlive(old(View()), ms, now)
    {
      var i := 0;
      while i < |ms|
        invariant 0 <= i <= |ms|
        invariant KeepAlive(View(), ms[i..], now) == KeepAlive(old(View()), ms, now)
      {
        assert ms[i..][1..] == ms[i + 1..];
        if ms[i].session != 0 {
          RefreshOne(ms[i], now);
        }
        i := i + 1;
      }
    }

    method RefreshOne(m: Meta, now: int)
      requires m.session != 0
      modifies this
      ensures View() == KeepAliveOne(old(View()), m, now)
    {
      hide Trim;
      ghost var t := View();
      var name := Trim(m.username);
      sessions := sessions[m.session := Owner(m.session, name, now)];
      var todo := locks.Keys;
      while todo != {}
        invariant todo <= t.locks.Keys == locks.Keys
        invariant forall ds | ds in t.locks :: locks[ds] == if ds in todo then t.locks[ds] else Refreshed(t.locks[ds], m, now)
        invariant sessions == t.sessions[m.session := Owner(m.session, name, now)]
        decreases |todo|
      {
        var ds :| ds in todo;
        todo := todo - {ds};
        var current := locks[ds];
        if current.session == m.session {
          locks := locks[ds := Owner(current.session, if name != [] then name else current.username, now)];
        }
      }
    }
  }
}
