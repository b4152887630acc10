/**
 The NETCONF configuration manager.
 */
module Manager {
  import opened Lexer
  import opened Text
  import opened Config
  import opened Store
  import Commits
  import opened Reduction
  import L = Locks
  import P = Protocol

  class ConfigManager {
    const store: ConfigStore
    const locks: L.LockManager
    var lastEdit: nat

    constructor (store: ConfigStore, locks: L.LockManager)
      ensures this.store == store && this.locks == locks && lastEdit == 0
    {
      this.store, this.locks, lastEdit := store, locks, 0;
    }

    ghost function View(): P.System
      reads this, store, locks
    {
      P.System(store.View(), locks.View(), lastEdit)
    }

    method EditConfig(req: P.EditRequest, c: P.Clock) returns (ok: bool)
      modifies this, store, locks
      ensures (View(), ok) == P.EditConfig(old(View()), locks.ttl, req, c, store.isIP)
      ensures store.temps == old(store.temps) && store.nextTemp == old(store.nextTemp)
    {
      hide Edited, Reduced, Preview, Trim, L.Expire, L.Touch;
      var reply := locks.Check(L.Candidate, req.meta, c.now, c.later, true);
      if reply != L.Ok || Trim(req.target) != "candidate" || !req.optionsOk || req.payload.None? || req.payload.value == [] {
        return false;
      }
      var changes := ExtractChanges(store.cand, req.payload.value);
      if changes == [] {
        return true;
      }
      if req.testOnly {
        var preview := PreviewEdit(store.cand, changes, store.isIP);
        return preview.Good?;
      }
      ok := store.Edit(changes);
      if ok && req.meta.session != 0 {
        lastEdit := req.meta.session;
      }
    }

    method Validate(req: P.ValidateRequest) returns (ok: bool)
      ensures ok == P.Validate(View(), req, store.isIP)
    {
      hide Reduced, Preview, Valid, Trim;
      if req.WithPayload? {
        if req.payload.None? || req.payload.value == [] {
          return false;
        }
        var changes := ExtractChanges(store.cand, req.payload.value);
        if changes == [] {
          return true;
        }
        var preview := PreviewEdit(store.cand, changes, store.isIP);
        return preview.Good?;
      }
      var source := Trim(req.source);
      if source == [] || source == "candidate" {
        return Valid(store.cand, store.isIP);
      }
      return source == "running" && Valid(store.running, store.isIP);
    }

    method Lock(target: string, m: L.Meta, now: int) returns (reply: L.Reply)
      modifies locks
      ensures View() == P.Lock(old(View()), locks.ttl, target, m, now)
      ensures reply == L.Lock(old(View()).table, locks.ttl, target, m, now).1
    {
      reply := locks.Acquire(target, m, now);
    }

    method Unlock(target: string, m: L.Meta, c: P.Clock) returns (ok: bool)
      modifies this, store, locks
      ensures (View(), ok) == P.Unlock(old(View()), locks.ttl, target, m, c)
    {
      var reply := locks.Free(target, m, c.now, c.later);
      if reply != L.Ok {
        return false;
      }
      store.ResetCandidate();
      lastEdit := 0;
      return true;
    }

    method DiscardChanges(m: L.Meta, c: P.Clock) returns (ok: bool)
      modifies this, store, locks
      ensures (View(), ok) == P.DiscardChanges(old(View()), locks.ttl, m, c)
    {
      var reply := locks.Check(L.Candidate, m, c.now, c.later, true);
      if reply != L.Ok {
        return false;
      }
      store.ResetCandidate();
      lastEdit := 0;
      return true;
    }

    method Commit(m: L.Meta, c: P.Clock, d: P.Clock, env: Commits.Env) returns (ok: bool)
      requires store.Fresh()
      modifies this, store, locks
      ensures store.Fresh()
      ensures env.faults.restore == {} ==> (View(), ok) == P.Commit(old(View()), locks.ttl, m, c, d, env, store.isIP)
      ensures View().table == P.Commit(old(View()), locks.ttl, m, c, d, env, store.isIP).0.table
      ensures View().lastEdit == P.Commit(old(View()), locks.ttl, m, c, d, env, store.isIP).0.lastEdit
      ensures forall f | f in store.disk && f !in old(store.dirty) :: f in old(store.disk) && store.disk[f] == old(store.disk)[f]
      ensures env.faults.remove == {} ==> store.temps == old(store.temps)
    {
      hide Persists, Commits.Committed;
      var reply := locks.Check(L.Candidate, m, c.now, c.later, true);
      if reply != L.Ok {
        return false;
      }
      reply := locks.Check(L.Running, m, d.now, d.later, false);
      if reply != L.Ok {
        return false;
      }
      var persisted;
      ok, persisted := Commits.Commit(store, env);
      if persisted {
        lastEdit := 0;
      }
    }

    method SessionClose(session: nat)
      modifies this, store, locks
      ensures View() == P.SessionClose(old(View()), session)
    {
      var released := locks.ReleaseSession(session);
      if released {
        store.ResetCandidate();
      } else if session != 0 && lastEdit == session {
        lastEdit := 0;
        store.ResetCandidate();
      }
    }

    method KeepAlive(metas: seq<L.Meta>, now: int)
      modifies locks
      ensures View() == P.KeepAlive(old(View()), metas, now)
    {
      locks.Refresh(metas, now);
    }

    method SweepExpiredSessions(now: int) returns (expired: set<nat>)
      modifies this, store, locks
      ensures View() == P.Sweep(old(View()), locks.ttl, now)
      ensures expired == L.ExpiredSessions(old(View()).table, now, locks.ttl)
    {
      var candidateExpired;
      expired, candidateExpired := locks.ExpireLocked(now);
      if candidateExpired {
        store.ResetCandidate();
      } else if lastEdit != 0 && lastEdit in expired {
        lastEdit := 0;
        store.ResetCandidate();
      }
    }
  }
}
