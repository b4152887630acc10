/**
 The NETCONF operations on the candidate and running datastores (section 8.3 of RFC 6241) as
 functions of the store, the lock table and the last editor.
 */
module Protocol {
  import opened Lexer
  import opened Text
  import opened Config
  import opened Routing
  import opened Store
  import opened Commits
  import opened Reduction
  import L = Locks

  /** What the manager holds; `lastEdit` zero means nobody. */
  datatype System = System(content: Content, table: L.Table, lastEdit: nat)

  /** A payload is the list of its editable leaves, or is refused by the YANG checks. */
  datatype EditRequest = EditRequest(meta: L.Meta, target: string, optionsOk: bool, testOnly: bool, payload: Option<seq<Change>>)

  datatype Clock = Clock(now: int, later: int)

  // ----- the operations as functions of the state

  function Discarded(sys: System): System {
    sys.(content := Reset(sys.content), lastEdit := 0)
  }

  /** The session may use the datastore: nobody else holds its lock. */
  function Admit(sys: System, ttl: int, ds: L.Datastore, m: L.Meta, c: Clock, inUse: bool): (System, bool) {
    var (t, reply) := L.Ensure(sys.table, ttl, ds, m, c.now, c.later, inUse);
    (sys.(table := t), reply.Ok?)
  }

  function EditConfig(sys: System, ttl: int, req: EditRequest, c: Clock, isIP: string -> bool): (System, bool) {
    var (sys, admitted) := Admit(sys, ttl, L.Candidate, req.meta, c, true);
    if !admitted || Trim(req.target) != "candidate" || !req.optionsOk || req.payload.None? || req.payload.value == [] then (sys, false)
    else
      var changes := Reduced(sys.content.cand, req.payload.value);
      if changes == [] then (sys, true)
      else if req.testOnly then (sys, Preview(sys.content.cand, changes, isIP).Good?)
      else
        var ok := Preview(sys.content.cand, changes, isIP).Good?;
        (sys.(content := Edited(sys.content, changes, isIP),
              lastEdit := if ok && req.meta.session != 0 then req.meta.session else sys.lastEdit), ok)
  }

  datatype ValidateRequest = WithPayload(payload: Option<seq<Change>>) | OfSource(source: string)

  /** Validation reads the datastores and changes nothing. */
  predicate Validate(sys: System, req: ValidateRequest, isIP: string -> bool) {
    match req
    case WithPayload(payload) =>
      && payload.Some? && payload.value != []
      && var changes := Reduced(sys.content.cand, payload.value);
         changes == [] || Preview(sys.content.cand, changes, isIP).Good?
    case OfSource(source) =>
      var ds := Trim(source);
      if ds == [] || ds == "candidate" then Valid(sys.content.cand, isIP)
      else ds == "running" && Valid(sys.content.running, isIP)
  }

  function Lock(sys: System, ttl: int, target: string, m: L.Meta, now: int): System {
    sys.(table := L.Lock(sys.table, ttl, target, m, now).0)
  }

  /** Every unlock that is not refused resets the candidate, whichever datastore it names. */
  function Unlock(sys: System, ttl: int, target: string, m: L.Meta, c: Clock): (System, bool) {
    var (t, reply) := L.Unlock(sys.table, ttl, target, m, c.now, c.later);
    if reply.Ok? then (Discarded(sys.(table := t)), true) else (sys.(table := t), false)
  }

  function DiscardChanges(sys: System, ttl: int, m: L.Meta, c: Clock): (System, bool) {
    var (sys, admitted) := Admit(sys, ttl, L.Candidate, m, c, true);
    if admitted then (Discarded(sys), true) else (sys, false)
  }

  function Commit(sys: System, ttl: int, m: L.Meta, c: Clock, d: Clock, env: Env, isIP: string -> bool): (System, bool) {
    var (sys, admitted) := Admit(sys, ttl, L.Candidate, m, c, true);
    if !admitted then (sys, false)
    else
      var (sys, admitted) := Admit(sys, ttl, L.Running, m, d, false);
      if !admitted then (sys, false)
      else
        var r := Committed(sys.content, env, isIP);
        // A commit that cannot be persisted keeps the candidate and its editor.
        (sys.(content := r.content, lastEdit := if Persists(sys.content, env.faults, env.order, isIP) then 0 else sys.lastEdit), r.ok)
  }

  function SessionClose(sys: System, session: nat): System {
    var released := session != 0 && L.HoldsCandidate(sys.table, session);
    var sys := sys.(table := L.Release(sys.table, session));
    if released then sys.(content := Reset(sys.content))
    else if session != 0 && sys.lastEdit == session then Discarded(sys)
    else sys
  }

  function KeepAlive(sys: System, metas: seq<L.Meta>, now: int): System {
    sys.(table := L.KeepAlive(sys.table, metas, now))
  }

  function Sweep(sys: System, ttl: int, now: int): System {
    var expired := L.ExpiredSessions(sys.table, now, ttl);
    var candidateExpired := L.LockExpires(sys.table, L.Candidate, now, ttl);
    var sys := sys.(table := L.Expire(sys.table, now, ttl));
    if candidateExpired then sys.(content := Reset(sys.content))
    else if sys.lastEdit != 0 && sys.lastEdit in expired then Discarded(sys)
    else sys
  }
}
