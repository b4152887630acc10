/**
 Commit as a whole: persist, restart, finalize, or roll back.
 */
module Commits {
  import opened Lexer
  import opened Text
  import opened Config
  import opened Routing
  import opened Rendering
  import opened Store

  /** The outcome of everything outside the store: which file steps fail, in which order the dirty
      keys are rendered, and whether the restart of the worker fails. */
  datatype Env = Env(faults: Faults, order: seq<string>, restartFails: bool)

  datatype Outcome = Outcome(content: Content, ok: bool)

  /** A commit with nothing in between, when restoring writes succeed. */
  function Committed(s: Content, env: Env, isIP: string -> bool): Outcome {
    if !Persists(s, env.faults, env.order, isIP) then Outcome(s, false)
    else if s.dirty != {} && env.restartFails
    then Outcome(Reset(RolledBack(Persisted(s, env.order), BackupOf(s))), false)
    else Outcome(Reset(Finalized(Persisted(s, env.order))), true)
  }

  /** The commit of the manager after its lock checks. */
  method Commit(store: ConfigStore, env: Env) returns (ok: bool, persisted: bool)
    requires store.Fresh()
    modifies store
    ensures store.Fresh() && persisted == Persists(old(store.View()), env.faults, env.order, store.isIP)
    ensures env.faults.restore == {} ==> Outcome(store.View(), ok) == Committed(old(store.View()), env, store.isIP)
    ensures env.faults.remove == {} ==> store.temps == old(store.temps)
    ensures forall f | f in store.disk && f !in old(store.dirty) :: f in old(store.disk) && store.disk[f] == old(store.disk)[f]
  {
    hide Valid, RenderFor, Rendered, BackupOf, RolledBack, Persists;
    ghost var s := store.View();
    if !Valid(store.cand, store.isIP) {
      InvalidStays(s, env, store.isIP);
      return false, false;
    }
    var backup := store.PersistCandidate(env.order, env.faults);
    if backup.None? {
      return false, false;
    }
    PersistFacts(s, env, store.isIP);
    var needsRestart := backup.value != map[];
    if needsRestart && env.restartFails {
      store.RollbackPersist(backup.value, env.faults);
      store.ResetCandidate();
      return false, true;
    }
    ok := store.FinalizeCommit();
    if !ok {
      // With nothing in between, the candidate is as valid as it was when it was persisted.
      assert false;
    }
    store.ResetCandidate();
    persisted := true;
  }

  lemma InvalidStays(s: Content, env: Env, isIP: string -> bool)
    requires !Valid(s.cand, isIP)
    ensures !Persists(s, env.faults, env.order, isIP)
  {
    hide Valid, RenderFor;
  }

  lemma PersistFacts(s: Content, env: Env, isIP: string -> bool)
    requires Persists(s, env.faults, env.order, isIP)
    ensures BackupOf(s) == map[] <==> s.dirty == {}
    ensures BackupOf(s).Keys <= s.disk.Keys == Rendered(s, env.order).Keys
  {
    hide Valid, RenderFor;
    BackupKeys(s);
    assert s.dirty <= s.disk.Keys;
    if s.dirty != {} {
      var f :| f in s.dirty;
      assert f in BackupOf(s);
    }
  }

  /**
   Commit is all or nothing (section 8.3.4.1 of RFC 6241). For every placement of failures, a
   commit ends either with every dirty file as rendered from the candidate and the candidate
   running, or with every file and the running configuration as they were. Files that are not
   dirty are never touched.
   */
  lemma CommitIsAtomic(s: Content, env: Env, isIP: string -> bool)
    ensures var r := Committed(s, env, isIP);
            && (r.ok ==> r.content == Content(s.cand, s.cand, {}, {}, Rendered(s, env.order)))
            && (!r.ok ==> r.content.disk == s.disk && r.content.running == s.running)
            && (r.ok <==> Persists(s, env.faults, env.order, isIP) && (s.dirty == {} || !env.restartFails))
            && forall f | f in s.disk && f !in s.dirty :: f in r.content.disk && r.content.disk[f] == s.disk[f]
  {
    hide RenderFor, Valid;
    if Persists(s, env.faults, env.order, isIP) {
      UndoPersist(s, env.order);
    }
  }

  lemma UndoPersist(s: Content, order: seq<string>)
    requires s.dirty <= s.disk.Keys
    ensures RolledBack(Persisted(s, order), BackupOf(s)) == s
  {
    hide RenderFor;
    RestoredIsOld(s, Rendered(s, order));
  }

  /**
   What happens when the marks change between persisting and rolling back, because the store is
   released in between: the files are put back if and only if each file that the commit changed
   is still marked dirty.
   */
  lemma RollbackNeedsMarks(s: Content, order: seq<string>, marks: set<File>)
    requires s.dirty <= s.disk.Keys
    ensures RolledBack(Persisted(s, order).(dirty := marks), BackupOf(s)).disk == s.disk
            <==> forall f | f in s.dirty && Rendered(s, order)[f] != s.disk[f] :: f in marks
  {
    hide RenderFor;
    var d := RolledBack(Persisted(s, order).(dirty := marks), BackupOf(s)).disk;
    if forall f | f in s.dirty && Rendered(s, order)[f] != s.disk[f] :: f in marks {
      forall f | f in s.disk ensures d[f] == s.disk[f] {}
    } else {
      var f :| f in s.dirty && Rendered(s, order)[f] != s.disk[f] && f !in marks;
      assert d[f] != s.disk[f];
    }
  }

  /** A reset of the candidate in between leaves the new files behind the old running configuration. */
  lemma ResetInBetween(s: Content, order: seq<string>, f: File)
    requires s.dirty <= s.disk.Keys && f in s.dirty && Rendered(s, order)[f] != s.disk[f]
    ensures var t := RolledBack(Reset(Persisted(s, order)), BackupOf(s));
            t.running == s.running && t.disk[f] == Rendered(s, order)[f] && t.disk != s.disk
  {
    hide RenderFor;
  }

  lemma RenderRbFor(d: Bytes, order: seq<string>, cfg: Configuration)
    ensures RenderFor(RB, d, order, cfg) == RenderRb(d, order, cfg)
  {}
}
