/**
 Commits that overlap. No mutex keeps a second commit from persisting while a first one waits to be
 finalized or rolled back; what the files then have to do with the running configuration.
 */
module Overlapping {
  import opened Lexer
  import opened Text
  import opened Config
  import opened Routing
  import opened Rendering
  import opened Edits
  import opened Reduction
  import opened Store
  import opened Commits
  import opened SafeTexts
  import opened Agreement
  import opened RbBatch
  import opened RbAgreement
  import opened EnbAgreement
  import opened Interleaving

  /** The files agree with `base`, and the marks account for what the candidate changes of it. */
  ghost predicate Stands(s: Content, base: Configuration) {
    FullInv(s.(running := base))
  }

  // ----- edits and persists of any number of sessions

  datatype Act = Amend(changes: seq<Change>) | Install(env: Env)

  function Acted(s: Content, act: Act, isIP: string -> bool): Content {
    match act
    case Amend(changes) => Edited(s, changes, isIP)
    case Install(env) => Persisted(s, env.order)
  }

  function Acts(s: Content, acts: seq<Act>, isIP: string -> bool): Content {
    if acts == [] then s else Acted(Acts(s, acts[..|acts| - 1], isIP), acts[|acts| - 1], isIP)
  }

  /** The candidate that was persisted last; before any, `base`. */
  function LastInstalled(s: Content, base: Configuration, acts: seq<Act>, isIP: string -> bool): Configuration {
    if acts == [] then base
    else
      var before := acts[..|acts| - 1];
      if acts[|acts| - 1].Install? then Acts(s, before, isIP).cand else LastInstalled(s, base, before, isIP)
  }

  /** Edits write safe values; a persist renders the keys that are dirty then, and succeeds. */
  ghost predicate Fair(s: Content, act: Act, isIP: string -> bool) {
    match act
    case Amend(changes) => forall c | c in changes :: SafeChange(c) && FitsType(c) && IniChange(c)
    case Install(env) => Lists(env.order, s.dirtyKeys) && Persists(s, env.faults, env.order, isIP)
  }

  ghost predicate AllFair(s: Content, acts: seq<Act>, isIP: string -> bool) {
    forall i | 0 <= i < |acts| :: Fair(Acts(s, acts[..i], isIP), acts[i], isIP)
  }

  lemma AmendStands(s: Content, base: Configuration, changes: seq<Change>, isIP: string -> bool)
    requires Stands(s, base) && Fair(s, Amend(changes), isIP)
    ensures Stands(Edited(s, changes, isIP), base)
  {
    hide RbInv, EnbInv, SafeChange, FitsType, IniChange, Preview, Marks, FilesOf;
    var u, step := s.(running := base), Step.Edit(changes);
    assert Proper(u, step) && RbAgreement.Fits(step) && IniStep(step);
    StepKeepsRb(u, step, isIP);
    StepKeepsEnb(u, step, isIP);
    assert Do(u, step, isIP) == Edited(s, changes, isIP).(running := base);
  }

  /** The files of a persist agree with its candidate, whatever is running. */
  lemma InstalledAgrees(s: Content, base: Configuration, env: Env, isIP: string -> bool)
    requires Stands(s, base) && Lists(env.order, s.dirtyKeys) && Persists(s, env.faults, env.order, isIP)
    ensures Agree(Rendered(s, env.order), s.cand) && Rendered(s, env.order).Keys == s.disk.Keys
  {
    hide FullInv, Agree, Lists, Valid, RenderFor;
    var u := s.(running := base);
    assert Rendered(u, env.order) == Rendered(s, env.order);
    assert Persists(u, env.faults, env.order, isIP) by {
      assert forall f | f in s.dirty :: Stages(u, env.faults, env.order, f) == Stages(s, env.faults, env.order, f);
    }
    PersistedAgrees(u, env, isIP);
  }

  /** With nothing between candidate and base, agreement of the files is all that is needed. */
  lemma AgreeingStands(s: Content, base: Configuration, t: Content)
    requires Stands(s, base) && t.cand == s.cand && t.dirty == s.dirty && t.dirtyKeys == s.dirtyKeys && Agree(t.disk, s.cand)
    ensures Stands(t, s.cand)
  {
    hide Sound, Resolve, FileOf, FileAgrees, ProfilesAgree, EnbFileAgrees, Int32Fields, SafeEnb, Read, HasProfile, Explained;
  }

  lemma ActStands(s: Content, base: Configuration, act: Act, isIP: string -> bool)
    requires Stands(s, base) && Fair(s, act, isIP)
    ensures Stands(Acted(s, act, isIP), if act.Install? then s.cand else base)
    ensures Acted(s, act, isIP).disk.Keys == s.disk.Keys && s.dirty <= Acted(s, act, isIP).dirty
  {
    hide Stands, Agree, Rendered, Preview, Marks, FilesOf, Persists, Lists, SafeChange, FitsType, IniChange;
    match act
    case Amend(changes) => AmendStands(s, base, changes, isIP);
    case Install(env) =>
      InstalledAgrees(s, base, env, isIP);
      AgreeingStands(s, base, Persisted(s, env.order));
  }

  /** Over every run of edits and persists the files agree with the candidate that was persisted last. */
  lemma {:induction false} ActsStand(s: Content, base: Configuration, acts: seq<Act>, isIP: string -> bool)
    requires Stands(s, base) && AllFair(s, acts, isIP)
    ensures Stands(Acts(s, acts, isIP), LastInstalled(s, base, acts, isIP))
    ensures Acts(s, acts, isIP).disk.Keys == s.disk.Keys && s.dirty <= Acts(s, acts, isIP).dirty
    decreases |acts|
  {
    hide Stands, Fair, Acted;
    if acts != [] {
      var n := |acts| - 1;
      var before := acts[..n];
      forall i | 0 <= i < n ensures Fair(Acts(s, before[..i], isIP), before[i], isIP) {
        assert before[..i] == acts[..i];
      }
      ActsStand(s, base, before, isIP);
      ActStands(Acts(s, before, isIP), LastInstalled(s, base, before, isIP), acts[n], isIP);
    }
  }

  // ----- finalizing

  /**
   Finalizing among edits and persists, exactly: files and running configuration agree if and only
   if the candidate of that moment has the values of the one persisted last, by whichever commit,
   at every leaf that the files hold.
   */
  lemma FinalizeAmongCommits(s: Content, base: Configuration, acts: seq<Act>, isIP: string -> bool)
    requires Stands(s, base) && AllFair(s, acts, isIP)
    ensures var t, late := Acts(s, acts, isIP), Finalized(Acts(s, acts, isIP));
            Agree(late.disk, late.running) <==> SameOnDisk(t.disk, LastInstalled(s, base, acts, isIP), t.cand)
  {
    hide FullInv, AllFair, Agree, SameOnDisk, Acts, LastInstalled;
    ActsStand(s, base, acts, isIP);
    var t, last := Acts(s, acts, isIP), LastInstalled(s, base, acts, isIP);
    FullInvAgrees(t.(running := last));
    AgreeIff(t.disk, last, t.cand);
  }

  // ----- rolling back

  function Within(disk: map<File, Bytes>, files: set<File>): map<File, Bytes> {
    map f | f in disk && f in files :: disk[f]
  }

  function Outside(disk: map<File, Bytes>, files: set<File>): map<File, Bytes> {
    map f | f in disk && f !in files :: disk[f]
  }

  lemma AgreeSplits(disk: map<File, Bytes>, files: set<File>, cfg: Configuration)
    ensures Agree(disk, cfg) <==> Agree(Within(disk, files), cfg) && Agree(Outside(disk, files), cfg)
  {
    hide FileAgrees, ProfilesAgree, EnbFileAgrees;
    var a, b := Within(disk, files), Outside(disk, files);
    assert forall f | f in disk :: (f in a && a[f] == disk[f]) || (f in b && b[f] == disk[f]);
    assert (forall f | f in a :: f in disk && a[f] == disk[f]) && (forall f | f in b :: f in disk && b[f] == disk[f]);
  }

  /**
   A commit is rolled back after others have edited and persisted, and one of those is finalized then.
   The files of the first commit are the old ones, every other file is as it was persisted last; they
   agree with what is running then if and only if the candidate of that moment has the values from
   before the first commit in the former and the values persisted last in the latter.
   */
  lemma RollbackAmongCommits(s: Content, base: Configuration, env: Env, acts: seq<Act>, isIP: string -> bool)
    requires Stands(s, base) && Fair(s, Install(env), isIP) && AllFair(Persisted(s, env.order), acts, isIP)
    ensures var p := Persisted(s, env.order);
            var t := Acts(p, acts, isIP);
            var late := Finalized(RolledBack(t, BackupOf(s)));
            && late.running == t.cand && late.dirty == {}
            && Within(late.disk, s.dirty) == Within(s.disk, s.dirty) && Outside(late.disk, s.dirty) == Outside(t.disk, s.dirty)
            && (Agree(late.disk, late.running) <==>
                && SameOnDisk(Within(s.disk, s.dirty), base, t.cand)
                && SameOnDisk(Outside(t.disk, s.dirty), LastInstalled(p, s.cand, acts, isIP), t.cand))
  {
    hide Stands, Fair, AllFair, Agree, SameOnDisk, Acts, LastInstalled, RolledBack, BackupOf, Rendered, Within, Outside, Edited;
    var p := Persisted(s, env.order);
    assert Acted(s, Install(env), isIP) == p;
    ActStands(s, base, Install(env), isIP);
    ActsStand(p, s.cand, acts, isIP);
    MixedFiles(s, base, Acts(p, acts, isIP), LastInstalled(p, s.cand, acts, isIP));
  }

  lemma MixedFiles(s: Content, base: Configuration, t: Content, last: Configuration)
    requires Stands(s, base) && Stands(t, last) && t.disk.Keys == s.disk.Keys && s.dirty <= t.dirty
    ensures var d := RolledBack(t, BackupOf(s)).disk;
            && RolledBack(t, BackupOf(s)).cand == t.cand
            && Within(d, s.dirty) == Within(s.disk, s.dirty) && Outside(d, s.dirty) == Outside(t.disk, s.dirty)
            && (Agree(d, t.cand) <==>
                SameOnDisk(Within(s.disk, s.dirty), base, t.cand) && SameOnDisk(Outside(t.disk, s.dirty), last, t.cand))
  {
    hide Stands, Agree, SameOnDisk, RolledBack, BackupOf, Within, Outside;
    var d := RolledBack(t, BackupOf(s)).disk;
    RollbackParts(s, t);
    StandsAgrees(s, base);
    StandsAgrees(t, last);
    AgreeSplits(s.disk, s.dirty, base);
    AgreeSplits(t.disk, s.dirty, last);
    AgreeSplits(d, s.dirty, t.cand);
    AgreeIff(Within(s.disk, s.dirty), base, t.cand);
    AgreeIff(Outside(t.disk, s.dirty), last, t.cand);
  }

  lemma StandsAgrees(s: Content, base: Configuration)
    requires Stands(s, base)
    ensures Agree(s.disk, base)
  {
    hide FullInv, Agree;
    FullInvAgrees(s.(running := base));
  }

  lemma RollbackParts(s: Content, t: Content)
    requires t.disk.Keys == s.disk.Keys && s.dirty <= t.dirty
    ensures var d := RolledBack(t, BackupOf(s)).disk;
            Within(d, s.dirty) == Within(s.disk, s.dirty) && Outside(d, s.dirty) == Outside(t.disk, s.dirty)
    ensures RolledBack(t, BackupOf(s)).cand == t.cand
  {}

  /** The rollback between another commit's persisting and finalizing: old files behind a new running configuration. */
  lemma RollbackUnderCommit(s: Content, base: Configuration, env: Env, acts: seq<Act>, isIP: string -> bool)
    requires Stands(s, base) && Fair(s, Install(env), isIP) && AllFair(Persisted(s, env.order), acts, isIP)
    requires acts != [] && acts[|acts| - 1].Install?
    ensures var t := Acts(Persisted(s, env.order), acts, isIP);
            var late := Finalized(RolledBack(t, BackupOf(s)));
            late.running == t.cand && (Agree(late.disk, late.running) <==> SameOnDisk(Within(s.disk, s.dirty), base, late.running))
  {
    hide Stands, AllFair, Agree, SameOnDisk, RolledBack, BackupOf, Rendered, Lists, Persists, Within, Outside, Edited, Fair;
    RollbackAmongCommits(s, base, env, acts, isIP);
    var p := Persisted(s, env.order);
    var before := acts[..|acts| - 1];
    SameAsItself(Outside(Acts(p, acts, isIP).disk, s.dirty), Acts(p, acts, isIP).cand);
    assert acts[|acts| - 1].Install? && Acts(p, acts, isIP).cand == Acts(p, before, isIP).cand;
  }

  lemma SameAsItself(disk: map<File, Bytes>, cfg: Configuration)
    ensures SameOnDisk(disk, cfg, cfg)
  {
    hide Held, LeafText, EnbPlace, EnbLeaf, HasProfile, Read, KeysOf;
  }

  /**
   At two commits of the same candidate, which changes a pci that rr.conf holds: the first one is
   rolled back before the second one is finalized, and the new pci runs behind a file with the old one.
   */
  lemma RollbackLosesPci(s: Content, first: Env, second: Env, m: int, n: int, isIP: string -> bool)
    requires FullInv(s) && Fair(s, Install(first), isIP) && Fair(Persisted(s, first.order), Install(second), isIP)
    requires RR in s.disk && RR in s.dirty && Held(s.disk[RR], "pci")
    requires "pci" in s.running.leaves && s.running.leaves["pci"] == U32(m) && s.cand == WithPci(s.running, n) && m != n
    ensures var late := Finalized(RolledBack(Persisted(Persisted(s, first.order), second.order), BackupOf(s)));
            late.running == s.cand && late.dirty == {} && !Agree(late.disk, late.running)
  {
    hide FullInv, Agree, RolledBack, BackupOf, Rendered, Fair, AllFair, Acts, WithPci, SameOnDisk, Held;
    OneInstall(Persisted(s, first.order), second, isIP);
    assert s.(running := s.running) == s;
    RollbackUnderCommit(s, s.running, first, [Install(second)], isIP);
    PciDiffers(Within(s.disk, s.dirty), s.running, m, n);
  }

  lemma OneInstall(p: Content, env: Env, isIP: string -> bool)
    requires Fair(p, Install(env), isIP)
    ensures AllFair(p, [Install(env)], isIP) && Acts(p, [Install(env)], isIP) == Persisted(p, env.order)
  {
    hide Fair, Rendered;
    var acts := [Install(env)];
    assert acts[..0] == [] && Acts(p, [], isIP) == p;
  }

  lemma PciDiffers(disk: map<File, Bytes>, cfg: Configuration, m: int, n: int)
    requires RR in disk && Held(disk[RR], "pci") && "pci" in cfg.leaves && cfg.leaves["pci"] == U32(m) && m != n
    ensures !SameOnDisk(disk, cfg, WithPci(cfg, n))
  {
    hide Held, KeysOf, LeafText, WithPci;
    PciTexts(cfg, m, n);
    PciKind();
    assert !SamePlain(disk[RR], RR, cfg, WithPci(cfg, n));
  }
}
