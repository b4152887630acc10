/**
 When a commit can go through, and how a failed edit blocks it until the candidate is reset.
 */
module Blocked {
  import opened Lexer
  import opened Text
  import opened Config
  import opened Routing
  import opened Rendering
  import opened Edits
  import opened Reduction
  import opened Store
  import opened Commits
  import opened SafeTexts
  import opened Agreement
  import opened RbBatch
  import opened RbAgreement
  import QciTheorem

  const NO_FAULTS: Faults := Faults({}, {}, {}, {}, {}, {})

  /** The file of the key is there and can take its value: a readable value in rr.conf or sib.conf, a
      profile that has the field or a container for it in rb.conf. */
  ghost predicate Writable(disk: map<File, Bytes>, k: string) {
    && FileOf(k).Some? && FileOf(k).value in disk
    && match FileOf(k).value
       case ENB => true
       case RR => ReadScalar(disk[RR], k, false).Some?
       case SIB => ReadScalar(disk[SIB], k, false).Some?
       case RB => ParseQciKey(k).Some? && Takes(disk[RB], ParseQciKey(k).value.0, ParseQciKey(k).value.1)
  }

  /** All keys of one file can be written. */
  ghost predicate FileWritable(s: Content, f: File) {
    forall k | k in s.dirtyKeys && FileOf(k) == Some(f) :: Writable(s.disk, k)
  }

  lemma PlainFileRenders(s: Content, f: File, order: seq<string>)
    requires Inv(s) && IsPlainFile(f) && f in s.disk && Lists(order, s.dirtyKeys)
    ensures RenderFor(f, s.disk[f], order, s.cand).Some? <==> FileWritable(s, f)
  {
    hide Inv, FileOf, ReadScalar, RenderFor, KeysOf, Lists, ParseQciKey, Takes;
    RenderSucceeds(s, f, order);
    forall k | k in s.dirtyKeys ensures k in KeysOf(f) <==> FileOf(k) == Some(f) {
      KeyOfFile(f, k);
    }
  }

  lemma KeyOfFile(f: File, k: string)
    requires IsPlainFile(f)
    ensures k in KeysOf(f) <==> FileOf(k) == Some(f)
  {
    hide FileOf, EnbPlace, RR_KEYS, SIB_KEYS;
    RoutingIsComplete(k, f);
  }

  lemma RbFileRenders(s: Content, order: seq<string>)
    requires RbInv(s) && RB in s.disk && Lists(order, s.dirtyKeys)
    ensures RenderFor(RB, s.disk[RB], order, s.cand).Some? <==> FileWritable(s, RB)
  {
    hide Inv, RenderFor, Int32Fields, RenderRb, FileOf, Writable, Patchable, Tame, ParseQciKey;
    InvMarked(s);
    DirtyNumbers(s, order);
    RenderRbFor(s.disk[RB], order, s.cand);
    RbBatchSucceeds(s.disk[RB], order, s.cand);
    forall k | k in s.dirtyKeys
      ensures FileOf(k) == Some(RB) <==> QCI_PREFIX <= k
      ensures QCI_PREFIX <= k ==> (Patchable(s.disk[RB], k, s.cand) <==> Writable(s.disk, k))
    {
      RoutingIsComplete(k, RB);
      if QCI_PREFIX <= k {
        ProfileKeyWritable(s, k);
      }
    }
  }

  lemma ProfileKeyWritable(s: Content, k: string)
    requires RbInv(s) && RB in s.disk && k in s.dirtyKeys && QCI_PREFIX <= k
    ensures Patchable(s.disk[RB], k, s.cand) <==> Writable(s.disk, k)
  {
    hide DiskAgrees, FileLeaf, Int32Fields, KindOf, ParseQciKey, QciTheorem.Settable, FileOf, Read, Tame, HasProfile, SafeString;
    ProfileKeyIsNoLeaf(k);
    assert Resolve(k).Some? && FileOf(k).Some?;
    RoutingIsComplete(k, RB);
    var (q, g) := ParseQciKey(k).value;
    if Takes(s.disk[RB], q, g) {
      assert Numbered(s.disk[RB], q) && HasProfile(s.running, q) && HasProfile(s.cand, q);
      ProfileReads(s.cand, q, g);
    }
  }

  /** Every file that is dirty is there, and every dirty key can be written to its file. */
  ghost predicate CanWrite(s: Content) {
    s.dirty <= s.disk.Keys && forall k | k in s.dirtyKeys :: Writable(s.disk, k)
  }

  lemma FileRenders(s: Content, f: File, order: seq<string>)
    requires RbInv(s) && f in s.disk && Lists(order, s.dirtyKeys)
    ensures RenderFor(f, s.disk[f], order, s.cand).Some? <==> FileWritable(s, f)
  {
    hide Inv, RenderFor, Int32Fields, FileOf, RbAgrees, Lists;
    match f
    case ENB => EnbAlwaysRenders(s.disk[ENB], order, s.cand);
    case RR => PlainFileRenders(s, RR, order);
    case SIB => PlainFileRenders(s, SIB, order);
    case RB => RbFileRenders(s, order);
  }

  lemma EnbAlwaysRenders(d: Bytes, order: seq<string>, cfg: Configuration)
    ensures RenderFor(ENB, d, order, cfg).Some?
  {}

  /** Without failing file steps, a commit goes through exactly when the candidate is valid and can be written. */
  lemma CommitGoesThrough(s: Content, order: seq<string>, isIP: string -> bool)
    requires RbInv(s) && Lists(order, s.dirtyKeys)
    ensures Persists(s, NO_FAULTS, order, isIP) <==> Valid(s.cand, isIP) && CanWrite(s)
  {
    hide RbInv, Valid, RenderFor, Lists, Writable, FileOf;
    forall f | f in s.dirty && f in s.disk ensures RenderFor(f, s.disk[f], order, s.cand).Some? <==> FileWritable(s, f) {
      FileRenders(s, f, order);
    }
    MarkedFiles(s);
    if Valid(s.cand, isIP) && s.dirty <= s.disk.Keys && forall f | f in s.dirty :: FileWritable(s, f) {
      forall k | k in s.dirtyKeys ensures Writable(s.disk, k) {
        assert FileOf(k).value in s.dirty && FileWritable(s, FileOf(k).value);
      }
    }
    assert Persists(s, NO_FAULTS, order, isIP) <==>
           Valid(s.cand, isIP) && s.dirty <= s.disk.Keys && forall f | f in s.dirty :: FileWritable(s, f) by {
      FaultFree(s, order, isIP);
    }
  }

  lemma FaultFree(s: Content, order: seq<string>, isIP: string -> bool)
    requires forall f | f in s.dirty && f in s.disk :: RenderFor(f, s.disk[f], order, s.cand).Some? <==> FileWritable(s, f)
    ensures Persists(s, NO_FAULTS, order, isIP) <==>
            Valid(s.cand, isIP) && s.dirty <= s.disk.Keys && forall f | f in s.dirty :: FileWritable(s, f)
  {
    hide Valid, RenderFor, FileWritable;
    assert forall f | f in s.dirty :: Stages(s, NO_FAULTS, order, f) <==> f in s.disk && RenderFor(f, s.disk[f], order, s.cand).Some?;
  }

  lemma MarkedFiles(s: Content)
    requires RbInv(s)
    ensures forall k | k in s.dirtyKeys :: FileOf(k).Some? && FileOf(k).value in s.dirty
  {
    hide Sound, Tracked, DiskAgrees, FileOf, Resolve, RbAgrees, Int32Fields;
  }

  // ----- a failed edit

  /** A failed edit changes nothing but the marks. */
  lemma FailedEditKeeps(s: Content, changes: seq<Change>, isIP: string -> bool)
    requires RbInv(s) && Preview(s.cand, changes, isIP).Bad?
    ensures var t := Edited(s, changes, isIP);
            RbInv(t) && t.cand == s.cand && t.running == s.running && t.disk == s.disk && t.dirtyKeys == s.dirtyKeys + Marks(changes)
  {
    hide Sound, Tracked, Marked, FileAgrees, Int32Fields, ProfilesAgree, Preview, Marks, FilesOf;
    EditKeepsTracked(s, changes, isIP);
    EditKeepsMarked(s, changes, isIP);
  }

  /**
   What a failed edit does to the next commit, exactly: without failing file steps, the commit
   goes through after it if and only if it would have gone through before it and every key that
   the edit had marked can be written to its file.
   */
  lemma FailedEditBlocksCommit(s: Content, changes: seq<Change>, order: seq<string>, order': seq<string>, isIP: string -> bool)
    requires RbInv(s) && Preview(s.cand, changes, isIP).Bad?
    requires Lists(order, s.dirtyKeys) && Lists(order', Edited(s, changes, isIP).dirtyKeys)
    ensures Persists(Edited(s, changes, isIP), NO_FAULTS, order', isIP)
            <==> Persists(s, NO_FAULTS, order, isIP) && forall k | k in Marks(changes) :: Writable(s.disk, k)
  {
    hide RbInv, Valid, Persists, Preview, Marks, Writable, Lists, FilesOf;
    var t := Edited(s, changes, isIP);
    FailedEditKeeps(s, changes, isIP);
    CommitGoesThrough(s, order, isIP);
    CommitGoesThrough(t, order', isIP);
    if s.dirty <= s.disk.Keys && forall k | k in Marks(changes) :: Writable(s.disk, k) {
      MarkedAreThere(s, changes, isIP);
    }
  }

  lemma MarkedAreThere(s: Content, changes: seq<Change>, isIP: string -> bool)
    requires s.dirty <= s.disk.Keys && forall k | k in Marks(changes) :: Writable(s.disk, k)
    ensures Edited(s, changes, isIP).dirty <= s.disk.Keys
  {
    hide Preview, Marks, FileOf, ReadScalar, ParseQciKey, Takes;
    forall f | f in FilesOf(Marks(changes)) ensures f in s.disk {
      var k :| k in Marks(changes) && FileOf(k).Some? && FileOf(k).value == f;
      assert Writable(s.disk, k);
    }
  }

  /** A profile that the candidate does not hold cannot be written. */
  lemma AbsentProfileIsNotWritable(s: Content, k: string)
    requires RbInv(s) && ParseQciKey(k).Some? && !HasProfile(s.cand, ParseQciKey(k).value.0)
    ensures !Writable(s.disk, k)
  {
    hide Sound, Marked, DiskAgrees, FileLeaf, Int32Fields, ParseQciKey, QciTheorem.Settable, Read, Tame, HasProfile, Numbered;
    NamePrefix(k);
  }

  lemma NamePrefix(k: string)
    requires ParseQciKey(k).Some?
    ensures FileOf(k) == Some(RB)
  {}

  // ----- until the candidate is reset

  /** A commit with whatever failures needs what a commit without failures needs. */
  lemma FaultsOnlyHinder(s: Content, faults: Faults, order: seq<string>, isIP: string -> bool)
    ensures Persists(s, faults, order, isIP) ==> Persists(s, NO_FAULTS, order, isIP)
  {
    hide Valid, RenderFor;
    if Persists(s, faults, order, isIP) {
      forall f | f in s.dirty ensures Stages(s, NO_FAULTS, order, f) {
        assert Stages(s, faults, order, f);
      }
    }
  }

  /** A dirty key that its file cannot take fails every commit. */
  lemma StuckKey(s: Content, k: string, faults: Faults, order: seq<string>, isIP: string -> bool)
    requires RbInv(s) && k in s.dirtyKeys && !Writable(s.disk, k) && Lists(order, s.dirtyKeys)
    ensures !Persists(s, faults, order, isIP)
  {
    hide RbInv, Valid, Persists, Writable, Lists;
    FaultsOnlyHinder(s, faults, order, isIP);
    CommitGoesThrough(s, order, isIP);
  }

  /** The state is stuck at the key: running and files as they were, the key dirty, no commit possible. */
  ghost predicate Stuck(s: Content, t: Content, k: string, isIP: string -> bool) {
    && RbInv(t) && t.disk == s.disk && t.running == s.running && k in t.dirtyKeys
    && forall env: Env | Lists(env.order, t.dirtyKeys) :: !Persists(t, env.faults, env.order, isIP) && !Committed(t, env, isIP).ok
  }

  lemma StuckNow(s: Content, t: Content, k: string, isIP: string -> bool)
    requires RbInv(t) && t.disk == s.disk && t.running == s.running && k in t.dirtyKeys && !Writable(s.disk, k)
    ensures Stuck(s, t, k, isIP)
  {
    hide RbInv, Writable, Committed, Persists, Lists;
    forall env: Env | Lists(env.order, t.dirtyKeys)
      ensures !Persists(t, env.faults, env.order, isIP) && !Committed(t, env, isIP).ok
    {
      StuckKey(t, k, env.faults, env.order, isIP);
      CommitIsAtomic(t, env, isIP);
    }
  }

  lemma StepStaysStuck(s: Content, t: Content, step: Step, k: string, isIP: string -> bool)
    requires Stuck(s, t, k, isIP) && !Writable(s.disk, k) && !step.Discard? && Proper(t, step) && Fits(step)
    ensures Stuck(s, Do(t, step, isIP), k, isIP)
  {
    hide RbInv, Writable, Persists, Preview, Marks, FilesOf, SafeChange, FitsType, Lists;
    StepKeepsRb(t, step, isIP);
    match step
    case Edit(changes) => StuckNow(s, Edited(t, changes, isIP), k, isIP);
    case Commit(env) => StuckNow(s, t, k, isIP);
  }

  /**
   Blocked until reset: once a dirty key cannot be written to its file, every commit of every run of
   edits and commits fails, whatever else is edited, and files and running stay as they are.
   */
  lemma {:induction false} BlockedUntilReset(s: Content, steps: seq<Step>, k: string, isIP: string -> bool)
    requires RbInv(s) && k in s.dirtyKeys && !Writable(s.disk, k)
    requires forall i | 0 <= i < |steps| :: !steps[i].Discard? && Proper(Run(s, steps[..i], isIP), steps[i]) && Fits(steps[i])
    ensures Stuck(s, Run(s, steps, isIP), k, isIP)
    decreases |steps|
  {
    hide RbInv, Writable, Stuck, Do, Proper, Fits;
    if steps == [] {
      StuckNow(s, s, k, isIP);
    } else {
      var n := |steps| - 1;
      var before := steps[..n];
      forall i | 0 <= i < n ensures !before[i].Discard? && Proper(Run(s, before[..i], isIP), before[i]) && Fits(before[i]) {
        assert before[..i] == steps[..i];
      }
      BlockedUntilReset(s, before, k, isIP);
      StepStaysStuck(s, Run(s, before, isIP), steps[n], k, isIP);
    }
  }

  /** So a failed edit that marked such a key blocks every commit until the candidate is reset. */
  lemma FailedEditSticks(s: Content, changes: seq<Change>, steps: seq<Step>, k: string, isIP: string -> bool)
    requires RbInv(s) && Preview(s.cand, changes, isIP).Bad? && k in Marks(changes) && !Writable(s.disk, k)
    requires var t := Edited(s, changes, isIP);
             forall i | 0 <= i < |steps| :: !steps[i].Discard? && Proper(Run(t, steps[..i], isIP), steps[i]) && Fits(steps[i])
    ensures Stuck(s, Run(Edited(s, changes, isIP), steps, isIP), k, isIP)
  {
    hide RbInv, Preview, Marks, Writable, Proper, Fits, Run, Edited, Stuck;
    var t := Edited(s, changes, isIP);
    FailedEditKeeps(s, changes, isIP);
    BlockedUntilReset(t, steps, k, isIP);
    SameStuck(s, t, Run(t, steps, isIP), k, isIP);
  }

  lemma SameStuck(s: Content, t: Content, u: Content, k: string, isIP: string -> bool)
    requires Stuck(t, u, k, isIP) && t.disk == s.disk && t.running == s.running
    ensures Stuck(s, u, k, isIP)
  {
    hide RbInv, Persists, Committed, Lists;
  }

  /** A reset lifts the block: nothing is dirty, so a valid running configuration is committed as it is. */
  lemma ResetUnblocks(s: Content, isIP: string -> bool)
    ensures Persists(Reset(s), NO_FAULTS, [], isIP) <==> Valid(s.running, isIP)
  {
    hide Valid;
  }

  // ----- an edit that fails at its second change

  const POWER_EDIT: seq<Change> := [("reference_signal_power", AnyInt32(0)), ("pci", AnyString("x"))]

  lemma PowerEditMarks(cfg: Configuration, isIP: string -> bool)
    ensures "reference_signal_power" in Marks(POWER_EDIT) && Preview(cfg, POWER_EDIT, isIP).Bad?
  {
    hide Trim, Valid, Apply;
    TrimOfTrimmed("reference_signal_power");
    TrimOfTrimmed("pci");
    PowerKinds();
    assert Accepts("reference_signal_power", AnyInt32(0)) && !Accepts("pci", AnyString("x"));
    AllOrNothing(cfg, POWER_EDIT);
    assert POWER_EDIT[1] in POWER_EDIT && !Accepted(POWER_EDIT[1]);
  }

  lemma PowerKinds()
    ensures KindOf("reference_signal_power") == Some(KInt32) && KindOf("pci") == Some(KUint32)
  {}

  /**
   No profile need be involved: on a sib.conf that lacks reference_signal_power, an edit of that
   leaf that fails only at its second change blocks every later commit.
   */
  lemma FailedPowerEditBlocks(s: Content, steps: seq<Step>, isIP: string -> bool)
    requires RbInv(s) && SIB in s.disk && ReadScalar(s.disk[SIB], "reference_signal_power", false) == None
    requires var t := Edited(s, POWER_EDIT, isIP);
             forall i | 0 <= i < |steps| :: !steps[i].Discard? && Proper(Run(t, steps[..i], isIP), steps[i]) && Fits(steps[i])
    ensures Preview(s.cand, POWER_EDIT, isIP).Bad?
    ensures Stuck(s, Run(Edited(s, POWER_EDIT, isIP), steps, isIP), "reference_signal_power", isIP)
  {
    hide RbInv, Preview, Marks, ReadScalar, Proper, Fits, POWER_EDIT, Run, Edited, Stuck, Writable;
    PowerEditMarks(s.cand, isIP);
    PowerIsNotWritable(s.disk);
    FailedEditSticks(s, POWER_EDIT, steps, "reference_signal_power", isIP);
  }

  lemma PowerIsNotWritable(disk: map<File, Bytes>)
    requires SIB in disk && ReadScalar(disk[SIB], "reference_signal_power", false) == None
    ensures !Writable(disk, "reference_signal_power")
  {
    hide FileOf, ReadScalar, KeysOf, ParseQciKey, Takes;
    KeyOfSib();
    LeafOfFile(SIB, "reference_signal_power");
  }
}
