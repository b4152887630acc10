/**
 The store is released between persisting the candidate and finalizing the commit. What that means
 for the files when edits and resets fall in between.
 */
module Interleaving {
  import opened Lexer
  import opened Text
  import opened Numbers
  import opened Config
  import opened Routing
  import opened Rendering
  import opened Edits
  import opened Store
  import opened Commits
  import opened SafeTexts
  import opened Agreement
  import opened RbBatch
  import opened RbAgreement
  import opened EnbAgreement
  import Batch
  import IniBatch

  /** All files agree with the configuration. */
  ghost predicate Agree(disk: map<File, Bytes>, cfg: Configuration) {
    && (forall f | f in disk && IsPlainFile(f) :: FileAgrees(disk[f], f, cfg))
    && (RB in disk ==> ProfilesAgree(disk[RB], cfg))
    && (ENB in disk ==> EnbFileAgrees(disk[ENB], cfg))
  }

  /** The invariants of the runs, of all files. */
  ghost predicate FullInv(s: Content) {
    RbInv(s) && EnbInv(s)
  }

  /** Where the invariants of the runs hold, all files agree with the running configuration. */
  lemma FullInvAgrees(s: Content)
    requires FullInv(s)
    ensures Agree(s.disk, s.running)
  {
    hide Sound, Tracked, Marked, FileAgrees, ProfilesAgree, EnbFileAgrees, Int32Fields, SafeEnb;
  }

  // ----- two configurations on the same files

  /** The key has a value in the file. */
  ghost predicate Held(d: Bytes, k: Bytes) {
    ReadScalar(d, k, false).Some?
  }

  ghost predicate SamePlain(d: Bytes, f: File, a: Configuration, b: Configuration)
    requires IsPlainFile(f)
  {
    forall k | k in KeysOf(f) && Held(d, k) :: LeafText(b, k) == LeafText(a, k)
  }

  ghost predicate SameProfilesIn(a: Configuration, b: Configuration) {
    && (forall q: int :: HasProfile(b, q) == HasProfile(a, q))
    && (forall q: int, f: string | HasProfile(a, q) && f in QCI_FIELDS :: Read(b, Leaf.Qci(q, f)) == Read(a, Leaf.Qci(q, f)))
  }

  ghost predicate SameEnb(d: Bytes, a: Configuration, b: Configuration) {
    forall k | EnbPlace(k).Some? && EnbLeaf(d, k).Some? :: LeafText(b, k) == LeafText(a, k)
  }

  /** The two configurations have the same values at every leaf that the files hold. */
  ghost predicate SameOnDisk(disk: map<File, Bytes>, a: Configuration, b: Configuration) {
    && (forall f | f in disk && IsPlainFile(f) :: SamePlain(disk[f], f, a, b))
    && (RB in disk ==> SameProfilesIn(a, b))
    && (ENB in disk ==> SameEnb(disk[ENB], a, b))
  }

  lemma PlainIff(d: Bytes, f: File, a: Configuration, b: Configuration)
    requires IsPlainFile(f) && FileAgrees(d, f, a)
    ensures FileAgrees(d, f, b) <==> SamePlain(d, f, a, b)
  {
    hide Batch.Layout, KeysOf, LeafText, ReadScalar;
    assert forall k | k in KeysOf(f) :: Matches(d, k, b) <==> (Held(d, k) ==> LeafText(b, k) == LeafText(a, k)) by {
      forall k | k in KeysOf(f) ensures Matches(d, k, b) <==> (Held(d, k) ==> LeafText(b, k) == LeafText(a, k)) {
        assert Matches(d, k, a);
      }
    }
  }

  lemma RbIff(d: Bytes, a: Configuration, b: Configuration)
    requires ProfilesAgree(d, a)
    ensures ProfilesAgree(d, b) <==> SameProfilesIn(a, b)
  {
    hide Tame, Numbered, FileLeaf, Read, HasProfile, QCI_FIELDS;
  }

  lemma EnbIff(d: Bytes, a: Configuration, b: Configuration)
    requires EnbFileAgrees(d, a)
    ensures EnbFileAgrees(d, b) <==> SameEnb(d, a, b)
  {
    hide IniBatch.Neat, EnbPlace, EnbLeaf, LeafText, ENB_SPOTS;
  }

  /** Files that agree with one configuration agree with another exactly where they hold the same values. */
  lemma AgreeIff(disk: map<File, Bytes>, a: Configuration, b: Configuration)
    requires Agree(disk, a)
    ensures Agree(disk, b) <==> SameOnDisk(disk, a, b)
  {
    hide FileAgrees, ProfilesAgree, EnbFileAgrees, SamePlain, SameProfilesIn, SameEnb;
    forall f | f in disk && IsPlainFile(f) ensures FileAgrees(disk[f], f, b) <==> SamePlain(disk[f], f, a, b) {
      PlainIff(disk[f], f, a, b);
    }
    if RB in disk {
      RbIff(disk[RB], a, b);
    }
    if ENB in disk {
      EnbIff(disk[ENB], a, b);
    }
  }

  // ----- between persisting and finalizing

  /** The files that a commit installs agree with the candidate it installs them for. */
  lemma PersistedAgrees(s: Content, env: Env, isIP: string -> bool)
    requires FullInv(s) && Lists(env.order, s.dirtyKeys) && Persists(s, env.faults, env.order, isIP)
    ensures Agree(Rendered(s, env.order), s.cand)
  {
    hide RbInv, EnbInv, Lists, Persists, FileAgrees, ProfilesAgree, EnbFileAgrees, RenderFor, Rendered;
    RbInvHasInv(s);
    RenderedKeys(s, env.order);
    forall f | f in s.disk ensures IsPlainFile(f) ==> FileAgrees(Rendered(s, env.order)[f], f, s.cand) {
      RenderedFile(s, env, isIP, f);
      if IsPlainFile(f) {
        if f in s.dirty {
          RenderedAgrees(s, f, env.order);
        } else {
          UntouchedAgrees(s, f);
        }
      }
    }
    if RB in s.disk {
      RenderedFile(s, env, isIP, RB);
      RenderRbFor(s.disk[RB], env.order, s.cand);
      CommitAgrees(s, env.order);
    }
    if ENB in s.disk {
      RenderedFile(s, env, isIP, ENB);
      RenderEnbFor(s.disk[ENB], env.order, s.cand);
      EnbCommitAgrees(s, env.order);
    }
  }

  lemma RenderedKeys(s: Content, order: seq<string>)
    ensures Rendered(s, order).Keys == s.disk.Keys
  {
    hide RenderFor;
  }

  lemma RenderedFile(s: Content, env: Env, isIP: string -> bool, f: File)
    requires Persists(s, env.faults, env.order, isIP) && f in s.disk
    ensures f in Rendered(s, env.order)
    ensures f in s.dirty ==> RenderFor(f, s.disk[f], env.order, s.cand) == Some(Rendered(s, env.order)[f])
    ensures f !in s.dirty ==> Rendered(s, env.order)[f] == s.disk[f]
  {
    hide RenderFor, Valid;
    if f in s.dirty {
      PersistedRenders(s, env, isIP, f);
    }
  }

  lemma RbInvHasInv(s: Content)
    requires RbInv(s)
    ensures Inv(s)
  {}

  /** Edits and resets touch neither files nor running configuration. */
  lemma {:induction false} StepsInBetween(s: Content, steps: seq<Step>, isIP: string -> bool)
    requires forall i | 0 <= i < |steps| :: !steps[i].Commit?
    ensures Run(s, steps, isIP).disk == s.disk && Run(s, steps, isIP).running == s.running
    decreases |steps|
  {
    hide Preview, Marks, FilesOf;
    if steps != [] {
      StepsInBetween(s, steps[..|steps| - 1], isIP);
    }
  }

  /** The store when the commit of `s` is finalized after the steps in between. */
  function FinalizedLate(s: Content, order: seq<string>, steps: seq<Step>, isIP: string -> bool): Content {
    Finalized(Run(Persisted(s, order), steps, isIP))
  }

  /**
   Finalizing after other steps, exactly: the files agree with what is then running if and only if
   the candidate at that moment has the same values as the persisted one at every leaf that the
   files hold.
   */
  lemma LateFinalize(s: Content, env: Env, steps: seq<Step>, isIP: string -> bool)
    requires FullInv(s) && Lists(env.order, s.dirtyKeys) && Persists(s, env.faults, env.order, isIP)
    requires forall i | 0 <= i < |steps| :: !steps[i].Commit?
    ensures var late := FinalizedLate(s, env.order, steps, isIP);
            && late.disk == Rendered(s, env.order) && late.running == Run(Persisted(s, env.order), steps, isIP).cand
            && (Agree(late.disk, late.running) <==> SameOnDisk(late.disk, s.cand, late.running))
  {
    hide FullInv, Lists, Persists, Rendered, Agree, SameOnDisk, Run;
    PersistedAgrees(s, env, isIP);
    StepsInBetween(Persisted(s, env.order), steps, isIP);
    AgreeIff(Rendered(s, env.order), s.cand, FinalizedLate(s, env.order, steps, isIP).running);
  }

  /** If nothing in between changes the candidate, the commit ends as an uninterrupted one. */
  lemma QuietInBetween(s: Content, env: Env, steps: seq<Step>, isIP: string -> bool)
    requires FullInv(s) && Lists(env.order, s.dirtyKeys) && Persists(s, env.faults, env.order, isIP) && !env.restartFails
    requires forall i | 0 <= i < |steps| :: !steps[i].Commit?
    requires Run(Persisted(s, env.order), steps, isIP).cand == s.cand
    ensures var late := FinalizedLate(s, env.order, steps, isIP);
            Agree(late.disk, late.running) && Reset(late) == Committed(s, env, isIP).content
  {
    hide FullInv, Lists, Persists, Rendered, Agree, Run;
    PersistedAgrees(s, env, isIP);
    StepsInBetween(Persisted(s, env.order), steps, isIP);
  }

  // ----- one step in between

  /**
   A reset in between: the new files stay, the old configuration stays running, and they agree if
   and only if the commit changed nothing that the files hold.
   */
  lemma ResetThenFinalize(s: Content, env: Env, isIP: string -> bool)
    requires FullInv(s) && Lists(env.order, s.dirtyKeys) && Persists(s, env.faults, env.order, isIP)
    ensures var late := FinalizedLate(s, env.order, [Discard], isIP);
            && late.disk == Rendered(s, env.order) && late.running == s.running
            && (Agree(late.disk, late.running) <==> SameOnDisk(late.disk, s.cand, s.running))
  {
    hide FullInv, Lists, Persists, Rendered, Agree, SameOnDisk;
    LateFinalize(s, env, [Discard], isIP);
    var p := Persisted(s, env.order);
    assert [Discard][..0] == [] && Run(p, [], isIP) == p && Run(p, [Discard], isIP) == Reset(p);
  }

  function PciEdit(n: int): seq<Change> {
    [("pci", AnyUint32(n))]
  }

  lemma PciApplies(cfg: Configuration, n: int)
    ensures ApplyAll(cfg, PciEdit(n)) == Good(cfg.(leaves := cfg.leaves["pci" := U32(n)]))
  {
    hide Trim, Apply;
    TrimOfTrimmed("pci");
    PciApplied(cfg, n);
    var next := cfg.(leaves := cfg.leaves["pci" := U32(n)]);
    assert PciEdit(n)[1..] == [];
    assert ApplyAll(next, []) == Good(next);
  }

  lemma PciApplied(cfg: Configuration, n: int)
    ensures Apply(cfg, "pci", AnyUint32(n)) == Good(cfg.(leaves := cfg.leaves["pci" := U32(n)]))
  {
    hide KindOf, ParseQciKey, SetField;
    PciKind();
  }

  lemma PciKind()
    ensures KindOf("pci") == Some(KUint32) && "pci" in KeysOf(RR) && "pci" != "cell_barred"
  {}

  /**
   One interleaving that loses the agreement: a commit persists one cell identity, an edit of another
   session sets a second one, and finalizing makes the second one running behind a file that
   holds the first.
   */
  lemma EditThenFinalize(s: Content, env: Env, m: int, n: int, isIP: string -> bool)
    requires FullInv(s) && Lists(env.order, s.dirtyKeys) && Persists(s, env.faults, env.order, isIP)
    requires RR in s.disk && Held(Rendered(s, env.order)[RR], "pci")
    requires "pci" in s.cand.leaves && s.cand.leaves["pci"] == U32(m) && m != n && Preview(s.cand, PciEdit(n), isIP).Good?
    ensures var late := FinalizedLate(s, env.order, [Edit(PciEdit(n))], isIP);
            !Agree(late.disk, late.running) && late.dirty == {}
  {
    hide FullInv, Lists, Persists, Rendered, Agree, Preview, Held, PciEdit, KeysOf, Run, LeafText;
    var steps := [Edit(PciEdit(n))];
    LateFinalize(s, env, steps, isIP);
    PciRuns(s, env.order, n, isIP);
    var late := FinalizedLate(s, env.order, steps, isIP);
    PciTexts(s.cand, m, n);
    PciKind();
    RenderedKeys(s, env.order);
    assert !SamePlain(late.disk[RR], RR, s.cand, late.running);
  }

  function WithPci(cfg: Configuration, n: int): Configuration {
    cfg.(leaves := cfg.leaves["pci" := U32(n)])
  }

  lemma PciRuns(s: Content, order: seq<string>, n: int, isIP: string -> bool)
    requires Preview(s.cand, PciEdit(n), isIP).Good?
    ensures Run(Persisted(s, order), [Edit(PciEdit(n))], isIP).cand == WithPci(s.cand, n)
  {
    hide Valid, PciEdit, Marks, FilesOf, Rendered, ApplyAll;
    var p, steps := Persisted(s, order), [Edit(PciEdit(n))];
    assert steps[..0] == [] && Run(p, [], isIP) == p && Run(p, steps, isIP) == Edited(p, PciEdit(n), isIP);
    PciApplies(s.cand, n);
  }

  lemma PciTexts(cfg: Configuration, m: int, n: int)
    requires "pci" in cfg.leaves && cfg.leaves["pci"] == U32(m) && m != n
    ensures LeafText(WithPci(cfg, n), "pci") != LeafText(cfg, "pci")
  {
    hide FormatInt;
    PciKind();
    if FormatInt(m) == FormatInt(n) {
      FormatIsInjective(m, n);
    }
  }
}
