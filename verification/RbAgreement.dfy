/**
 rb.conf agrees with the running configuration over every run, profile by profile.
 */
module RbAgreement {
  import opened Lexer
  import opened Text
  import opened Numbers
  import opened Config
  import opened Routing
  import opened Rendering
  import opened Edits
  import opened Reduction
  import opened Store
  import opened Commits
  import opened SafeTexts
  import opened Agreement
  import opened RbBatch
  import Qci

  /** The file holds exactly the profiles of the configuration, with the same numbers in every field. */
  ghost predicate ProfilesAgree(d: Bytes, cfg: Configuration) {
    && Tame(d)
    && (forall q: int :: Numbered(d, q) == HasProfile(cfg, q))
    && (forall q: int, f: string | HasProfile(cfg, q) && f in QCI_FIELDS :: FileLeaf(d, q, f) == Read(cfg, Leaf.Qci(q, f)))
  }

  ghost predicate RbAgrees(s: Content) {
    RB in s.disk ==> ProfilesAgree(s.disk[RB], s.running)
  }

  ghost predicate RbInv(s: Content) {
    Inv(s) && Int32Fields(s.running) && Int32Fields(s.cand) && RbAgrees(s)
  }

  // ----- numbers stay in range

  /** A change that carries a Go int32 carries a number of 32 bits. */
  predicate FitsType(c: Change) {
    c.1.AnyInt32? ==> IsInt32(c.1.n)
  }

  lemma SetFieldFits(cfg: Configuration, qci: int, field: string, n: int)
    requires Int32Fields(cfg) && IsInt32(n)
    ensures Int32Fields(cfg.(profiles := SetField(cfg.profiles, qci, field, n)))
  {}

  lemma ApplyFits(cfg: Configuration, c: Change)
    requires Int32Fields(cfg) && FitsType(c) && Apply(cfg, Trim(c.0), c.1).Good?
    ensures Int32Fields(Apply(cfg, Trim(c.0), c.1).value)
  {
    hide Int32Fields, KindOf, ParseQciKey, Trim, SetField, Convert;
    match Resolve(Trim(c.0)).value
    case Flat(k) => SameProfiles(cfg, Apply(cfg, Trim(c.0), c.1).value);
    case Qci(qci, field) => SetFieldFits(cfg, qci, field, Converted(Trim(c.0), c.1).value.i);
  }

  lemma SameProfiles(a: Configuration, b: Configuration)
    requires Int32Fields(a) && b.profiles == a.profiles
    ensures Int32Fields(b)
  {}

  lemma {:induction false} EditFits(cfg: Configuration, changes: seq<Change>)
    requires Int32Fields(cfg) && (forall c | c in changes :: FitsType(c)) && ApplyAll(cfg, changes).Good?
    ensures Int32Fields(ApplyAll(cfg, changes).value)
    decreases |changes|
  {
    hide Int32Fields, Apply, Trim, FitsType;
    if changes != [] {
      ApplyFits(cfg, changes[0]);
      EditFits(Apply(cfg, Trim(changes[0].0), changes[0].1).value, changes[1..]);
    }
  }

  // ----- a commit

  lemma KeyNames(key: string, q: int, f: string)
    requires Resolve(key) == Some(Leaf.Qci(q, f))
    ensures Names(key, q, f) && f in QCI_FIELDS && 1 <= q <= 9 && FileOf(key) == Some(RB)
  {
    hide KindOf, QCI_FIELDS;
  }

  lemma NamesKey(key: string, q: int, f: string)
    requires Names(key, q, f) && Resolve(key).Some?
    ensures Resolve(key) == Some(Leaf.Qci(q, f))
  {
    hide ParseQciKey;
    PrefixOfName(key, q, f);
    ProfileKeyIsNoLeaf(key);
  }

  lemma PrefixOfName(key: string, q: int, f: string)
    requires Names(key, q, f)
    ensures QCI_PREFIX <= key
  {}

  /** Every profile field holds a number. */
  lemma ProfileReads(cfg: Configuration, q: int, f: string)
    requires Typed(cfg) && HasProfile(cfg, q) && f in QCI_FIELDS
    ensures Read(cfg, Leaf.Qci(q, f)).Some?
  {}

  lemma NoProfileNoRead(cfg: Configuration, q: int, f: string)
    requires !HasProfile(cfg, q)
    ensures Read(cfg, Leaf.Qci(q, f)) == None
  {}

  /** A field whose reading in the candidate differs is named by a dirty key of its profile. */
  lemma DifferenceIsNamed(s: Content, q: int, f: string)
    requires Inv(s) && Read(s.cand, Leaf.Qci(q, f)) != Read(s.running, Leaf.Qci(q, f))
    ensures RB in s.dirty
    ensures exists key, g :: key in s.dirtyKeys && Names(key, q, g) && (g == f || !HasProfile(s.running, q))
  {
    hide Sound, DiskAgrees, Read, HasProfile, FileOf, Resolve, Names;
    var leaf := Leaf.Qci(q, f);
    var key :| key in s.dirtyKeys && Explains(s.running, key, leaf);
    var g := Resolve(key).value.field;
    KeyNames(key, q, g);
  }

  /** In a batch that succeeds, every named profile is one that the file holds. */
  lemma {:induction false} RenderedAreNumbered(d: Bytes, order: seq<string>, cfg: Configuration, key: string, q: int, f: string)
    requires Tame(d) && Int32Fields(cfg) && PlainNumbers(order) && RenderRb(d, order, cfg).Some?
    requires key in order && Names(key, q, f)
    ensures Numbered(d, q)
    decreases |order|
  {
    hide Tame, Numbered, FileLeaf, PatchKey, Int32Fields, Read, ParseQciKey;
    PrefixOfName(key, q, f);
    var rest := order[1..];
    if key == order[0] {
      KeyPatch(d, key, cfg);
    } else {
      assert key in rest;
      RestIsPlain(order);
      if QCI_PREFIX <= order[0] {
        OneKey(d, order[0], cfg, q, f);
        RenderedAreNumbered(PatchKey(d, order[0], cfg).value, rest, cfg, key, q, f);
      } else {
        RenderedAreNumbered(d, rest, cfg, key, q, f);
      }
    }
  }

  lemma DirtyNumbers(s: Content, order: seq<string>)
    requires Marked(s) && Lists(order, s.dirtyKeys)
    ensures PlainNumbers(order)
  {
    hide KindOf, ParseQciKey, FileOf;
    forall i | 0 <= i < |order| && ParseQciKey(order[i]).Some? ensures 1 <= ParseQciKey(order[i]).value.0 <= 9 {
      var key := order[i];
      assert key in s.dirtyKeys;
      var (q, f) := ParseQciKey(key).value;
      NamesKey(key, q, f);
    }
  }

  /** The candidate of a commit that succeeds holds the profiles that running holds. */
  lemma NoNewProfiles(s: Content, order: seq<string>, q: int)
    requires RbInv(s) && Lists(order, s.dirtyKeys) && RB in s.disk
    requires RB in s.dirty ==> RenderRb(s.disk[RB], order, s.cand).Some?
    ensures HasProfile(s.cand, q) == HasProfile(s.running, q)
  {
    hide DiskAgrees, Read, HasProfile, Names, Tame, Numbered, FileLeaf, Int32Fields, RenderRb, Marked;
    if HasProfile(s.cand, q) && !HasProfile(s.running, q) {
      var f := "priority";
      ProfileReads(s.cand, q, f);
      NoProfileNoRead(s.running, q, f);
      DifferenceIsNamed(s, q, f);
      var key, g :| key in s.dirtyKeys && Names(key, q, g) && (g == f || !HasProfile(s.running, q));
      DirtyNumbers(s, order);
      assert key in order;
      RenderedAreNumbered(s.disk[RB], order, s.cand, key, q, g);
    }
  }

  /** After a commit that succeeds, the file agrees with what is then running. */
  lemma CommitAgrees(s: Content, order: seq<string>)
    requires RbInv(s) && Lists(order, s.dirtyKeys) && RB in s.disk
    requires RB in s.dirty ==> RenderRb(s.disk[RB], order, s.cand).Some?
    ensures ProfilesAgree(if RB in s.dirty then RenderRb(s.disk[RB], order, s.cand).value else s.disk[RB], s.cand)
  {
    hide Inv, Read, HasProfile, Names, Tame, Numbered, FileLeaf, Int32Fields, RenderRb, QCI_FIELDS;
    var d := s.disk[RB];
    var d' := if RB in s.dirty then RenderRb(d, order, s.cand).value else d;
    InvMarked(s);
    DirtyNumbers(s, order);
    forall q: int ensures HasProfile(s.cand, q) == HasProfile(s.running, q) {
      NoNewProfiles(s, order, q);
    }
    if RB in s.dirty {
      RbBatchIsExact(d, order, s.cand, 0, []);
    }
    forall q: int, f: string | HasProfile(s.cand, q) && f in QCI_FIELDS ensures FileLeaf(d', q, f) == Read(s.cand, Leaf.Qci(q, f)) {
      assert FileLeaf(d, q, f) == Read(s.running, Leaf.Qci(q, f));
      LeafAgrees(s, order, q, f);
      if RB in s.dirty {
        RbBatchIsExact(d, order, s.cand, q, f);
      }
    }
  }

  lemma InvMarked(s: Content)
    requires Inv(s)
    ensures Marked(s)
  {}

  /** A field that no dirty key names reads the same in the candidate. */
  lemma LeafAgrees(s: Content, order: seq<string>, q: int, f: string)
    requires Inv(s) && Lists(order, s.dirtyKeys) && HasProfile(s.running, q)
    ensures RB !in s.dirty || !NamedIn(order, q, f) ==> Read(s.cand, Leaf.Qci(q, f)) == Read(s.running, Leaf.Qci(q, f))
  {
    hide Inv, Read, HasProfile, Names;
    if Read(s.cand, Leaf.Qci(q, f)) != Read(s.running, Leaf.Qci(q, f)) {
      DifferenceIsNamed(s, q, f);
      var key, g :| key in s.dirtyKeys && Names(key, q, g) && (g == f || !HasProfile(s.running, q));
      assert key in order;
      var i :| 0 <= i < |order| && order[i] == key;
      assert Names(order[i], q, f);
    }
  }

  // ----- runs

  ghost predicate Fits(step: Step) {
    step.Edit? ==> forall c | c in step.changes :: FitsType(c)
  }

  lemma StepKeepsRb(s: Content, step: Step, isIP: string -> bool)
    requires RbInv(s) && Proper(s, step) && Fits(step)
    ensures RbInv(Do(s, step, isIP))
  {
    hide Inv, Proper, Committed, Int32Fields, ProfilesAgree, ApplyAll, Valid, Marks, FilesOf, FitsType;
    StepKeepsInv(s, step, isIP);
    match step
    case Edit(changes) =>
      if Preview(s.cand, changes, isIP).Good? {
        EditFits(s.cand, changes);
      }
    case Discard =>
    case Commit(env) =>
      ProperCommit(s, env);
      CommitKeepsRb(s, env, isIP);
  }

  lemma ProperCommit(s: Content, env: Env)
    requires Proper(s, Commit(env))
    ensures Lists(env.order, s.dirtyKeys)
  {}

  lemma CommitKeepsRb(s: Content, env: Env, isIP: string -> bool)
    requires RbInv(s) && Lists(env.order, s.dirtyKeys)
    ensures var t := Committed(s, env, isIP).content; Int32Fields(t.running) && Int32Fields(t.cand) && RbAgrees(t)
  {
    hide Inv, Committed, Int32Fields, ProfilesAgree, RenderFor, Lists, Persists;
    var r := Committed(s, env, isIP);
    CommitIsAtomic(s, env, isIP);
    if !r.ok {
      FailedCommit(s, env, isIP);
    } else if RB in s.disk {
      if RB in s.dirty {
        PersistedRenders(s, env, isIP, RB);
      }
      RenderRbFor(s.disk[RB], env.order, s.cand);
      CommitAgrees(s, env.order);
    }
  }

  /**
   rb.conf over every run. Starting from agreement, after any sequence of edits (failed ones
   included), discards and commits, rb.conf holds exactly the profiles of the running
   configuration, and the reader gives for every field of each of them the running number.
   */
  lemma {:induction false} RbAgreesWithRunning(s: Content, steps: seq<Step>, isIP: string -> bool)
    requires RbInv(s)
    requires forall k | 0 <= k < |steps| :: Proper(Run(s, steps[..k], isIP), steps[k]) && Fits(steps[k])
    ensures RbInv(Run(s, steps, isIP))
    decreases |steps|
  {
    hide RbInv, Do, Proper, Fits;
    if steps != [] {
      var n := |steps| - 1;
      var before := steps[..n];
      forall k | 0 <= k < n ensures Proper(Run(s, before[..k], isIP), before[k]) && Fits(before[k]) {
        assert before[..k] == steps[..k];
      }
      RbAgreesWithRunning(s, before, isIP);
      StepKeepsRb(Run(s, before, isIP), steps[n], isIP);
    }
  }
}
