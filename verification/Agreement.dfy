/**
 What is on disk agrees with the running configuration over every run of edits, discards and
 commits.
 */
module Agreement {
  import opened Lexer
  import opened Text
  import opened Config
  import opened Routing
  import opened Rendering
  import opened Edits
  import opened Reduction
  import opened Batch
  import opened Store
  import opened Commits
  import opened SafeTexts

  // ----- what the candidate changes

  /** The dirty key accounts for a difference at the leaf: it names the leaf, or another field of a
      profile that the running configuration does not hold. */
  predicate Explains(running: Configuration, key: string, leaf: Leaf) {
    && Resolve(key).Some?
    && (|| Resolve(key).value == leaf
        || (leaf.Qci? && Resolve(key).value.Qci? && Resolve(key).value.qci == leaf.qci && !HasProfile(running, leaf.qci)))
  }

  ghost predicate Explained(running: Configuration, keys: set<string>, leaf: Leaf) {
    exists key :: key in keys && Explains(running, key, leaf)
  }

  /** Candidate and running read the same wherever no dirty key accounts for a difference. */
  ghost predicate Tracked(s: Content) {
    && (forall leaf: Leaf :: Read(s.cand, leaf) == Read(s.running, leaf) || Explained(s.running, s.dirtyKeys, leaf))
    && (forall q: int :: HasProfile(s.running, q) ==> HasProfile(s.cand, q))
  }

  /** Every dirty key is an editable key, and its file is marked. */
  ghost predicate Marked(s: Content) {
    forall key | key in s.dirtyKeys :: Resolve(key).Some? && FileOf(key).Some? && FileOf(key).value in s.dirty
  }

  /** One step of an edit is accounted for by its key. */
  lemma ApplyTracks(running: Configuration, cfg: Configuration, c: Change, leaf: Leaf)
    requires Accepted(c) && forall q: int :: HasProfile(running, q) ==> HasProfile(cfg, q)
    ensures Apply(cfg, Trim(c.0), c.1).Good?
    ensures var next := Apply(cfg, Trim(c.0), c.1).value;
            && (Read(next, leaf) == Read(cfg, leaf) || Explains(running, Trim(c.0), leaf))
            && forall q: int :: HasProfile(running, q) ==> HasProfile(next, q)
  {
    hide Trim, Apply, Read, HasProfile, Resolve, Converted;
    ApplyReads(cfg, c, leaf);
    AcceptedResolves(c);
  }

  lemma AcceptedResolves(c: Change)
    requires Accepted(c)
    ensures Resolve(Trim(c.0)).Some?
  {}

  lemma {:induction false} EditTracks(running: Configuration, cfg: Configuration, changes: seq<Change>, leaf: Leaf)
    requires ApplyAll(cfg, changes).Good? && forall q: int :: HasProfile(running, q) ==> HasProfile(cfg, q)
    ensures var next := ApplyAll(cfg, changes).value;
            && (Read(next, leaf) == Read(cfg, leaf) || Explained(running, Marks(changes), leaf))
            && forall q: int :: HasProfile(running, q) ==> HasProfile(next, q)
    decreases |changes|
  {
    hide Trim, Apply, Read, HasProfile, Resolve, Converted, Explains;
    if changes != [] {
      var c := changes[0];
      AcceptedApplies(cfg, c);
      assert Accepted(c);
      ApplyTracks(running, cfg, c, leaf);
      var next := Apply(cfg, Trim(c.0), c.1).value;
      EditTracks(running, next, changes[1..], leaf);
      MarksFirst(changes);
      if Explains(running, Trim(c.0), leaf) {
        assert Trim(c.0) in Marks(changes);
      } else if Read(ApplyAll(next, changes[1..]).value, leaf) != Read(next, leaf) {
        var key :| key in Marks(changes[1..]) && Explains(running, key, leaf);
        assert key in Marks(changes);
      }
    }
  }

  lemma MarksFirst(changes: seq<Change>)
    requires changes != [] && Accepted(changes[0])
    ensures Marks(changes) == {Trim(changes[0].0)} + Marks(changes[1..])
  {}

  lemma {:induction false} MarksResolve(changes: seq<Change>, key: string)
    requires key in Marks(changes)
    ensures Resolve(key).Some? && FileOf(key).Some?
    decreases |changes|
  {
    hide Trim, Resolve, FileOf, Converted;
    if key == Trim(changes[0].0) {
      RoutingIsComplete(key, RB);
    } else {
      MarksResolve(changes[1..], key);
    }
  }

  // ----- the invariant

  /** The key, if it has a readable value, reads as the running configuration's value. */
  ghost predicate Matches(d: Bytes, k: Bytes, cfg: Configuration) {
    ReadScalar(d, k, false).None? || ReadScalar(d, k, false) == Some(LeafText(cfg, k))
  }

  ghost predicate FileAgrees(d: Bytes, f: File, cfg: Configuration)
    requires IsPlainFile(f)
  {
    Layout(d, KeysOf(f)) && forall k | k in KeysOf(f) :: Matches(d, k, cfg)
  }

  /** Every rr.conf and sib.conf leaf that its file holds reads as its running value. */
  ghost predicate DiskAgrees(s: Content) {
    forall f | f in s.disk && IsPlainFile(f) :: FileAgrees(s.disk[f], f, s.running)
  }

  /** The same rr.conf and sib.conf keys have a readable value. */
  ghost predicate SamePresence(s: Content, t: Content) {
    && t.disk.Keys == s.disk.Keys
    && forall f | f in s.disk && IsPlainFile(f) :: SameKeys(s.disk[f], t.disk[f], KeysOf(f))
  }

  ghost predicate SameKeys(d: Bytes, d': Bytes, keys: set<Bytes>) {
    forall k | k in keys :: ReadScalar(d', k, false).Some? == ReadScalar(d, k, false).Some?
  }

  ghost predicate Inv(s: Content) {
    Sound(s.running) && Sound(s.cand) && Tracked(s) && Marked(s) && DiskAgrees(s)
  }

  // ----- steps

  lemma EditKeepsInv(s: Content, changes: seq<Change>, isIP: string -> bool)
    requires Inv(s) && forall c | c in changes :: SafeChange(c)
    ensures Inv(Edited(s, changes, isIP))
  {
    hide Sound, SafeChange, Tracked, Marked, FileAgrees, ApplyAll, Valid, Marks, FilesOf;
    var t := Edited(s, changes, isIP);
    var next := Preview(s.cand, changes, isIP);
    if next.Good? {
      EditKeepsSound(s.cand, changes);
    }
    EditKeepsTracked(s, changes, isIP);
    EditKeepsMarked(s, changes, isIP);
  }

  lemma EditKeepsTracked(s: Content, changes: seq<Change>, isIP: string -> bool)
    requires Tracked(s)
    ensures Tracked(Edited(s, changes, isIP))
  {
    hide ApplyAll, Valid, Marks, FilesOf, Read, HasProfile, Explains;
    var t := Edited(s, changes, isIP);
    var next := Preview(s.cand, changes, isIP);
    forall leaf: Leaf ensures Read(t.cand, leaf) == Read(t.running, leaf) || Explained(t.running, t.dirtyKeys, leaf) {
      if next.Good? {
        EditTracks(s.running, s.cand, changes, leaf);
      }
      MoreKeys(s.running, s.dirtyKeys, t.dirtyKeys, leaf);
      MoreKeys(s.running, Marks(changes), t.dirtyKeys, leaf);
    }
    if next.Good? {
      EditTracks(s.running, s.cand, changes, Flat([]));
    }
  }

  lemma MoreKeys(running: Configuration, keys: set<string>, more: set<string>, leaf: Leaf)
    requires keys <= more
    ensures Explained(running, keys, leaf) ==> Explained(running, more, leaf)
  {
    hide Explains;
    if Explained(running, keys, leaf) {
      var key :| key in keys && Explains(running, key, leaf);
      assert key in more;
    }
  }

  lemma EditKeepsMarked(s: Content, changes: seq<Change>, isIP: string -> bool)
    requires Marked(s)
    ensures Marked(Edited(s, changes, isIP))
  {
    hide Preview, Marks, Resolve, FileOf;
    var t := Edited(s, changes, isIP);
    forall key | key in t.dirtyKeys ensures Resolve(key).Some? && FileOf(key).Some? && FileOf(key).value in t.dirty {
      if key in Marks(changes) {
        MarksResolve(changes, key);
      }
    }
  }

  lemma ResetKeepsInv(s: Content)
    requires Inv(s)
    ensures Inv(Reset(s))
  {
    hide Sound, FileAgrees, Read, HasProfile;
  }

  /** At a key that is not dirty, or whose file is not, candidate and running write the same text. */
  lemma CleanKey(s: Content, f: File, k: string)
    requires Inv(s) && FileOf(k) == Some(f) && (k !in s.dirtyKeys || f !in s.dirty)
    ensures LeafText(s.cand, k) == LeafText(s.running, k)
  {
    hide Sound, DiskAgrees, FileOf, Patches, KindOf, ParseQciKey, HasProfile;
    var leaf := Flat(k);
    if Read(s.cand, leaf) != Read(s.running, leaf) {
      var key :| key in s.dirtyKeys && Explains(s.running, key, leaf);
      ResolvesFlat(key, k);
    }
  }

  lemma LeafOfFile(f: File, k: string)
    requires IsPlainFile(f) && k in KeysOf(f)
    ensures FileOf(k) == Some(f)
  {
    hide FileOf, EnbPlace;
    RoutingIsComplete(k, f);
  }

  lemma ResolvesFlat(key: string, k: string)
    requires Resolve(key) == Some(Flat(k))
    ensures key == k
  {
    hide KindOf, ParseQciKey;
  }

  /** What the rendered file reads. */
  lemma RenderedAgrees(s: Content, f: File, order: seq<string>)
    requires Inv(s) && IsPlainFile(f) && f in s.dirty && f in s.disk && Lists(order, s.dirtyKeys)
    requires RenderFor(f, s.disk[f], order, s.cand).Some?
    ensures FileAgrees(RenderFor(f, s.disk[f], order, s.cand).value, f, s.cand)
    ensures SameKeys(s.disk[f], RenderFor(f, s.disk[f], order, s.cand).value, KeysOf(f))
  {
    hide Sound, Tracked, Marked, Layout, SafeValue, ReadScalar, LeafText, KeysOf;
    var d, keys := s.disk[f], KeysOf(f);
    var values := LeafTexts(s.cand, keys);
    RenderPlain(f, d, order, s.cand);
    forall k | k in values ensures SafeValue(values[k], keys) {
      SoundTexts(s.cand, f, k);
    }
    assert values.Keys == keys;
    BatchIsNonInterfering(d, order, values);
    var d' := RenderFor(f, d, order, s.cand).value;
    assert FileAgrees(d, f, s.running);
    forall k | k in keys ensures Matches(d', k, s.cand) {
      assert Matches(d, k, s.running);
      if k !in s.dirtyKeys {
        LeafOfFile(f, k);
        CleanKey(s, f, k);
      }
    }
  }

  /**
   Rendering a dirty file succeeds exactly when each of its dirty keys has a readable value in the
   file: the renderer replaces values and adds none.
   */
  lemma RenderSucceeds(s: Content, f: File, order: seq<string>)
    requires Inv(s) && IsPlainFile(f) && f in s.disk && Lists(order, s.dirtyKeys)
    ensures RenderFor(f, s.disk[f], order, s.cand).Some?
            <==> forall k | k in s.dirtyKeys && k in KeysOf(f) :: ReadScalar(s.disk[f], k, false).Some?
  {
    hide Sound, Tracked, Marked, Layout, SafeValue, ReadScalar, LeafText, KeysOf;
    var d, keys := s.disk[f], KeysOf(f);
    var values := LeafTexts(s.cand, keys);
    RenderPlain(f, d, order, s.cand);
    forall k | k in values ensures SafeValue(values[k], keys) {
      SoundTexts(s.cand, f, k);
    }
    assert values.Keys == keys && FileAgrees(d, f, s.running);
    BatchIsNonInterfering(d, order, values);
  }

  lemma KeyOfSib()
    ensures "reference_signal_power" in KeysOf(SIB)
  {}

  lemma MarkedFile(s: Content, k: string)
    requires Inv(s) && k in s.dirtyKeys
    ensures FileOf(k).Some? && FileOf(k).value in s.dirty
  {
    hide Sound, Tracked, DiskAgrees, FileOf, Resolve;
  }

  lemma RenderPlain(f: File, d: Bytes, order: seq<string>, cfg: Configuration)
    requires IsPlainFile(f)
    ensures RenderFor(f, d, order, cfg) == Render(d, order, LeafTexts(cfg, KeysOf(f)))
  {
    hide RR_KEYS, SIB_KEYS, Render, LeafTexts;
  }

  /** A file that is not dirty agrees with the candidate as it agrees with running. */
  lemma UntouchedAgrees(s: Content, f: File)
    requires Inv(s) && IsPlainFile(f) && f !in s.dirty && f in s.disk
    ensures FileAgrees(s.disk[f], f, s.cand)
  {
    hide Sound, Tracked, Marked, Layout, ReadScalar, LeafText, KeysOf;
    var d := s.disk[f];
    assert FileAgrees(d, f, s.running);
    forall k | k in KeysOf(f) ensures Matches(d, k, s.cand) {
      assert Matches(d, k, s.running);
      LeafOfFile(f, k);
      CleanKey(s, f, k);
    }
  }

  lemma CommitKeepsInv(s: Content, env: Env, isIP: string -> bool)
    requires Inv(s) && Lists(env.order, s.dirtyKeys)
    ensures Inv(Committed(s, env, isIP).content) && SamePresence(s, Committed(s, env, isIP).content)
  {
    hide Sound, Committed, Persists, FileAgrees, SameKeys, KeysOf, RenderFor, Read, HasProfile, Tracked;
    var r := Committed(s, env, isIP);
    CommitIsAtomic(s, env, isIP);
    if r.ok {
      forall f | f in r.content.disk && IsPlainFile(f)
        ensures FileAgrees(r.content.disk[f], f, s.cand) && SameKeys(s.disk[f], r.content.disk[f], KeysOf(f))
      {
        if f in s.dirty {
          PersistedRenders(s, env, isIP, f);
          RenderedAgrees(s, f, env.order);
        } else {
          UntouchedAgrees(s, f);
          KeysStay(s.disk[f], KeysOf(f));
        }
      }
      NothingPending(r.content);
    } else {
      FailedCommit(s, env, isIP);
      ResetKeepsInv(s);
      PresenceStays(s, r.content);
    }
  }

  lemma KeysStay(d: Bytes, keys: set<Bytes>)
    ensures SameKeys(d, d, keys)
  {}

  lemma PresenceStays(s: Content, t: Content)
    requires t.disk == s.disk
    ensures SamePresence(s, t)
  {}

  lemma PresenceCarries(s: Content, t: Content, u: Content)
    requires SamePresence(s, t) && SamePresence(t, u)
    ensures SamePresence(s, u)
  {
    hide ReadScalar, KeysOf;
    forall f | f in s.disk && IsPlainFile(f) ensures SameKeys(s.disk[f], u.disk[f], KeysOf(f)) {
      assert SameKeys(s.disk[f], t.disk[f], KeysOf(f)) && SameKeys(t.disk[f], u.disk[f], KeysOf(f));
    }
  }

  lemma PersistedRenders(s: Content, env: Env, isIP: string -> bool, f: File)
    requires Persists(s, env.faults, env.order, isIP) && f in s.dirty
    ensures f in s.disk && RenderFor(f, s.disk[f], env.order, s.cand).Some?
  {
    hide RenderFor, Valid;
  }

  lemma NothingPending(s: Content)
    requires s.cand == s.running && s.dirtyKeys == {}
    ensures Tracked(s) && Marked(s)
  {}

  lemma FailedCommit(s: Content, env: Env, isIP: string -> bool)
    requires !Committed(s, env, isIP).ok
    ensures Committed(s, env, isIP).content == s || Committed(s, env, isIP).content == Reset(s)
  {
    hide RenderFor, Valid;
    if Persists(s, env.faults, env.order, isIP) {
      UndoPersist(s, env.order);
    }
  }

  // ----- runs

  datatype Step = Edit(changes: seq<Change>) | Discard | Commit(env: Env)

  function Do(s: Content, step: Step, isIP: string -> bool): Content {
    match step
    case Edit(changes) => Edited(s, changes, isIP)
    case Discard => Reset(s)
    case Commit(env) => Committed(s, env, isIP).content
  }

  function Run(s: Content, steps: seq<Step>, isIP: string -> bool): Content {
    if steps == [] then s else Do(Run(s, steps[..|steps| - 1], isIP), steps[|steps| - 1], isIP)
  }

  /** Edits write safe strings; a commit renders the keys that are dirty then, in any order. */
  ghost predicate Proper(s: Content, step: Step) {
    match step
    case Edit(changes) => forall c | c in changes :: SafeChange(c)
    case Discard => true
    case Commit(env) => Lists(env.order, s.dirtyKeys)
  }

  lemma StepKeepsInv(s: Content, step: Step, isIP: string -> bool)
    requires Inv(s) && Proper(s, step)
    ensures Inv(Do(s, step, isIP)) && SamePresence(s, Do(s, step, isIP))
  {
    hide Inv, Committed, SafeChange, SamePresence;
    match step
    case Edit(changes) =>
      EditKeepsInv(s, changes, isIP);
      PresenceStays(s, Edited(s, changes, isIP));
    case Discard =>
      ResetKeepsInv(s);
      PresenceStays(s, Reset(s));
    case Commit(env) => CommitKeepsInv(s, env, isIP);
  }

  /**
   Disk agrees with running over every run. Starting from agreement, after any sequence of edits
   (failed ones included), discards and commits (with any failures outside restoring), every
   rr.conf and sib.conf leaf that its file holds reads as the running value, and the candidate
   differs from running only where a dirty key, with its file marked, accounts for it. No key
   gains or loses its value in its file.
   */
  lemma {:induction false} DiskAgreesWithRunning(s: Content, steps: seq<Step>, isIP: string -> bool)
    requires Inv(s)
    requires forall k | 0 <= k < |steps| :: Proper(Run(s, steps[..k], isIP), steps[k])
    ensures Inv(Run(s, steps, isIP)) && SamePresence(s, Run(s, steps, isIP))
    decreases |steps|
  {
    hide Inv, Do, Proper, SamePresence;
    if steps == [] {
      PresenceStays(s, s);
    } else {
      var n := |steps| - 1;
      var before := steps[..n];
      forall k | 0 <= k < n ensures Proper(Run(s, before[..k], isIP), before[k]) {
        assert before[..k] == steps[..k];
      }
      DiskAgreesWithRunning(s, before, isIP);
      StepKeepsInv(Run(s, before, isIP), steps[n], isIP);
      PresenceCarries(s, Run(s, before, isIP), Run(s, steps, isIP));
    }
  }
}
