/**
 Rendering rb.conf: a batch of profile fields, and what the reader sees after it.
 */
module RbBatch {
  import opened Lexer
  import opened Numbers
  import opened Config
  import opened Edits
  import opened Rendering
  import Batch
  import opened Brackets
  import opened Twins
  import opened Qci
  import opened QciFile
  import opened QciProfiles
  import opened QciPatch
  import opened QciTheorem
  import opened QciReady

  /** Every profile block of the section is ready for edits. */
  ghost predicate ReadyFile(d: Bytes) {
    OneSection(d) && forall k | 0 <= k < |Objects(d)| :: Ready(Objects(d)[k])
  }

  /** The renderer finds profile `q` inside the section, at the first block that the reader reads as `q`. */
  ghost predicate Numbered(d: Bytes, q: int) {
    && Section(d).Some?
    && var r := FirstWith(d, Candidates(d), q);
       r.Some? && r.value < |Objects(d)| && forall k | 0 <= k < r.value :: ProfileOf(Objects(d)[k]).qci != q
  }

  /** What the reader gives for a field of a profile. */
  function FileLeaf(d: Bytes, q: int, field: string): Option<Value> {
    match ReadProfiles(d)
    case None => None
    case Some(ps) => Read(Configuration(map[], ps), Qci(q, field))
  }

  // ----- one patch

  /** What one patch leaves behind. */
  lemma PatchedBlocks(d: Bytes, q: int, field: string, n: int, j: nat)
    requires ReadyFile(d) && FirstWith(d, Candidates(d), q) == Some(j) && j < |Objects(d)|
    requires field in QCI_FIELDS && IsInt32(n) && PatchProfile(d, q, field, n).Some?
    ensures var d' := PatchProfile(d, q, field, n).value;
            && OneSection(d') && EditBlock(Objects(d)[j], field, n).Some?
            && var b' := EditBlock(Objects(d)[j], field, n).value;
               Ready(b') && ProfileOf(b').qci == ProfileOf(Objects(d)[j]).qci && Objects(d') == Objects(d)[j := b']
  {
    hide Candidates, FirstWith, EditBlock, Editable, Objects, SliceAt, PatchProfile, OneSection, Ready, QCI_FIELDS, FormatInt, ProfileOf, Twin, IsBlock, ReadScalar;
    PatchIsBlock(d, q, field, n, j);
    HasSection(d);
    SameObject(d, j);
    var b := Objects(d)[j];
    assert Ready(b);
    ReadyIsEditable(b, field);
    EditBlockIsExact(b, field, n);
    EditKeepsReady(b, field, n);
    var b' := EditBlock(b, field, n).value;
    var at, x, v :| BlockEdit(b, b', at, x, v, field, FormatInt(n));
    ObjectsAgain(d, j, b', at, x, v);
    EditedProfile(b, b', at, x, v, field, n);
  }

  /** A patch keeps the file ready and every profile in its place. */
  lemma PatchKeepsFile(d: Bytes, q: int, field: string, n: int)
    requires ReadyFile(d) && Numbered(d, q) && field in QCI_FIELDS && IsInt32(n) && PatchProfile(d, q, field, n).Some?
    ensures var d' := PatchProfile(d, q, field, n).value;
            ReadyFile(d') && forall p: int :: Numbered(d', p) == Numbered(d, p)
  {
    hide Candidates, FirstWith, Objects, PatchProfile, OneSection, Ready, QCI_FIELDS, ProfileOf, Section, RawProfiles, WithField, OnlyBlock, Editable, Settable, EditBlock;
    var d', j := PatchProfile(d, q, field, n).value, FirstWith(d, Candidates(d), q).value;
    PatchedBlocks(d, q, field, n, j);
    HasSection(d');
    assert Ready(Objects(d)[j]);
    ReadyIsEditable(Objects(d)[j], field);
    PatchIsExact(d, q, field, n, j);
    assert forall k | 0 <= k < |Objects(d)| :: ProfileOf(Objects(d')[k]).qci == ProfileOf(Objects(d)[k]).qci;
  }

  /** What the reader gives after a patch. */
  lemma PatchReads(d: Bytes, q: int, field: string, n: int, p: int, g: string)
    requires ReadyFile(d) && Numbered(d, q) && IsInt32(q) && q != 0 && field in QCI_FIELDS && IsInt32(n)
    requires PatchProfile(d, q, field, n).Some?
    ensures FileLeaf(PatchProfile(d, q, field, n).value, p, g) == if p == q && g == field then Some(I32(n)) else FileLeaf(d, p, g)
  {
    hide Candidates, FirstWith, Objects, PatchProfile, OneSection, Ready, QCI_FIELDS, ProfileOf, Section, ReadProfiles, SetField, FindProfile, Editable;
    var j := FirstWith(d, Candidates(d), q).value;
    assert Ready(Objects(d)[j]);
    ReadyIsEditable(Objects(d)[j], field);
    PatchIsTheEdit(d, q, field, n, j);
    ReaderHas(d, q);
    SetFieldFinds(ReadProfiles(d).value, q, field, n, p);
  }

  /** A numbered profile is among those the reader returns. */
  lemma ReaderHas(d: Bytes, q: int)
    requires ReadyFile(d) && Numbered(d, q) && IsInt32(q) && q != 0
    ensures ReadProfiles(d).Some? && FindProfile(ReadProfiles(d).value, q, 0).Some?
  {
    hide Candidates, FirstWith, Objects, OneSection, Ready, ProfileOf, Section, HasQci, SliceAt, RawProfiles, WellFormed;
    var j := FirstWith(d, Candidates(d), q).value;
    FoundHas(d, Candidates(d), q);
    SameObject(d, j);
    assert Ready(Objects(d)[j]);
    ReadyIsWellFormed(Objects(d)[j]);
    NumberIsRead(Objects(d)[j], q);
    ReadsObjects(d);
    var ps := ProfilesOf(Objects(d));
    assert ps[j].qci == q;
    KeptHas(ps, j);
  }

  lemma ReadyIsWellFormed(b: Bytes)
    requires Ready(b)
    ensures WellFormed(b)
  {
    hide IsBlock, PlainKey, BoundToBlock, Batch.SeparateKeys, Batch.NotAComment, CONTAINERS, QCI_FIELDS;
  }

  // ----- the batch

  /** The values of the profiles fit their Go type. */
  ghost predicate Int32Fields(cfg: Configuration) {
    forall i, f | 0 <= i < |cfg.profiles| && f in cfg.profiles[i].fields :: IsInt32(cfg.profiles[i].fields[f])
  }

  /** Every profile block that the renderer can find is numbered. */
  ghost predicate Tame(d: Bytes) {
    ReadyFile(d) && forall q: int :: FirstWith(d, Candidates(d), q).Some? ==> Numbered(d, q)
  }

  /** The key is a dirty key for the field of the profile. */
  predicate Names(key: string, q: int, field: string) {
    ParseQciKey(key) == Some((q, field))
  }

  ghost predicate NamedIn(order: seq<string>, q: int, field: string) {
    exists i :: 0 <= i < |order| && Names(order[i], q, field)
  }

  /** What the patch for one key presupposes, and what it is. */
  lemma KeyPatch(d: Bytes, key: string, cfg: Configuration)
    requires Tame(d) && Int32Fields(cfg) && PatchKey(d, key, cfg).Some?
    ensures ParseQciKey(key).Some?
    ensures var (q, field) := ParseQciKey(key).value;
            && field in QCI_FIELDS && Numbered(d, q) && Read(cfg, Qci(q, field)).Some? && Read(cfg, Qci(q, field)).value.I32?
            && IsInt32(Read(cfg, Qci(q, field)).value.i)
            && PatchKey(d, key, cfg) == PatchProfile(d, q, field, Read(cfg, Qci(q, field)).value.i)
  {
    hide ReadyFile, Numbered, ParseQciKey, QCI_FIELDS;
    var (q, field) := ParseQciKey(key).value;
    FoundBlock(d, q, field, Read(cfg, Qci(q, field)).value.i);
  }

  lemma FoundBlock(d: Bytes, q: int, field: string, n: int)
    requires PatchProfile(d, q, field, n).Some?
    ensures FirstWith(d, Candidates(d), q).Some?
  {
    hide FirstWith, Candidates, EditBlock;
  }

  /** The profile keys of the batch name profiles 1 to 9, the only ones an edit accepts. */
  ghost predicate PlainNumbers(order: seq<string>) {
    forall i | 0 <= i < |order| && ParseQciKey(order[i]).Some? :: 1 <= ParseQciKey(order[i]).value.0 <= 9
  }

  /**
   Batch rendering of rb.conf. Over a file whose profile blocks are ready, a batch that succeeds
   leaves the file ready with every profile in its place; each field named in the batch reads as
   the candidate's value and every other field of every profile reads as before.
   */
  lemma {:induction false} RbBatchIsExact(d: Bytes, order: seq<string>, cfg: Configuration, p: int, g: string)
    requires Tame(d) && Int32Fields(cfg) && PlainNumbers(order) && RenderRb(d, order, cfg).Some?
    ensures var d' := RenderRb(d, order, cfg).value;
            && Tame(d') && (forall q: int :: Numbered(d', q) == Numbered(d, q))
            && FileLeaf(d', p, g) == if NamedIn(order, p, g) then Read(cfg, Qci(p, g)) else FileLeaf(d, p, g)
    decreases |order|
  {
    hide Tame, Numbered, FileLeaf, PatchKey, Names, Int32Fields, Read, ParseQciKey;
    if order != [] {
      var rest := order[1..];
      RestIsPlain(order);
      NamedSplit(order, p, g);
      if QCI_PREFIX <= order[0] {
        var d1 := PatchKey(d, order[0], cfg).value;
        OneKey(d, order[0], cfg, p, g);
        RbBatchIsExact(d1, rest, cfg, p, g);
      } else {
        NotAName(order[0], p, g);
        RbBatchIsExact(d, rest, cfg, p, g);
      }
    }
  }

  lemma NamedSplit(order: seq<string>, p: int, g: string)
    requires order != []
    ensures NamedIn(order, p, g) <==> Names(order[0], p, g) || NamedIn(order[1..], p, g)
  {
    hide Names;
    if NamedIn(order, p, g) {
      var i :| 0 <= i < |order| && Names(order[i], p, g);
      assert i > 0 ==> order[1..][i - 1] == order[i];
    }
    if NamedIn(order[1..], p, g) {
      var i :| 0 <= i < |order[1..]| && Names(order[1..][i], p, g);
      assert order[i + 1] == order[1..][i];
    }
  }

  lemma NotAName(key: string, p: int, g: string)
    requires !(QCI_PREFIX <= key)
    ensures !Names(key, p, g)
  {}

  lemma OneKey(d: Bytes, key: string, cfg: Configuration, p: int, g: string)
    requires Tame(d) && Int32Fields(cfg) && PatchKey(d, key, cfg).Some?
    requires ParseQciKey(key).Some? ==> 1 <= ParseQciKey(key).value.0 <= 9
    ensures var d' := PatchKey(d, key, cfg).value;
            && Tame(d') && (forall q: int :: Numbered(d', q) == Numbered(d, q))
            && FileLeaf(d', p, g) == if Names(key, p, g) then Read(cfg, Qci(p, g)) else FileLeaf(d, p, g)
  {
    hide ReadyFile, Numbered, ParseQciKey, QCI_FIELDS, PatchKey, FileLeaf, Int32Fields, Read, FirstWith, Candidates;
    KeyPatch(d, key, cfg);
    var (q, field) := ParseQciKey(key).value;
    var n := Read(cfg, Qci(q, field)).value.i;
    PatchKeepsFile(d, q, field, n);
    PatchReads(d, q, field, n, p, g);
    SameFinds(d, q, field, n);
  }

  /** A patch lets the renderer find the profiles it found before. */
  lemma SameFinds(d: Bytes, q: int, field: string, n: int)
    requires ReadyFile(d) && Numbered(d, q) && field in QCI_FIELDS && IsInt32(n) && PatchProfile(d, q, field, n).Some?
    ensures var d' := PatchProfile(d, q, field, n).value;
            forall p: int :: FirstWith(d', Candidates(d'), p) == FirstWith(d, Candidates(d), p)
  {
    hide Candidates, FirstWith, Objects, PatchProfile, OneSection, Ready, QCI_FIELDS, ProfileOf, Section, RawProfiles, WithField, OnlyBlock, Editable, Settable;
    var j := FirstWith(d, Candidates(d), q).value;
    assert Ready(Objects(d)[j]);
    ReadyIsEditable(Objects(d)[j], field);
    PatchIsExact(d, q, field, n, j);
  }

  // ----- when a batch succeeds

  /** The file holds profile `q`, and its block has the field or a container for it. */
  ghost predicate Takes(d: Bytes, q: int, field: string) {
    Numbered(d, q) && Settable(Objects(d)[FirstWith(d, Candidates(d), q).value], field)
  }

  /** The key names a field of a profile that the configuration holds and the file can take. */
  ghost predicate Patchable(d: Bytes, key: string, cfg: Configuration) {
    && ParseQciKey(key).Some?
    && var (q, field) := ParseQciKey(key).value;
       field in QCI_FIELDS && Read(cfg, Qci(q, field)).Some? && Takes(d, q, field)
  }

  /** A single patch succeeds exactly when the file can take the field. */
  lemma PatchTakes(d: Bytes, q: int, field: string, n: int)
    requires Tame(d) && field in QCI_FIELDS && IsInt32(n)
    ensures PatchProfile(d, q, field, n).Some? <==> Takes(d, q, field)
  {
    hide Candidates, FirstWith, Objects, PatchProfile, OneSection, Ready, QCI_FIELDS, ProfileOf, Section, Editable, Settable, Sets;
    if FirstWith(d, Candidates(d), q).Some? {
      var j := FirstWith(d, Candidates(d), q).value;
      assert Numbered(d, q) && Ready(Objects(d)[j]);
      ReadyIsEditable(Objects(d)[j], field);
      PatchIsExact(d, q, field, n, j);
    } else if PatchProfile(d, q, field, n).Some? {
      FoundBlock(d, q, field, n);
    }
  }

  lemma KeyTakes(d: Bytes, key: string, cfg: Configuration)
    requires Tame(d) && Int32Fields(cfg)
    ensures PatchKey(d, key, cfg).Some? <==> Patchable(d, key, cfg)
  {
    hide Tame, Takes, ParseQciKey, QCI_FIELDS, PatchProfile;
    if ParseQciKey(key).Some? {
      var (q, field) := ParseQciKey(key).value;
      if field in QCI_FIELDS && Read(cfg, Qci(q, field)).Some? {
        var n := Read(cfg, Qci(q, field)).value.i;
        PatchTakes(d, q, field, n);
      }
    }
  }

  /** After a patch the file takes what it took before. */
  lemma TakesAgain(d: Bytes, q: int, field: string, n: int, p: int, g: string)
    requires ReadyFile(d) && Numbered(d, q) && field in QCI_FIELDS && g in QCI_FIELDS && IsInt32(n) && PatchProfile(d, q, field, n).Some?
    ensures Takes(PatchProfile(d, q, field, n).value, p, g) == Takes(d, p, g)
  {
    hide Candidates, FirstWith, Objects, PatchProfile, OneSection, Ready, QCI_FIELDS, ProfileOf, Section, Editable, Settable, EditBlock;
    var d', j := PatchProfile(d, q, field, n).value, FirstWith(d, Candidates(d), q).value;
    PatchKeepsFile(d, q, field, n);
    SameFinds(d, q, field, n);
    PatchedBlocks(d, q, field, n, j);
    assert Numbered(d', p) == Numbered(d, p);
    if Numbered(d, p) && FirstWith(d, Candidates(d), p).value == j {
      assert Ready(Objects(d)[j]);
      SettableAgain(Objects(d)[j], field, n, g);
    }
  }

  lemma PatchableAgain(d: Bytes, key: string, other: string, cfg: Configuration)
    requires Tame(d) && Int32Fields(cfg) && PatchKey(d, key, cfg).Some?
    ensures Patchable(PatchKey(d, key, cfg).value, other, cfg) == Patchable(d, other, cfg)
  {
    hide ReadyFile, Numbered, ParseQciKey, QCI_FIELDS, PatchKey, Int32Fields, Read, Takes, FirstWith, Candidates;
    KeyPatch(d, key, cfg);
    var (q, field) := ParseQciKey(key).value;
    if ParseQciKey(other).Some? && ParseQciKey(other).value.1 in QCI_FIELDS {
      TakesAgain(d, q, field, Read(cfg, Qci(q, field)).value.i, ParseQciKey(other).value.0, ParseQciKey(other).value.1);
    }
  }

  ghost predicate AllPatchable(d: Bytes, order: seq<string>, cfg: Configuration) {
    forall key | key in order && QCI_PREFIX <= key :: Patchable(d, key, cfg)
  }

  /**
   A batch succeeds exactly when each of its keys names a field of a profile that the candidate
   holds and that the file, as it is before the batch, can take.
   */
  lemma {:induction false} RbBatchSucceeds(d: Bytes, order: seq<string>, cfg: Configuration)
    requires Tame(d) && Int32Fields(cfg) && PlainNumbers(order)
    ensures RenderRb(d, order, cfg).Some? <==> AllPatchable(d, order, cfg)
    decreases |order|
  {
    hide Tame, Patchable, PatchKey, Int32Fields, ParseQciKey;
    if order != [] {
      var key, rest := order[0], order[1..];
      RestIsPlain(order);
      assert forall k :: k in order <==> k == key || k in rest;
      if !(QCI_PREFIX <= key) {
        RbBatchSucceeds(d, rest, cfg);
      } else {
        KeyTakes(d, key, cfg);
        if PatchKey(d, key, cfg).Some? {
          OneKey(d, key, cfg, 0, []);
          RbBatchSucceeds(PatchKey(d, key, cfg).value, rest, cfg);
          forall k ensures Patchable(PatchKey(d, key, cfg).value, k, cfg) == Patchable(d, k, cfg) {
            PatchableAgain(d, key, k, cfg);
          }
        }
      }
    }
  }

  lemma RestIsPlain(order: seq<string>)
    requires order != [] && PlainNumbers(order)
    ensures PlainNumbers(order[1..]) && (ParseQciKey(order[0]).Some? ==> 1 <= ParseQciKey(order[0]).value.0 <= 9)
  {
    hide ParseQciKey;
    var rest := order[1..];
    forall i | 0 <= i < |rest| && ParseQciKey(rest[i]).Some? ensures 1 <= ParseQciKey(rest[i]).value.0 <= 9 {
      assert rest[i] == order[i + 1];
    }
  }
}
