/**
 Patches of sib.conf keep blocks and keys nested as its reader expects.
 */
module SibShape {
  import opened Lexer
  import opened Text
  import opened Numbers
  import opened Splice
  import opened Cutting
  import opened Overlay
  import opened Batch
  import opened Brackets
  import opened Twins
  import opened SibBlocks
  import opened QciPatch
  import opened Routing
  import QciProfiles

  // ----- where the reader looks

  datatype Path = One(a: string) | Two(a: string, b: string)

  /** The name under which ParseSIB looks for reference_signal_power. */
  const READER_POWER: string := "rs_power"

  /** The blocks in which ParseSIB looks for a name; reference_signal_power is read under another one. */
  function PathOf(k: string): Option<Path> {
    if k in {"q_rx_lev_min", "cell_barred"} then Some(One("sib1"))
    else if k in {"num_ra_preambles", "preamble_init_rx_target_pwr", "pwr_ramping_step"} then Some(Two("sib2", "rach_cnfg"))
    else if k == "default_paging_cycle" then Some(Two("sib2", "pcch_cnfg"))
    else if k in {"p0_nominal_pusch", "p0_nominal_pucch", "alpha"} then Some(Two("sib2", "ul_pwr_ctrl"))
    else if k == READER_POWER then Some(Two("sib2", "pdsch_cnfg"))
    else if k in {"t300", "t301", "t310", "n310", "t311"} then Some(Two("sib2", "ue_timers_and_constants"))
    else None
  }

  /** The names that only the reader uses. */
  const NAMES: set<string> := {
    "sib1", "sib2", "rach_cnfg", "pcch_cnfg", "ul_pwr_ctrl", "pdsch_cnfg", "ue_timers_and_constants", READER_POWER }

  /** What the reader finds for a leaf. */
  function ReaderText(d: Bytes, path: Path, key: Bytes): Option<Bytes> {
    match path
    case One(a) => InOne(d, a, key)
    case Two(a, b) => InTwo(d, a, b, key)
  }

  /** The number that the reader makes of it, as findInt32InBlock does. */
  function ReaderInt(d: Bytes, path: Path, key: Bytes): int {
    match ReaderText(d, path, key)
    case None => 0
    case Some(t) => ReadInt32(Unquote(t))
  }

  /** The first assignment to the key lies in the blocks where the reader looks. */
  ghost predicate Placed(d: Bytes, path: Path, key: Bytes) {
    match path
    case One(a) => NamedBlock(d, a).Some? && HoldsKey(d, NamedBlock(d, a).value, key)
    case Two(a, b) => Nested(d, a, b) && HoldsKey(d, NamedBlock(d, b).value, key)
  }

  lemma PlacedReads(d: Bytes, path: Path, key: Bytes)
    requires Placed(d, path, key)
    ensures ReaderText(d, path, key) == ReadScalar(d, key, true)
  {
    hide NamedBlock, HoldsKey, ReadScalar, InOne, InTwo;
    match path
    case One(a) => OneBlockReads(d, a, key);
    case Two(a, b) => TwoBlocksRead(d, a, b, key);
  }

  // ----- after a patch

  /** The first assignment to the name has moved with the text. */
  ghost predicate KeyMoves(d: Bytes, d': Bytes, at: nat, x: nat, v: nat, g: Bytes) {
    match Assignment(d, g, 0, true)
    case None => Assignment(d', g, 0, true) == None
    case Some(s) =>
      && Outside(at, x, s.keyStart) && Assignment(d', g, 0, true).Some?
      && Assignment(d', g, 0, true).value.keyStart == Image(at, x, v, s.keyStart)
  }

  /** The block of the name has moved with the text. */
  ghost predicate BlockMoves(d: Bytes, d': Bytes, at: nat, x: nat, v: nat, g: Bytes) {
    NamedBlock(d, g).Some? ==>
      NamedBlock(d', g).Some? && IsImage(at, x, v, NamedBlock(d, g).value, NamedBlock(d', g).value)
  }

  lemma HoldsAgain(d: Bytes, d': Bytes, at: nat, x: nat, v: nat, b: Block, b': Block, g: Bytes)
    requires IsImage(at, x, v, b, b') && KeyMoves(d, d', at, x, v, g) && HoldsKey(d, b, g)
    ensures HoldsKey(d', b', g)
  {
    hide Assignment;
  }

  lemma PlacedAgain(d: Bytes, d': Bytes, at: nat, x: nat, v: nat, path: Path, key: Bytes)
    requires Placed(d, path, key) && KeyMoves(d, d', at, x, v, key)
    requires match path
             case One(a) => BlockMoves(d, d', at, x, v, a)
             case Two(a, b) => BlockMoves(d, d', at, x, v, a) && BlockMoves(d, d', at, x, v, b) && KeyMoves(d, d', at, x, v, b)
    ensures Placed(d', path, key)
  {
    hide NamedBlock, HoldsKey, KeyMoves;
    match path
    case One(a) => HoldsAgain(d, d', at, x, v, NamedBlock(d, a).value, NamedBlock(d', a).value, key);
    case Two(a, b) =>
      HoldsAgain(d, d', at, x, v, NamedBlock(d, a).value, NamedBlock(d', a).value, b);
      HoldsAgain(d, d', at, x, v, NamedBlock(d, b).value, NamedBlock(d', b).value, key);
  }

  /** A name that stands apart from the patched value is found again where it has moved to. */
  lemma FoundMoves(d: Bytes, d': Bytes, sp: Span, e: nat, v: nat, g: Bytes)
    requires FoundAgain(d, d', sp.valueStart, v - (e - sp.valueStart), g, true) && sp.valueStart <= e
    requires Elsewhere(d, sp, e, g, true) && sp.keyStart < sp.valueStart
    ensures KeyMoves(d, d', sp.valueStart, e - sp.valueStart, v, g)
  {
    hide Assignment, ScalarText, ValueStop;
    var a := Assignment(d, g, 0, true);
    if a.Some? {
      SpanOrder(d, g, a.value);
    }
  }

  lemma SpanOrder(d: Bytes, g: Bytes, sp: Span)
    requires Assignment(d, g, 0, true) == Some(sp)
    ensures sp.keyStart < sp.valueStart <= ValueStop(d, sp.valueStart)
  {}

  /** So is its block. */
  lemma NamedMoves(d: Bytes, d': Bytes, sp: Span, e: nat, v: nat, g: Bytes)
    requires FoundAgain(d, d', sp.valueStart, v - (e - sp.valueStart), g, true) && sp.valueStart <= e
    requires Elsewhere(d, sp, e, g, true) && sp.keyStart < sp.valueStart && Twin(d, d', sp.valueStart, e - sp.valueStart, v)
    ensures BlockMoves(d, d', sp.valueStart, e - sp.valueStart, v, g)
  {
    hide Assignment, ScalarText, ValueStop, Twin, MatchingClose, NamedBlock, ModeAt, BracketAt, OpenAt, CommentAt;
    if NamedBlock(d, g).Some? {
      var b, at, x := NamedBlock(d, g).value, sp.valueStart, e - sp.valueStart;
      BlockFacts(d, g, b);
      var a := Assignment(d, g, 0, true).value;
      SpanOrder(d, g, a);
      assert Outside(at, x, b.start);
      var a' := Assignment(d', g, 0, true).value;
      assert a'.valueStart == Image(at, x, v, b.start);
      BracketIsOpen(d, b.start);
      TwinMatch(d, d', at, x, v, b.start, '{', '}');
      TwinChar(d, d', at, x, v, b.start);
      QciProfiles.SpaceIsSkipped(d', g, true, a');
      NamedIs(d', g, a', Image(at, x, v, b.end - 1));
    }
  }

  lemma TwinChar(d: Bytes, d': Bytes, at: nat, x: nat, v: nat, k: nat)
    requires Twin(d, d', at, x, v) && k < |d| && Outside(at, x, k)
    ensures Image(at, x, v, k) < |d'| && d'[Image(at, x, v, k)] == d[k]
  {
    hide BracketAt, OpenAt;
  }

  // ----- the shape of the file

  /** Renderer and reader find the same first assignment to the key. */
  ghost predicate Agreeing(d: Bytes, k: Bytes) {
    Assignment(d, k, 0, true) == Assignment(d, k, 0, false)
  }

  /** A key with a path, if it is assigned, has its first assignment in the reader's block. */
  ghost predicate InPlace(d: Bytes, k: string) {
    PathOf(k).Some? && Assignment(d, k, 0, true).Some? ==> Placed(d, PathOf(k).value, k)
  }

  ghost predicate Shape(d: Bytes) {
    && Layout(d, SIB_KEYS)
    && (forall k | k in SIB_KEYS :: Agreeing(d, k) && InPlace(d, k))
    && (forall a | a in NAMES :: ReaderApart(d, SIB_KEYS, a))
    && InPlace(d, READER_POWER)
  }

  /** The new value contains neither a key nor a name of the reader's, in any case. */
  ghost predicate Nameless(v: Bytes) {
    (forall k | k in SIB_KEYS :: NoWord(v, k, true)) && (forall a | a in NAMES :: NoWord(v, a, true))
  }

  lemma PathsAreNames(k: string)
    requires PathOf(k).Some?
    ensures match PathOf(k).value case One(a) => a in NAMES case Two(a, b) => a in NAMES && b in NAMES
  {}

  /** What a patch of the key at [sp.valueStart, e) is. */
  ghost predicate Patching(d: Bytes, d': Bytes, key: Bytes, sp: Span, e: nat, v: Bytes) {
    && Edits(d, key, sp, e, v) && Assignment(d, key, 0, false) == Some(sp) && sp.keyStart < sp.valueStart <= e <= ValueStop(d, sp.valueStart)
    && d' == Patched(d, sp.valueStart, e, v)
  }

  /** A name of the reader's that stands apart moves with the text, and so does its block. */
  lemma NameMoves(d: Bytes, d': Bytes, key: Bytes, sp: Span, e: nat, v: Bytes, g: Bytes)
    requires Patching(d, d', key, sp, e, v) && SeparateIn(d, key, false, g, true) && NoWord(v, g, true)
    ensures FoundAgain(d, d', sp.valueStart, |v| - (e - sp.valueStart), g, true)
    ensures KeyMoves(d, d', sp.valueStart, e - sp.valueStart, |v|, g) && BlockMoves(d, d', sp.valueStart, e - sp.valueStart, |v|, g)
  {
    hide Assignment, IsSpan, Replaces, Patched, FoundAgain, ValueStop, NoWord, Elsewhere, KeyMoves, BlockMoves, Twin, SeparateIn, Edits;
    ApartIsElsewhere(d, key, sp, e, g, true);
    PatchLeavesOthers(d, key, sp, e, v, g, true);
    FoundMoves(d, d', sp, e, |v|, g);
    PatchIsTwin(d, key, sp, e, v);
    NamedMoves(d, d', sp, e, |v|, g);
  }

  /** Another managed key moves with the text and is found alike by both scanners. */
  lemma OtherKeyMoves(d: Bytes, d': Bytes, key: Bytes, sp: Span, e: nat, v: Bytes, k: Bytes)
    requires Patching(d, d', key, sp, e, v) && SeparateKeys(d, key, k) && Agreeing(d, k)
    requires NoWord(v, k, true) && NoWord(v, k, false)
    ensures KeyMoves(d, d', sp.valueStart, e - sp.valueStart, |v|, k) && Agreeing(d', k)
  {
    hide Assignment, IsSpan, Replaces, Patched, ValueStop, NoWord, Elsewhere, KeyMoves, BlockMoves, Twin, Edits, ScalarText;
    NameMoves(d, d', key, sp, e, v, k);
    ApartIsElsewhere(d, key, sp, e, k, false);
    PatchLeavesOthers(d, key, sp, e, v, k, false);
  }

  /** The patched key stays where it is, for both scanners. */
  lemma PatchedKeyStays(d: Bytes, d': Bytes, key: Bytes, sp: Span, e: nat, v: Bytes)
    requires Patching(d, d', key, sp, e, v) && Agreeing(d, key) && Assignment(d', key, 0, false) == Some(sp)
    ensures KeyMoves(d, d', sp.valueStart, e - sp.valueStart, |v|, key) && Agreeing(d', key)
  {
    hide Assignment, SafeScalar, ScalarEnd;
    assert d' == d[..sp.valueStart] + (v + d[e..]);
    SafeStart(v);
    SameSpan(d, key, true, sp, v + d[e..]);
  }

  lemma PlaceMoves(d: Bytes, d': Bytes, at: nat, x: nat, v: nat, k: string)
    requires InPlace(d, k) && KeyMoves(d, d', at, x, v, k)
    requires forall a | a in NAMES :: KeyMoves(d, d', at, x, v, a) && BlockMoves(d, d', at, x, v, a)
    ensures InPlace(d', k)
  {
    hide Placed, PathOf, NAMES, BlockMoves, Assignment;
    if PathOf(k).Some? && Assignment(d', k, 0, true).Some? {
      PathsAreNames(k);
      PlacedAgain(d, d', at, x, v, PathOf(k).value, k);
    }
  }

  /** A patch of a managed key keeps the shape. */
  lemma PatchKeepsShape(d: Bytes, key: Bytes, v: Bytes)
    requires Shape(d) && key in SIB_KEYS && SafeValue(v, SIB_KEYS) && Nameless(v) && Patch(d, key, v).Some?
    ensures Shape(Patch(d, key, v).value)
  {
    hide Assignment, ScalarEnd, ValueStop, ReadScalar, SafeScalar, NoWord, IsSpan, Replaces, Patched, FoundAgain, SIB_KEYS, NAMES, READER_POWER, Edits,
      InPlace, Agreeing, KeyMoves, BlockMoves, ReaderApart, SeparateIn, CommentAt, Patching, NotAComment;
    var d' := Patch(d, key, v).value;
    var sp := Assignment(d, key, 0, false).value;
    var e := ScalarEnd(d, sp.valueStart).value;
    assert NotAComment(d, key);
    PatchKeepsLayout(d, key, v, SIB_KEYS);
    PatchedKey(d, key, v);
    IsPatching(d, key, sp, e, v);
    var at, x := sp.valueStart, e - sp.valueStart;
    forall a | a in NAMES
      ensures KeyMoves(d, d', at, x, |v|, a) && BlockMoves(d, d', at, x, |v|, a) && ReaderApart(d', SIB_KEYS, a)
    {
      assert ReaderApart(d, SIB_KEYS, a) && NoWord(v, a, true);
      ApartOne(d, SIB_KEYS, a, key);
      NameMoves(d, d', key, sp, e, v, a);
      PatchLeavesReader(d, key, v, SIB_KEYS, a);
    }
    forall k | k in SIB_KEYS ensures Agreeing(d', k) && InPlace(d', k) {
      assert Agreeing(d, k) && InPlace(d, k) && NoWord(v, k, true);
      if k == key {
        PatchedKeyStays(d, d', key, sp, e, v);
      } else {
        assert SeparateKeys(d, key, k);
        OtherKeyMoves(d, d', key, sp, e, v, k);
      }
      PlaceMoves(d, d', at, x, |v|, k);
    }
    PowerIsName();
    PlaceMoves(d, d', at, x, |v|, READER_POWER);
  }

  lemma PowerIsName()
    ensures READER_POWER in NAMES && PathOf(READER_POWER) == Some(Two("sib2", "pdsch_cnfg"))
  {}

  lemma ApartOne(d: Bytes, keys: set<Bytes>, other: Bytes, a: Bytes)
    requires ReaderApart(d, keys, other) && a in keys
    ensures SeparateIn(d, a, false, other, true)
  {}

  lemma IsPatching(d: Bytes, key: Bytes, sp: Span, e: nat, v: Bytes)
    requires Edits(d, key, sp, e, v) && Assignment(d, key, 0, false) == Some(sp) && ScalarEnd(d, sp.valueStart) == Some(e)
    ensures Patching(d, Patched(d, sp.valueStart, e, v), key, sp, e, v)
  {}

  /** So does a batch. */
  lemma {:induction false} RenderKeepsShape(d: Bytes, order: seq<Bytes>, values: map<Bytes, Bytes>)
    requires Shape(d) && values.Keys == SIB_KEYS
    requires forall k | k in order && k in values :: SafeValue(values[k], SIB_KEYS) && Nameless(values[k])
    requires Render(d, order, values).Some?
    ensures Shape(Render(d, order, values).value)
    decreases |order|
  {
    hide Shape, SafeValue, Patch, Nameless, SIB_KEYS;
    if order != [] {
      var k, rest := order[0], order[1..];
      if k !in values {
        RenderKeepsShape(d, rest, values);
      } else {
        PatchKeepsShape(d, k, values[k]);
        RenderKeepsShape(Patch(d, k, values[k]).value, rest, values);
      }
    }
  }

  lemma AbsentIsNotRead(d: Bytes, path: Path, key: Bytes)
    requires Assignment(d, key, 0, true) == None
    ensures ReaderText(d, path, key) == None == ReadScalar(d, key, true)
  {
    hide Assignment, InOne, InTwo;
    match path
    case One(a) => AbsentReads(d, a, a, key);
    case Two(a, b) => AbsentReads(d, a, b, key);
  }

  /** In a file of that shape, the reader finds for a key in its block what a scan of the file finds. */
  lemma ShapeReads(d: Bytes, k: string)
    requires InPlace(d, k) && PathOf(k).Some?
    ensures ReaderText(d, PathOf(k).value, k) == ReadScalar(d, k, true)
  {
    hide Assignment, Placed, ReaderText, PathOf, ReadScalar;
    if Assignment(d, k, 0, true).Some? {
      PlacedReads(d, PathOf(k).value, k);
    } else {
      AbsentIsNotRead(d, PathOf(k).value, k);
    }
  }
}
