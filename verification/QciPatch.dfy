/**
 When a profile block is well formed, and what replacing one of its fields does to it.
 */
module QciPatch {
  import opened Lexer
  import opened Splice
  import opened Cutting
  import opened Overlay
  import opened Batch
  import opened Numbers
  import opened Config
  import opened Brackets
  import opened Twins
  import opened Qci
  import opened QciFile

  /** Renderer and reader take the same assignment for the key, and if it is there its value is a scalar. */
  ghost predicate PlainKey(b: Bytes, g: Bytes) {
    && Assignment(b, g, 0, true) == Assignment(b, g, 0, false)
    && (Assignment(b, g, 0, false).Some? ==> ReadScalar(b, g, false).Some?)
  }

  ghost predicate WellFormed(b: Bytes) {
    IsBlock(b) && Layout(b, MANAGED) && forall g | g in MANAGED :: PlainKey(b, g)
  }

  // ----- replacement

  /** In a block, a bracket after the start of a value stops the scan of that value. */
  lemma BracketStops(b: Bytes, key: Bytes, fold: bool, sp: Span, k: nat)
    requires IsSpan(b, key, fold, sp) && BracketAt(b, k) && sp.keyStart < k
    ensures sp.valueStart <= k && StopAt(b, sp.valueStart, k)
  {
    AtValue(b, key, fold, sp);
    BracketNotInKey(b, sp, k);
    OpenRebase(b, 0, sp.valueStart, sp.valueStart, k);
  }

  lemma BracketNotInKey(b: Bytes, sp: Span, k: nat)
    requires k < |b| && sp.keyStart < k && IsBracket(b[k]) && sp.keyStart < |b| && IsIdentStart(b[sp.keyStart])
    requires SkipSpace(b, WordEnd(b, sp.keyStart)) < |b| && sp == SpanAt(b, sp.keyStart) && b[sp.equal] == '='
    ensures sp.valueStart <= k
  {
    WordRun(b, sp.keyStart);
    SpaceRun(b, sp.keyEnd);
    SpaceRun(b, sp.equal + 1);
  }

  /** A scalar of a block ends before any bracket that follows its key. */
  lemma ValueBeforeBracket(b: Bytes, key: Bytes, fold: bool, sp: Span, k: nat)
    requires IsSpan(b, key, fold, sp) && BracketAt(b, k) && sp.keyStart < k && ScalarEnd(b, sp.valueStart).Some?
    ensures ValueStop(b, sp.valueStart) < k
  {
    BracketStops(b, key, fold, sp, k);
    FirstStopIsFirst(b, sp.valueStart, sp.valueStart, k);
  }

  /** The value of a scalar holds no bracket. */
  lemma NoBracketInValue(b: Bytes, key: Bytes, fold: bool, sp: Span, k: nat)
    requires IsSpan(b, key, fold, sp) && sp.valueStart <= k < ValueStop(b, sp.valueStart)
    ensures !BracketAt(b, k)
  {
    if BracketAt(b, k) {
      BracketStops(b, key, fold, sp, k);
      NoStopBefore(b, sp.valueStart, k);
    }
  }

  /** The patch of a scalar by a safe one moves brackets without changing them. */
  lemma PatchIsTwin(d: Bytes, key: Bytes, sp: Span, e: nat, v: Bytes)
    requires Edits(d, key, sp, e, v) && e <= ValueStop(d, sp.valueStart)
    ensures Twin(d, Patched(d, sp.valueStart, e, v), sp.valueStart, e - sp.valueStart, |v|)
  {
    hide Twin, IsSpan, ScalarEnd, ValueStop, BracketAt, OpenAt, Meet, Seam, Firm, Tail, SafeScalar, CommentAt, ModeAt;
    var vs := sp.valueStart;
    var p, x, r := d[..vs], d[vs..e], d[e..];
    Reassemble(d, vs, e);
    PatchIsCut(d, key, sp, e, v);
    AfterScalar(d, vs, e);
    ReplacementOpens(d, key, sp, e, v);
    forall k | vs <= k < vs + |v| ensures !BracketAt(p + v + r, k) {
      SafeHasNoBracket(d, key, sp, e, v, k);
    }
    forall k | vs <= k < e ensures !BracketAt(p + x + r, k) {
      NoBracketInValue(d, key, false, sp, k);
    }
    CutIsTwin(p, x, v, r);
  }

  lemma SafeHasNoBracket(d: Bytes, key: Bytes, sp: Span, e: nat, v: Bytes, k: nat)
    requires Edits(d, key, sp, e, v) && sp.valueStart <= k < sp.valueStart + |v|
    ensures !BracketAt(Patched(d, sp.valueStart, e, v), k)
  {
    var vs := sp.valueStart;
    var d' := Patched(d, vs, e, v);
    EditMeet(d, key, sp, e, v);
    ValueMeet(d, vs, e, v);
    SafeFacts(v);
    MiddleStops(d[..vs], v, d[e..], 0, k - vs);
  }

  lemma ReplacementOpens(b: Bytes, key: Bytes, sp: Span, e: nat, v: Bytes)
    requires Edits(b, key, sp, e, v)
    ensures OpenAt(b, e) && OpenAt(Patched(b, sp.valueStart, e, v), sp.valueStart + |v|)
  {
    var vs := sp.valueStart;
    var b' := Patched(b, vs, e, v);
    EditMeet(b, key, sp, e, v);
    ValueMeet(b, vs, e, v);
    AtValue(b, key, false, sp);
    OpenAtTrim(b, vs, e);
    OpenRebase(b, 0, vs, vs, e);
    OpenRebase(b', 0, vs, vs, vs + |v|);
  }

  /** A twin of a block, changed inside, is a block. */
  lemma TwinIsBlock(b: Bytes, b': Bytes, at: nat, x: nat, v: nat)
    requires IsBlock(b) && Twin(b, b', at, x, v) && 0 < at && at + x < |b|
    ensures IsBlock(b')
  {
    assert Outside(at, x, 0) && Outside(at, x, |b| - 1);
  }

  /** The patched key is read back by both scanners. */
  lemma ReadBack(b: Bytes, key: Bytes, v: Bytes)
    requires PlainKey(b, key) && NotAComment(b, key) && Patch(b, key, v).Some? && SafeScalar(v)
    ensures forall fold: bool :: ReadScalar(Patch(b, key, v).value, key, fold) == Some(v)
  {
    hide Assignment, ScalarEnd, SafeScalar;
    var sp := Assignment(b, key, 0, false).value;
    var e := ScalarEnd(b, sp.valueStart).value;
    PatchedKey(b, key, v);
    assert b[..sp.valueStart] + v + b[e..] == b[..sp.valueStart] + (v + b[e..]);
    SafeStart(v);
    SameSpan(b, key, true, sp, v + b[e..]);
  }

  lemma SafeStart(v: Bytes)
    requires SafeScalar(v)
    ensures v != [] && !IsSpace(v[0])
  {}

  /** Replacing the number of one field. */
  lemma ReplacementEdits(b: Bytes, field: string, n: int)
    requires WellFormed(b) && field in QCI_FIELDS && Patch(b, field, FormatInt(n)).Some?
    ensures exists at, x, v :: BlockEdit(b, Patch(b, field, FormatInt(n)).value, at, x, v, field, FormatInt(n))
  {
    hide AssignAt, SpanAt, Assignment, ScalarEnd, ReadScalar, SafeScalar, NoWord, IsSpan, Replaces, Patched, Twin, FormatInt, IsBlock, ModeAt;
    var v, b' := FormatInt(n), Patch(b, field, FormatInt(n)).value;
    assert field in MANAGED && PlainKey(b, field) && NotAComment(b, field);
    PrintedNumbers(n);
    NumberIsSafe(v, field, false);
    PatchedKey(b, field, v);
    var sp := Assignment(b, field, 0, false).value;
    var e := ScalarEnd(b, sp.valueStart).value;
    ReadBack(b, field, v);
    PatchIsTwin(b, field, sp, e, v);
    ReplacementInside(b, field, sp, e);
    TwinIsBlock(b, b', sp.valueStart, e - sp.valueStart, |v|);
    forall g: string, fold: bool | g in MANAGED && g != field ensures ReadScalar(b', g, fold) == ReadScalar(b, g, fold) {
      assert PlainKey(b, g) && SeparateKeys(b, field, g);
      NumberIsSafe(v, g, fold);
      SeparateIsElsewhere(b, field, sp, e, g, fold);
      PatchLeavesOthers(b, field, sp, e, v, g, fold);
    }
    assert BlockEdit(b, b', sp.valueStart, e - sp.valueStart, |v|, field, v);
  }

  lemma ReplacementInside(b: Bytes, key: Bytes, sp: Span, e: nat)
    requires IsBlock(b) && IsSpan(b, key, false, sp) && ScalarEnd(b, sp.valueStart) == Some(e)
    ensures 0 < sp.valueStart <= e < |b|
  {
    if sp.keyStart < |b| - 1 {
      ValueBeforeBracket(b, key, false, sp, |b| - 1);
    }
  }

  lemma SeparateIsElsewhere(b: Bytes, key: Bytes, sp: Span, e: nat, g: Bytes, fold: bool)
    requires Assignment(b, key, 0, false) == Some(sp) && ScalarEnd(b, sp.valueStart) == Some(e)
    requires PlainKey(b, g) && SeparateKeys(b, key, g)
    ensures Elsewhere(b, sp, e, g, fold)
  {
    hide Assignment, ReadScalar, ValueStop;
    assert fold || !fold;
  }
}
