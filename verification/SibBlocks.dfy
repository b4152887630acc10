/**
 The reader of sib.conf looks for each key inside a named block, or a block nested in one. Where
 blocks and keys are nested as the reader expects, it reads what a scan of the whole file reads.
 */
module SibBlocks {
  import opened Lexer
  import opened Splice
  import opened Cutting
  import opened Overlay
  import opened Brackets
  import opened QciProfiles
  import P = TextParser
  import R = Renderer

  /** extractNamedBlock: the brace block that is the first value of the name, in any case. */
  function NamedBlock(d: Bytes, name: Bytes): Option<Block> {
    match Assignment(d, name, 0, true)
    case None => None
    case Some(sp) =>
      var open := SkipSpace(d, sp.valueStart);
      if open >= |d| || d[open] != '{' then None
      else match MatchingClose(d, open, '{', '}') case None => None case Some(e) => Some(Block(open, e + 1))
  }

  function NamedText(d: Bytes, name: Bytes): Option<Bytes> {
    match NamedBlock(d, name) case None => None case Some(b) => Some(SliceAt(d, b))
  }

  method ExtractNamedBlock(src: Bytes, name: Bytes) returns (r: Option<Bytes>)
    ensures r == NamedText(src, name)
  {
    var valueStart := P.FindAssignmentInText(src, name, 0);
    if valueStart.None? {
      return None;
    }
    var open := R.SkipASCIIWhitespace(src, valueStart.value);
    if open >= |src| || src[open] != '{' {
      return None;
    }
    var end := P.FindMatchingDelimiter(src, open, '{', '}');
    if end.None? {
      return None;
    }
    CloseIsInside(src, open, '{', '}');
    return Some(src[open..end.value + 1]);
  }

  /** What the reader finds for a key inside a block, and inside a block of a block. */
  function InOne(d: Bytes, a: Bytes, key: Bytes): Option<Bytes> {
    match NamedText(d, a) case None => None case Some(x) => ReadScalar(x, key, true)
  }

  function InTwo(d: Bytes, a: Bytes, b: Bytes, key: Bytes): Option<Bytes> {
    match NamedText(d, a) case None => None case Some(x) => InOne(x, b, key)
  }

  // ----- the text of a block

  /** A text that starts with an opening brace, read in code, and ends with a closing one. */
  ghost predicate Braced(p: Bytes, x: Bytes, r: Bytes) {
    |x| >= 2 && x[0] == '{' && x[|x| - 1] == '}' && ModeAt(p + x + r, 0, |p|) == Code
  }

  lemma BracedModes(p: Bytes, x: Bytes, r: Bytes, k: nat)
    requires Braced(p, x, r) && k <= |x|
    ensures ModeAt(p + x + r, 0, |p| + k) == ModeAt(x, 0, k)
  {
    MiddleModes(p, x, r, 0, k);
  }

  /** A token of the block is followed by something of the block. */
  lemma BracedSettled(x: Bytes, s: nat)
    requires |x| >= 2 && x[|x| - 1] == '}' && s < |x| - 1
    ensures Settled(x, s)
  {
    WordRun(x, s);
    SpaceRun(x, WordEnd(x, s));
  }

  /** Assignments of the block are those of the file. */
  lemma BracedAssign(p: Bytes, x: Bytes, r: Bytes, s: nat, key: Bytes, fold: bool)
    requires Braced(p, x, r) && s < |x| - 1
    ensures AssignAt(p + x + r, 0, |p| + s, key, fold) == AssignAt(x, 0, s, key, fold)
  {
    BracedModes(p, x, r, s);
    BracedSettled(x, s);
    assert p + x + r == p + (x + r);
    ShiftToken(p, x + r, s, key, fold);
    PrefixToken(x, r, s, key, fold);
    SameToken(x + r, s, x, s, WordEnd(x, s) - s, key, fold);
  }

  /** The span of an assignment of the block, in the file and in the block. */
  lemma BracedSpan(p: Bytes, x: Bytes, r: Bytes, s: nat, key: Bytes, fold: bool)
    requires Braced(p, x, r) && s < |x| - 1 && AssignAt(x, 0, s, key, fold)
    ensures AssignAt(p + x + r, 0, |p| + s, key, fold) && SpanAt(p + x + r, |p| + s) == Shift(SpanAt(x, s), |p|)
    ensures SpanAt(x, s).valueStart < |x|
  {
    BracedAssign(p, x, r, s, key, fold);
    BracedSettled(x, s);
    var j := SkipSpace(x, WordEnd(x, s));
    SpaceRun(x, j + 1);
    assert p + x + r == p + (x + r);
    PrefixToken(x, r, s, key, fold);
    PrefixSpace(x, r, j + 1);
    ShiftSpan(p, x + r, s);
  }

  /** A scan of a value of the block reads the same in the file. */
  lemma BracedScan(p: Bytes, x: Bytes, r: Bytes, f: nat)
    requires Braced(p, x, r) && 0 < f < |x| && Open(ModeAt(x, 0, f))
    requires ModeAt(x, 0, |x| - 1) != Text && ModeAt(x, 0, |x| - 1) != Escape && ModeAt(x, 0, |x| - 1) != Comment
    ensures |p| + f <= |p + x + r| && ScalarText(p + x + r, |p| + f) == ScalarText(x, f)
  {
    hide ScalarText, ModeAt;
    var y := x + r;
    assert p + x + r == p + y && [] + y == y && x + [] == x;
    ScanAfter(p, [], y, f);
    BraceStops(x, r, f);
    ScanBefore(x, r, [], f);
  }

  lemma BraceStops(x: Bytes, r: Bytes, f: nat)
    requires |x| >= 2 && x[|x| - 1] == '}' && f < |x| && Open(ModeAt(x, 0, f)) && Open(ModeAt(x, 0, |x| - 1))
    ensures Seam(x, r, []) && ValueStop(x + r, f) < |x|
  {
    assert x + [] == x;
    OpenRebase(x, 0, f, f, |x| - 1);
    PrefixModes(x, r, [], f, |x| - 1);
    assert StopAt(x + r, f, |x| - 1);
    FirstStopIsFirst(x + r, f, f, |x| - 1);
  }

  // ----- one block

  /** The block `b` of the file. */
  lemma BlockFacts(d: Bytes, name: Bytes, b: Block)
    requires NamedBlock(d, name) == Some(b)
    ensures b.start + 1 < b.end <= |d| && ModeAt(d, 0, b.start) == Code
    ensures BracketAt(d, b.start) && BracketAt(d, b.end - 1) && d[b.end - 1] == '}' && d[b.start] == '{'
    ensures Assignment(d, name, 0, true).Some? && Assignment(d, name, 0, true).value.valueStart == b.start
    ensures MatchingClose(d, b.start, '{', '}') == Some(b.end - 1)
  {
    hide Assignment, ModeAt, MatchingClose;
    var sp := Assignment(d, name, 0, true).value;
    SpaceIsSkipped(d, name, true, sp);
    FirstIsCode(d, name, sp);
    CloseIsInside(d, b.start, '{', '}');
    CloseIsStructural(d, b.start, b.end - 1, '{', '}');
  }

  /** The file around the block. */
  lemma BlockParts(d: Bytes, name: Bytes, b: Block)
    requires NamedBlock(d, name) == Some(b)
    ensures b.start + 1 < b.end <= |d| && |SliceAt(d, b)| == b.end - b.start && BracketAt(d, b.end - 1)
    ensures d[..b.start] + SliceAt(d, b) + d[b.end..] == d && Braced(d[..b.start], SliceAt(d, b), d[b.end..])
  {
    hide NamedBlock, ModeAt, BracketAt, MatchingClose, Assignment;
    BlockFacts(d, name, b);
    var x := SliceAt(d, b);
    assert x[0] == d[b.start] && x[|x| - 1] == d[b.end - 1];
  }

  lemma FirstIsCode(d: Bytes, name: Bytes, sp: Span)
    requires Assignment(d, name, 0, true) == Some(sp)
    ensures sp.valueStart <= |d| && ModeAt(d, 0, sp.valueStart) == Code
  {
    AtValue(d, name, true, sp);
  }

  /** The block holds the first assignment to the key. */
  ghost predicate HoldsKey(d: Bytes, b: Block, key: Bytes) {
    var x := Assignment(d, key, 0, true);
    x.Some? && b.start < x.value.keyStart < b.end - 1
  }

  /** The first assignment of the file, if the block holds it, is the first of the block. */
  lemma HeldIsFirst(d: Bytes, name: Bytes, b: Block, key: Bytes)
    requires NamedBlock(d, name) == Some(b) && HoldsKey(d, b, key)
    ensures var x, y := Assignment(d, key, 0, true).value, Assignment(SliceAt(d, b), key, 0, true);
            y.Some? && x == Shift(y.value, b.start) && y.value.valueStart < |SliceAt(d, b)| && 0 < y.value.keyStart
  {
    hide AssignAt, SpanAt, Assignment, ModeAt, NamedBlock, BracketAt, MatchingClose;
    BlockParts(d, name, b);
    var p, t, r := d[..b.start], SliceAt(d, b), d[b.end..];
    var x := Assignment(d, key, 0, true).value;
    var s := x.keyStart - b.start;
    FirstFactsIn(d, key, x);
    BracedAssign(p, t, r, s, key, true);
    BracedSpan(p, t, r, s, key, true);
    forall k: nat | k < s ensures !AssignAt(t, 0, k, key, true) {
      BracedAssign(p, t, r, k, key, true);
      if AssignAt(d, 0, b.start + k, key, true) {
        AssignmentIsFirst(d, key, 0, true, b.start + k);
      }
    }
    AssignmentIsUnique(t, key, 0, true, s);
  }

  lemma FirstFactsIn(d: Bytes, key: Bytes, x: Span)
    requires Assignment(d, key, 0, true) == Some(x)
    ensures AssignAt(d, 0, x.keyStart, key, true) && x == SpanAt(d, x.keyStart)
  {}

  /** A key that the block holds is read in the block as in the file. */
  lemma HeldReads(d: Bytes, name: Bytes, b: Block, key: Bytes)
    requires NamedBlock(d, name) == Some(b) && HoldsKey(d, b, key)
    ensures ReadScalar(SliceAt(d, b), key, true) == ReadScalar(d, key, true)
  {
    hide Assignment, ModeAt, NamedBlock, BracketAt, MatchingClose, ScalarText;
    BlockParts(d, name, b);
    HeldIsFirst(d, name, b, key);
    var p, t, r := d[..b.start], SliceAt(d, b), d[b.end..];
    var y := Assignment(t, key, 0, true).value;
    FirstIsCode(t, key, y);
    LastIsOpen(p, t, r);
    BracedScan(p, t, r, y.valueStart);
  }

  lemma LastIsOpen(p: Bytes, t: Bytes, r: Bytes)
    requires Braced(p, t, r) && BracketAt(p + t + r, |p| + (|t| - 1))
    ensures Open(ModeAt(t, 0, |t| - 1))
  {
    hide ModeAt, BracketAt, Braced;
    BracedSize(p, t, r);
    var n := |t| - 1;
    BracedModes(p, t, r, n);
    BracketIsOpen(p + t + r, |p| + n);
  }

  lemma BracedSize(p: Bytes, t: Bytes, r: Bytes)
    requires Braced(p, t, r)
    ensures |t| >= 2
  {}

  /** In a block that holds the key, the reader reads what a scan of the file reads. */
  lemma OneBlockReads(d: Bytes, a: Bytes, key: Bytes)
    requires NamedBlock(d, a).Some? && HoldsKey(d, NamedBlock(d, a).value, key)
    ensures InOne(d, a, key) == ReadScalar(d, key, true)
  {
    hide NamedBlock, Assignment, ReadScalar;
    HeldReads(d, a, NamedBlock(d, a).value, key);
  }

  /** A key that the file does not assign is not assigned in a block. */
  lemma AbsentInBlock(d: Bytes, a: Bytes, key: Bytes)
    requires Assignment(d, key, 0, true) == None && NamedBlock(d, a).Some?
    ensures Assignment(NamedText(d, a).value, key, 0, true) == None
  {
    hide NamedBlock, Assignment, ModeAt, BracketAt, AssignAt, Braced, SliceAt;
    var b := NamedBlock(d, a).value;
    BlockParts(d, a, b);
    var x := SliceAt(d, b);
    if Assignment(x, key, 0, true).Some? {
      var s := Assignment(x, key, 0, true).value.keyStart;
      FirstFactsIn(x, key, Assignment(x, key, 0, true).value);
      AssignHasRoom(x, s, key);
      BracedSize(d[..b.start], x, d[b.end..]);
      BracedAssign(d[..b.start], x, d[b.end..], s, key, true);
      AssignmentIsFirst(d, key, 0, true, b.start + s);
    }
  }

  lemma AssignHasRoom(x: Bytes, s: nat, key: Bytes)
    requires AssignAt(x, 0, s, key, true)
    ensures s < |x| - 1
  {}

  /** So the reader finds nothing for it, in a block or in a block of a block. */
  lemma AbsentReads(d: Bytes, a: Bytes, b: Bytes, key: Bytes)
    requires Assignment(d, key, 0, true) == None
    ensures InOne(d, a, key) == None && InTwo(d, a, b, key) == None
  {
    hide NamedBlock, Assignment, SliceAt;
    if NamedBlock(d, a).Some? {
      AbsentInBlock(d, a, key);
      var x := NamedText(d, a).value;
      if NamedBlock(x, b).Some? {
        AbsentInBlock(x, b, key);
      }
    }
  }

  // ----- a block in a block

  /** The first block named `a` holds the first block named `b`. */
  ghost predicate Nested(d: Bytes, a: Bytes, b: Bytes) {
    var x, y := NamedBlock(d, a), NamedBlock(d, b);
    x.Some? && y.Some? && HoldsKey(d, x.value, b) && y.value.end < x.value.end
  }

  /** The inner block, found in the text of the outer one. */
  lemma InnerBlock(d: Bytes, a: Bytes, b: Bytes)
    requires Nested(d, a, b)
    ensures var x, y := NamedBlock(d, a).value, NamedBlock(d, b).value;
            x.start < y.start && NamedBlock(SliceAt(d, x), b) == Some(Block(y.start - x.start, y.end - x.start))
  {
    hide Assignment, ModeAt, BracketAt, MatchingClose, OpenAt, NamedBlock, SliceAt, SliceOf, Braced;
    var x, y := NamedBlock(d, a).value, NamedBlock(d, b).value;
    BlockFacts(d, a, x);
    BlockFacts(d, b, y);
    HeldIsFirst(d, a, x, b);
    var t := SliceAt(d, x);
    var sp := Assignment(t, b, 0, true).value;
    SliceFacts(d, x, sp.valueStart);
    SpaceIsSkipped(t, b, true, sp);
    SliceMatch(t, d, x.start, sp.valueStart, '{', '}');
    NamedIs(t, b, sp, y.end - 1 - x.start);
  }

  lemma SliceFacts(d: Bytes, x: Block, k: nat)
    requires x.start + 1 < x.end <= |d| && BracketAt(d, x.start) && d[x.end - 1] == '}' && k < x.end - x.start
    ensures SliceOf(SliceAt(d, x), d, x.start) && |SliceAt(d, x)| == x.end - x.start && SliceAt(d, x)[k] == d[x.start + k]
  {
    SliceIsSlice(d, x.start, x.end);
  }

  lemma NamedIs(t: Bytes, name: Bytes, sp: Span, e: nat)
    requires Assignment(t, name, 0, true) == Some(sp) && sp.valueStart < |t| && t[sp.valueStart] == '{'
    requires SkipSpace(t, sp.valueStart) == sp.valueStart && MatchingClose(t, sp.valueStart, '{', '}') == Some(e)
    ensures NamedBlock(t, name) == Some(Block(sp.valueStart, e + 1))
  {
    hide Assignment, MatchingClose;
  }

  lemma TwoBlocksRead(d: Bytes, a: Bytes, b: Bytes, key: Bytes)
    requires Nested(d, a, b) && HoldsKey(d, NamedBlock(d, b).value, key)
    ensures InTwo(d, a, b, key) == ReadScalar(d, key, true)
  {
    hide Assignment, ReadScalar, NamedBlock, SliceAt, BracketAt, MatchingClose, ModeAt;
    var x, y := NamedBlock(d, a).value, NamedBlock(d, b).value;
    InnerBlock(d, a, b);
    BlockFacts(d, a, x);
    BlockFacts(d, b, y);
    InnerText(d, x, y);
    HeldReads(d, b, y, key);
  }

  lemma InnerText(d: Bytes, x: Block, y: Block)
    requires x.start <= y.start <= y.end <= x.end <= |d|
    ensures SliceAt(SliceAt(d, x), Block(y.start - x.start, y.end - x.start)) == SliceAt(d, y)
  {
    SliceOfSlice(d, x, Block(y.start - x.start, y.end - x.start));
  }
}
