/**
 The bracket structure of a text: which braces and parentheses are code, how they match, and the
 brace blocks that a scan meets at its top level. Two texts that differ in one stretch without
 brackets are twins: their structures correspond position by position.
 */
module Brackets {
  import opened Lexer
  import opened Splice

  /** Position `k` holds a bracket that is code. */
  predicate BracketAt(d: Bytes, k: nat) {
    CodeAt(d, 0, k) && IsBracket(d[k])
  }

  predicate OpenAt(d: Bytes, k: nat) {
    k <= |d| && Open(ModeAt(d, 0, k))
  }

  function Weight(d: Bytes, k: nat, open: char, close: char): int {
    if !BracketAt(d, k) then 0 else if d[k] == open then 1 else if d[k] == close then -1 else 0
  }

  /** Depth gained over [i, k), counted on the bracket structure of the whole text. */
  function Nesting(d: Bytes, i: nat, k: nat, open: char, close: char): int
    requires i <= k <= |d|
    decreases k
  {
    if k == i then 0 else Nesting(d, i, k - 1, open, close) + Weight(d, k - 1, open, close)
  }

  lemma SameCode(d: Bytes, i: nat, k: nat)
    requires OpenAt(d, i) && i <= k
    ensures CodeAt(d, i, k) == CodeAt(d, 0, k)
  {
    if k < |d| {
      OpenRebase(d, 0, i, i, k);
    }
  }

  lemma {:induction false} DepthIsNesting(d: Bytes, i: nat, k: nat, open: char, close: char)
    requires OpenAt(d, i) && i <= k <= |d| && IsBracket(open) && IsBracket(close)
    ensures Depth(d, i, k, open, close) == Nesting(d, i, k, open, close)
    decreases k
  {
    if k > i {
      DepthIsNesting(d, i, k - 1, open, close);
      SameCode(d, i, k - 1);
    }
  }

  /** A delimiter opened at `i` is closed at `p`, on the bracket structure of the whole text. */
  predicate ClosesAt(d: Bytes, i: nat, p: nat, open: char, close: char) {
    i <= p < |d| && BracketAt(d, p) && d[p] == close && d[p] != open && Nesting(d, i, p + 1, open, close) == 0
  }

  lemma CloseIsStructural(d: Bytes, i: nat, p: nat, open: char, close: char)
    requires OpenAt(d, i) && IsBracket(open) && IsBracket(close)
    ensures CloseAt(d, i, p, open, close) == ClosesAt(d, i, p, open, close)
  {
    if i <= p < |d| {
      SameCode(d, i, p);
      DepthIsNesting(d, i, p + 1, open, close);
    }
  }

  // ----- top-level blocks

  /** The first opening brace in code from `i` on. */
  function NextBrace(d: Bytes, i: nat): (r: Option<nat>)
    ensures r.Some? ==> i <= r.value < |d| && BracketAt(d, r.value) && d[r.value] == '{'
    decreases |d| - i
  {
    if i >= |d| then None
    else if BracketAt(d, i) && d[i] == '{' then Some(i)
    else NextBrace(d, i + 1)
  }

  lemma {:induction false} NextBraceIs(d: Bytes, i: nat, r: Option<nat>)
    requires r.Some? ==> i <= r.value && BracketAt(d, r.value) && d[r.value] == '{'
    requires forall k: nat | i <= k < (if r.Some? then r.value else |d|) :: !(BracketAt(d, k) && d[k] == '{')
    ensures NextBrace(d, i) == r
    decreases |d| - i
  {
    if i < |d| && r != Some(i) {
      NextBraceIs(d, i + 1, r);
    }
  }

  lemma {:induction false} NextBraceIsFirst(d: Bytes, i: nat, k: nat)
    requires i <= k && BracketAt(d, k) && d[k] == '{'
    ensures NextBrace(d, i).Some? && NextBrace(d, i).value <= k
    decreases k - i
  {
    if i < k {
      NextBraceIsFirst(d, i + 1, k);
    }
  }

  datatype Block = Block(start: nat, end: nat)

  /** The brace blocks met at the top level of a scan from `i`; the scan ends at an unmatched brace. */
  function TopBlocks(d: Bytes, i: nat): seq<Block>
    decreases |d| - i
  {
    match NextBrace(d, i)
    case None => []
    case Some(k) =>
      match MatchingClose(d, k, '{', '}')
      case None => []
      case Some(e) => [Block(k, e + 1)] + TopBlocks(d, e + 1)
  }

  lemma TopBlocksUnfold(d: Bytes, i: nat)
    ensures TopBlocks(d, i) ==
            match NextBrace(d, i)
            case None => []
            case Some(k) =>
              match MatchingClose(d, k, '{', '}')
              case None => []
              case Some(e) => [Block(k, e + 1)] + TopBlocks(d, e + 1)
  {}

  /** Top-level blocks are braces of code, closed where the scan says, in order and disjoint. */
  lemma {:induction false} TopBlocksOrdered(d: Bytes, i: nat, j: nat, k: nat)
    requires j <= k < |TopBlocks(d, i)|
    ensures var bs := TopBlocks(d, i);
            && i <= bs[k].start < bs[k].end <= |d|
            && (j < k ==> bs[j].end <= bs[k].start)
            && BracketAt(d, bs[k].start) && d[bs[k].start] == '{'
            && MatchingClose(d, bs[k].start, '{', '}') == Some(bs[k].end - 1)
    decreases |d| - i
  {
    hide MatchingClose, NextBrace, BracketAt;
    CloseIsInside(d, NextBrace(d, i).value, '{', '}');
    var e := MatchingClose(d, NextBrace(d, i).value, '{', '}').value;
    if k > 0 {
      TopBlocksOrdered(d, e + 1, if j > 0 then j - 1 else 0, k - 1);
    }
  }

  lemma {:induction false} TopBlocksSkip(d: Bytes, i: nat, j: nat)
    requires i <= j && forall k: nat | i <= k < j :: !BracketAt(d, k)
    ensures NextBrace(d, i) == NextBrace(d, j) && TopBlocks(d, i) == TopBlocks(d, j)
    decreases j - i
  {
    if i < j && i < |d| {
      TopBlocksSkip(d, i + 1, j);
    } else if i < j {
      assert NextBrace(d, j) == None;
    }
  }

  // ----- twins

  predicate Outside(at: nat, x: nat, k: nat) {
    k < at || at + x <= k
  }

  function Image(at: nat, x: nat, v: nat, k: nat): nat
    requires Outside(at, x, k)
  {
    if k < at then k else k - x + v
  }

  /** The texts have the same brackets, except that [at, at + x) became [at, at + v), without brackets. */
  ghost predicate Twin(d: Bytes, d': Bytes, at: nat, x: nat, v: nat) {
    && at + x <= |d| && |d'| == |d| - x + v
    && (forall k | 0 <= k < |d| && Outside(at, x, k) ::
          var k' := Image(at, x, v, k); BracketAt(d', k') == BracketAt(d, k) && d'[k'] == d[k])
    && (forall k | at <= k < at + x :: !BracketAt(d, k))
    && (forall k | at <= k < at + v :: !BracketAt(d', k))
    && (forall k | 0 <= k <= |d| && Outside(at, x, k) :: OpenAt(d', Image(at, x, v, k)) == OpenAt(d, k))
  }

  /** Every bracket of the new text is the image of one of the old text. */
  lemma TwinOrigin(d: Bytes, d': Bytes, at: nat, x: nat, v: nat, k': nat)
    requires Twin(d, d', at, x, v) && BracketAt(d', k')
    ensures k' < at || at + v <= k'
    ensures var k := if k' < at then k' else k' - v + x;
            Outside(at, x, k) && Image(at, x, v, k) == k' && BracketAt(d, k) && d[k] == d'[k']
  {
    var k := if k' < at then k' else k' - v + x;
    assert k' < at || at + v <= k';
    assert Outside(at, x, k);
  }

  lemma {:induction false} NestingSame(d: Bytes, d': Bytes, i: nat, k: nat, i': nat, o: char, c: char)
    requires i <= k <= |d| && i' + (k - i) <= |d'|
    requires forall j | i <= j < k :: Weight(d, j, o, c) == Weight(d', j - i + i', o, c)
    ensures Nesting(d', i', i' + (k - i), o, c) == Nesting(d, i, k, o, c)
    decreases k
  {
    if k > i {
      NestingSame(d, d', i, k - 1, i', o, c);
    }
  }

  lemma {:induction false} NestingAdds(d: Bytes, i: nat, m: nat, k: nat, o: char, c: char)
    requires i <= m <= k <= |d|
    ensures Nesting(d, i, k, o, c) == Nesting(d, i, m, o, c) + Nesting(d, m, k, o, c)
    decreases k
  {
    if k > m {
      NestingAdds(d, i, m, k - 1, o, c);
    }
  }

  lemma {:induction false} NestingFlat(d: Bytes, i: nat, k: nat, o: char, c: char)
    requires i <= k <= |d| && forall j | i <= j < k :: !BracketAt(d, j)
    ensures Nesting(d, i, k, o, c) == 0
    decreases k
  {
    if k > i {
      NestingFlat(d, i, k - 1, o, c);
    }
  }

  lemma WeightImage(d: Bytes, d': Bytes, at: nat, x: nat, v: nat, k: nat, o: char, c: char)
    requires Twin(d, d', at, x, v) && Outside(at, x, k) && k < |d|
    ensures Weight(d', Image(at, x, v, k), o, c) == Weight(d, k, o, c)
  {}

  lemma TwinSizes(d: Bytes, d': Bytes, at: nat, x: nat, v: nat)
    requires Twin(d, d', at, x, v)
    ensures at + x <= |d| && |d'| == |d| - x + v
  {}

  /** Nesting within one side of the stretch. */
  lemma SideNesting(d: Bytes, d': Bytes, at: nat, x: nat, v: nat, i: nat, k: nat, o: char, c: char)
    requires Twin(d, d', at, x, v) && i <= k <= |d| && (k <= at || at + x <= i)
    ensures var i' := if k <= at then i else i - x + v;
            i' + (k - i) <= |d'| && Nesting(d', i', i' + (k - i), o, c) == Nesting(d, i, k, o, c)
  {
    hide BracketAt, Weight;
    var i' := if k <= at then i else i - x + v;
    forall j | i <= j < k ensures Weight(d, j, o, c) == Weight(d', j - i + i', o, c) {
      assert Image(at, x, v, j) == j - i + i';
      WeightImage(d, d', at, x, v, j, o, c);
    }
    NestingSame(d, d', i, k, i', o, c);
  }

  /** Nesting over the stretch: nothing, in either text. */
  lemma FlatNesting(d: Bytes, d': Bytes, at: nat, x: nat, v: nat, o: char, c: char)
    requires Twin(d, d', at, x, v)
    ensures Nesting(d, at, at + x, o, c) == 0 && Nesting(d', at, at + v, o, c) == 0
  {
    NestingFlat(d, at, at + x, o, c);
    NestingFlat(d', at, at + v, o, c);
  }

  /** Nesting between corresponding positions corresponds. */
  lemma TwinNesting(d: Bytes, d': Bytes, at: nat, x: nat, v: nat, i: nat, p: nat, o: char, c: char)
    requires Twin(d, d', at, x, v) && i <= p < |d| && Outside(at, x, i) && Outside(at, x, p)
    ensures Image(at, x, v, i) <= Image(at, x, v, p) < |d'|
    ensures Nesting(d', Image(at, x, v, i), Image(at, x, v, p) + 1, o, c) == Nesting(d, i, p + 1, o, c)
  {
    hide Nesting, Twin;
    TwinSizes(d, d', at, x, v);
    if i < at && at + x <= p {
      SideNesting(d, d', at, x, v, i, at, o, c);
      SideNesting(d, d', at, x, v, at + x, p + 1, o, c);
      FlatNesting(d, d', at, x, v, o, c);
      NestingAdds(d, i, at, p + 1, o, c);
      NestingAdds(d, at, at + x, p + 1, o, c);
      NestingAdds(d', i, at, p - x + v + 1, o, c);
      NestingAdds(d', at, at + v, p - x + v + 1, o, c);
    } else {
      SideNesting(d, d', at, x, v, i, p + 1, o, c);
    }
  }

  /** A delimiter outside the stretch closes at the image of where it closed. */
  lemma TwinMatch(d: Bytes, d': Bytes, at: nat, x: nat, v: nat, i: nat, o: char, c: char)
    requires Twin(d, d', at, x, v) && i <= |d| && Outside(at, x, i) && OpenAt(d, i)
    requires IsBracket(o) && IsBracket(c)
    ensures match MatchingClose(d, i, o, c)
            case None => MatchingClose(d', Image(at, x, v, i), o, c) == None
            case Some(p) => i <= p < |d| && Outside(at, x, p)
                            && MatchingClose(d', Image(at, x, v, i), o, c) == Some(Image(at, x, v, p))
  {
    var i', r := Image(at, x, v, i), MatchingClose(d, i, o, c);
    assert OpenAt(d', i');
    forall p': nat | CloseAt(d', i', p', o, c)
      ensures p' < at || at + v <= p'
      ensures var p := if p' < at then p' else p' - v + x; Outside(at, x, p) && Image(at, x, v, p) == p' && CloseAt(d, i, p, o, c)
    {
      ImageOfClose(d, d', at, x, v, i, p', o, c);
    }
    if r.Some? {
      CloseImage(d, d', at, x, v, i, r.value, o, c);
    }
    hide Twin, CloseAt;
    var r' := if r.Some? then Some(Image(at, x, v, r.value)) else None;
    forall p': nat | p' < (if r'.Some? then r'.value else |d'|) ensures !CloseAt(d', i', p', o, c) {
      if CloseAt(d', i', p', o, c) {
        var p := if p' < at then p' else p' - v + x;
        FirstCloseIsFirst(d, i, i, o, c, p);
      }
    }
    MatchIsUnique(d', i', o, c, r');
  }

  lemma CloseImage(d: Bytes, d': Bytes, at: nat, x: nat, v: nat, i: nat, p: nat, o: char, c: char)
    requires Twin(d, d', at, x, v) && i <= |d| && Outside(at, x, i) && OpenAt(d, i)
    requires IsBracket(o) && IsBracket(c) && CloseAt(d, i, p, o, c)
    ensures i <= p < |d| && Outside(at, x, p) && CloseAt(d', Image(at, x, v, i), Image(at, x, v, p), o, c)
  {
    CloseIsStructural(d, i, p, o, c);
    assert Outside(at, x, p);
    assert OpenAt(d', Image(at, x, v, i));
    TwinNesting(d, d', at, x, v, i, p, o, c);
    CloseIsStructural(d', Image(at, x, v, i), Image(at, x, v, p), o, c);
    hide Nesting, CloseAt, OpenAt;
  }

  lemma ImageOfClose(d: Bytes, d': Bytes, at: nat, x: nat, v: nat, i: nat, p': nat, o: char, c: char)
    requires Twin(d, d', at, x, v) && i <= |d| && Outside(at, x, i) && OpenAt(d, i)
    requires IsBracket(o) && IsBracket(c) && CloseAt(d', Image(at, x, v, i), p', o, c)
    ensures p' < at || at + v <= p'
    ensures var p := if p' < at then p' else p' - v + x; Outside(at, x, p) && Image(at, x, v, p) == p' && CloseAt(d, i, p, o, c)
  {
    assert OpenAt(d', Image(at, x, v, i));
    CloseIsStructural(d', Image(at, x, v, i), p', o, c);
    TwinOrigin(d, d', at, x, v, p');
    var p := if p' < at then p' else p' - v + x;
    assert i <= p;
    TwinNesting(d, d', at, x, v, i, p, o, c);
    CloseIsStructural(d, i, p, o, c);
    hide Nesting, CloseAt, OpenAt;
  }

  /** The text of a block. */
  function SliceAt(d: Bytes, b: Block): Bytes {
    if b.start <= b.end <= |d| then d[b.start..b.end] else []
  }

  // ----- blocks of twins

  lemma TwinNextBrace(d: Bytes, d': Bytes, at: nat, x: nat, v: nat, i: nat)
    requires Twin(d, d', at, x, v) && (i <= at || at + x <= i)
    ensures var i' := if i <= at then i else i - x + v;
            match NextBrace(d, i)
            case None => NextBrace(d', i') == None
            case Some(k) => Outside(at, x, k) && NextBrace(d', i') == Some(Image(at, x, v, k))
  {
    var i', r := if i <= at then i else i - x + v, NextBrace(d, i);
    assert r.Some? ==> Outside(at, x, r.value);
    var r' := if r.Some? then Some(Image(at, x, v, r.value)) else None;
    forall k': nat | i' <= k' < (if r'.Some? then r'.value else |d'|) ensures !(BracketAt(d', k') && d'[k'] == '{') {
      if BracketAt(d', k') && d'[k'] == '{' {
        TwinOrigin(d, d', at, x, v, k');
        NextBraceIsFirst(d, i, if k' < at then k' else k' - v + x);
      }
    }
    NextBraceIs(d', i', r');
  }

  predicate IsImage(at: nat, x: nat, v: nat, b: Block, b': Block) {
    && b.start < b.end && Outside(at, x, b.start) && Outside(at, x, b.end - 1)
    && b' == Block(Image(at, x, v, b.start), Image(at, x, v, b.end - 1) + 1)
  }

  ghost predicate AreImages(at: nat, x: nat, v: nat, bs: seq<Block>, bs': seq<Block>) {
    |bs| == |bs'| && forall j | 0 <= j < |bs| :: IsImage(at, x, v, bs[j], bs'[j])
  }

  /** The top-level blocks of a twin are the images of the top-level blocks. */
  lemma {:induction false} TwinBlocks(d: Bytes, d': Bytes, at: nat, x: nat, v: nat, i: nat)
    requires Twin(d, d', at, x, v) && (i <= at || at + x <= i)
    ensures AreImages(at, x, v, TopBlocks(d, i), TopBlocks(d', if i <= at then i else i - x + v))
    decreases |d| - i
  {
    hide Twin, BracketAt, MatchingClose, NextBrace, AreImages, OpenAt, TopBlocks, CloseAt, ModeAt, Depth;
    NoImages(at, x, v);
    TopBlocksUnfold(d, i);
    TopBlocksUnfold(d', if i <= at then i else i - x + v);
    TwinNextBrace(d, d', at, x, v, i);
    var r := NextBrace(d, i);
    if r.Some? {
      var k := r.value;
      BracketIsOpen(d, k);
      TwinMatch(d, d', at, x, v, k, '{', '}');
      var m := MatchingClose(d, k, '{', '}');
      if m.Some? {
        var e := m.value;
        TwinBlocks(d, d', at, x, v, e + 1);
        var e' := Image(at, x, v, e);
        ImageNext(at, x, v, e);
        ConsImages(at, x, v, Block(k, e + 1), Block(Image(at, x, v, k), e' + 1), TopBlocks(d, e + 1), TopBlocks(d', e' + 1));
      }
    }
  }

  lemma ImageNext(at: nat, x: nat, v: nat, e: nat)
    requires Outside(at, x, e)
    ensures Image(at, x, v, e) + 1 == (if e + 1 <= at then e + 1 else e + 1 - x + v) && (e + 1 <= at || at + x <= e + 1)
  {}

  lemma NoImages(at: nat, x: nat, v: nat)
    ensures AreImages(at, x, v, [], [])
  {}

  lemma ConsImages(at: nat, x: nat, v: nat, b: Block, b': Block, bs: seq<Block>, bs': seq<Block>)
    requires IsImage(at, x, v, b, b') && AreImages(at, x, v, bs, bs')
    ensures AreImages(at, x, v, [b] + bs, [b'] + bs')
  {}

  lemma BracketIsOpen(d: Bytes, k: nat)
    requires BracketAt(d, k)
    ensures OpenAt(d, k) && OpenAt(d, k + 1) && ModeAt(d, 0, k + 1) == Code && k < |d|
  {}

  // ----- slices

  /** The brackets of a slice that starts at a bracket are those of the text. */
  lemma SliceBrackets(d: Bytes, a: nat, b: nat, k: nat)
    requires a < b <= |d| && BracketAt(d, a) && d[b - 1] != '/' && k <= b - a
    ensures OpenAt(d[a..b], k) == OpenAt(d, a + k)
    ensures k < b - a ==> BracketAt(d[a..b], k) == BracketAt(d, a + k)
  {
    var p, v, r := d[..a], d[a..b], d[b..];
    assert p + v + r == d;
    MiddleModes(p, v, r, a, k);
    OpenRebase(d, 0, a, a, a + k);
    if k < b - a {
      MiddleComment(p, v, r, k);
    }
  }

  ghost predicate SliceOf(s: Bytes, d: Bytes, a: nat) {
    && a + |s| <= |d|
    && (forall k | 0 <= k < |s| :: s[k] == d[a + k] && BracketAt(s, k) == BracketAt(d, a + k))
    && (forall k | 0 <= k <= |s| :: OpenAt(s, k) == OpenAt(d, a + k))
  }

  lemma SliceIsSlice(d: Bytes, a: nat, b: nat)
    requires a < b <= |d| && BracketAt(d, a) && d[b - 1] != '/'
    ensures SliceOf(d[a..b], d, a)
  {
    forall k | 0 <= k <= b - a
      ensures OpenAt(d[a..b], k) == OpenAt(d, a + k)
      ensures k < b - a ==> BracketAt(d[a..b], k) == BracketAt(d, a + k)
    {
      SliceBrackets(d, a, b, k);
    }
  }

  lemma SliceNesting(s: Bytes, d: Bytes, a: nat, i: nat, k: nat, o: char, c: char)
    requires SliceOf(s, d, a) && i <= k <= |s|
    ensures Nesting(d, a + i, a + k, o, c) == Nesting(s, i, k, o, c)
  {
    NestingSame(s, d, i, k, a + i, o, c);
  }

  /** A delimiter of the slice closes where it closes in the text, if that is inside the slice. */
  lemma SliceMatch(s: Bytes, d: Bytes, a: nat, i: nat, o: char, c: char)
    requires SliceOf(s, d, a) && i < |s| && OpenAt(s, i) && IsBracket(o) && IsBracket(c)
    ensures match MatchingClose(d, a + i, o, c)
            case None => MatchingClose(s, i, o, c) == None
            case Some(e) => MatchingClose(s, i, o, c) == if e < a + |s| then Some(e - a) else None
  {
    forall p: nat | i <= p < |s| ensures CloseAt(s, i, p, o, c) == CloseAt(d, a + i, a + p, o, c) {
      CloseIsStructural(s, i, p, o, c);
      CloseIsStructural(d, a + i, a + p, o, c);
      SliceNesting(s, d, a, i, p + 1, o, c);
    }
    hide SliceOf, CloseAt;
    var m := MatchingClose(d, a + i, o, c);
    CloseIsInside(d, a + i, o, c);
    CloseIsInside(s, i, o, c);
    var r := if m.Some? && m.value < a + |s| then Some(m.value - a) else None;
    assert r.Some? ==> CloseAt(d, a + i, a + r.value, o, c);
    forall p: nat | p < (if r.Some? then r.value else |s|) ensures !CloseAt(s, i, p, o, c) {
      if CloseAt(s, i, p, o, c) {
        CloseRange(s, i, p, o, c);
        FirstCloseIsFirst(d, a + i, a + i, o, c, a + p);
      }
    }
    MatchIsUnique(s, i, o, c, r);
  }

  lemma CloseRange(d: Bytes, i: nat, p: nat, o: char, c: char)
    requires CloseAt(d, i, p, o, c)
    ensures i <= p < |d|
  {}

  lemma CloseIsInside(d: Bytes, i: nat, o: char, c: char)
    ensures MatchingClose(d, i, o, c).Some? ==> i <= MatchingClose(d, i, o, c).value < |d|
  {}

  lemma SliceNextBrace(s: Bytes, d: Bytes, a: nat, i: nat)
    requires SliceOf(s, d, a) && i <= |s|
    ensures match NextBrace(s, i)
            case None => NextBrace(d, a + i).None? || NextBrace(d, a + i).value >= a + |s|
            case Some(k) => NextBrace(d, a + i) == Some(a + k)
  {
    var r, q := NextBrace(s, i), NextBrace(d, a + i);
    if q.Some? && q.value < a + |s| {
      assert BracketAt(s, q.value - a) && s[q.value - a] == '{';
      NextBraceIsFirst(s, i, q.value - a);
    }
    if r.Some? {
      assert BracketAt(d, a + r.value);
      NextBraceIsFirst(d, a + i, a + r.value);
    }
  }

  /** The blocks of a slice are the first blocks of the text. */
  lemma {:induction false} SliceBlocks(s: Bytes, d: Bytes, a: nat, i: nat)
    requires SliceOf(s, d, a) && i <= |s|
    ensures var bs, cs := TopBlocks(s, i), TopBlocks(d, a + i);
            |bs| <= |cs| && forall j | 0 <= j < |bs| :: cs[j] == Block(a + bs[j].start, a + bs[j].end) && bs[j].start < bs[j].end <= |s|
    decreases |s| - i
  {
    hide SliceOf, BracketAt, MatchingClose, NextBrace;
    SliceNextBrace(s, d, a, i);
    var r := NextBrace(s, i);
    if r.Some? {
      BracketIsOpen(s, r.value);
      SliceMatch(s, d, a, r.value, '{', '}');
      CloseIsInside(s, r.value, '{', '}');
      CloseIsInside(d, a + r.value, '{', '}');
      var m := MatchingClose(s, r.value, '{', '}');
      if m.Some? {
        SliceBlocks(s, d, a, m.value + 1);
      }
    }
  }
}
