/**
 Editing one block of rb.conf, seen from the whole file: the qci_config section and every profile
 block are found again, and only the edited block's text changes.
 */
module QciFile {
  import opened Lexer
  import opened Splice
  import opened Cutting
  import opened Overlay
  import opened Config
  import opened Brackets
  import opened Twins
  import opened Qci

  /** The top-level block number `j` of a scan from `i`, as a text of its own. */
  lemma TopBlockIsBlock(d: Bytes, i: nat, j: nat)
    requires j < |TopBlocks(d, i)|
    ensures var b := TopBlocks(d, i)[j];
            && i <= b.start < b.end <= |d| && OpenAt(d, b.start) && IsBlock(SliceAt(d, b))
            && BracketAt(d, b.start) && BracketAt(d, b.end - 1)
  {
    hide TopBlocks;
    TopBlocksOrdered(d, i, j, j);
    var b := TopBlocks(d, i)[j];
    CloseIsStructural(d, b.start, b.end - 1, '{', '}');
    SliceBrackets(d, b.start, b.end, 0);
    SliceBrackets(d, b.start, b.end, b.end - 1 - b.start);
    assert d[b.start] != d[b.end - 1];
  }

  lemma SplitAt(d: Bytes, b: Block)
    requires b.start < b.end <= |d|
    ensures d[..b.start] + SliceAt(d, b) + d[b.end..] == d
  {}

  function WithBlock(d: Bytes, b: Block, b': Bytes): Bytes
    requires b.start < b.end <= |d|
  {
    d[..b.start] + b' + d[b.end..]
  }

  /** The edited file is a twin of the file. */
  lemma FileTwin(d: Bytes, i: nat, j: nat, b': Bytes, at: nat, x: nat, v: nat)
    requires j < |TopBlocks(d, i)| && IsBlock(b')
    requires Twin(SliceAt(d, TopBlocks(d, i)[j]), b', at, x, v)
    ensures var b := TopBlocks(d, i)[j];
            b.start < b.end <= |d| && Twin(d, WithBlock(d, b, b'), b.start + at, x, v)
  {
    hide TopBlocks, IsBlock, Twin, OpenAt, BracketAt;
    TopBlockIsBlock(d, i, j);
    var b := TopBlocks(d, i)[j];
    SplitAt(d, b);
    LiftTwin(d[..b.start], SliceAt(d, b), b', d[b.end..], at, x, v);
  }

  /** An assignment whose key and value start stand before the edit is found again. */
  lemma PrefixAssignment(p: Bytes, x: Bytes, y: Bytes, key: Bytes, fold: bool, sp: Span)
    requires Seam(p, x, y) && Tail(x) && Tail(y)
    requires Assignment(p + x, key, 0, fold) == Some(sp) && sp.valueStart < |p|
    ensures Assignment(p + y, key, 0, fold) == Some(sp)
  {
    hide AssignAt, Assignment, Tail, Seam;
    PrefixAssign(p, x, y, 0, sp.keyStart, key, fold);
    forall k: nat | k < sp.keyStart && AssignAt(p + y, 0, k, key, fold) ensures AssignAt(p + x, 0, k, key, fold) {
      PrefixAssign(p, x, y, 0, k, key, fold);
    }
    FirstAgain(p + x, p + y, |p|, 0, 0, key, fold, sp, sp.keyStart);
    FirstFacts(p + x, key, fold, sp);
    SpanBefore(p, p + x, p + y, sp);
  }

  lemma FirstFacts(d: Bytes, key: Bytes, fold: bool, sp: Span)
    requires Assignment(d, key, 0, fold) == Some(sp)
    ensures sp.keyStart < |d| && IsIdentStart(d[sp.keyStart]) && SkipSpace(d, WordEnd(d, sp.keyStart)) < |d|
    ensures sp == SpanAt(d, sp.keyStart)
  {}

  lemma AnchorStays(d: Bytes, b: Block, b': Bytes, key: Bytes, fold: bool, sp: Span)
    requires b.start < b.end <= |d| && IsBlock(SliceAt(d, b)) && IsBlock(b')
    requires Assignment(d, key, 0, fold) == Some(sp) && sp.valueStart < b.start
    ensures Assignment(WithBlock(d, b, b'), key, 0, fold) == Some(sp)
  {
    hide Assignment, IsBlock;
    var a, x, z := d[..b.start], SliceAt(d, b), d[b.end..];
    assert a + (x + z) == d && a + (b' + z) == WithBlock(d, b, b');
    BlockSeam(a, x, b', z);
    BlockTail(x, z);
    BlockTail(b', z);
    PrefixAssignment(a, x + z, b' + z, key, fold, sp);
  }

  lemma BlockTail(b: Bytes, z: Bytes)
    requires IsBlock(b)
    ensures Tail(b + z)
  {}

  // ----- texts of blocks

  /** A block that does not contain the stretch keeps its text. */
  lemma ImageText(d: Bytes, d': Bytes, at: nat, x: nat, v: nat, b: Block, b': Block)
    requires Twin(d, d', at, x, v) && IsImage(at, x, v, b, b') && b.end <= |d|
    requires b.end <= at || at + x <= b.start
    ensures SliceAt(d', b') == SliceAt(d, b)
  {
    hide BracketAt, OpenAt;
    assert b'.end - b'.start == b.end - b.start && b'.end <= |d'|;
    forall k | b.start <= k < b.end ensures d'[k - b.start + b'.start] == d[k] {
      assert Outside(at, x, k) && Image(at, x, v, k) == k - b.start + b'.start;
    }
    assert forall k | 0 <= k < b.end - b.start :: d'[b'.start..b'.end][k] == d[b.start..b.end][k];
  }

  /** All blocks but the one with the stretch keep their texts. */
  lemma ImageTexts(d: Bytes, d': Bytes, at: nat, x: nat, v: nat, i: nat, i': nat, j: nat, k: nat)
    requires Twin(d, d', at, x, v) && AreImages(at, x, v, TopBlocks(d, i), TopBlocks(d', i'))
    requires j < |TopBlocks(d, i)| && TopBlocks(d, i)[j].start < at && at + x < TopBlocks(d, i)[j].end
    requires k < |TopBlocks(d, i)| && k != j
    ensures SliceAt(d', TopBlocks(d', i')[k]) == SliceAt(d, TopBlocks(d, i)[k])
  {
    hide TopBlocks, Twin, SliceAt;
    var bs, bs' := TopBlocks(d, i), TopBlocks(d', i');
    assert IsImage(at, x, v, bs[k], bs'[k]);
    if k < j {
      TopBlocksOrdered(d, i, k, j);
      TopBlocksOrdered(d, i, k, k);
    } else {
      TopBlocksOrdered(d, i, j, k);
    }
    ImageText(d, d', at, x, v, bs[k], bs'[k]);
  }

  // ----- the edited block

  const MANAGED: set<string> := QCI_FIELDS + {"qci"}

  /** What an edit of one field does to the text of the block. */
  ghost predicate BlockEdit(b: Bytes, b': Bytes, at: nat, x: nat, v: nat, field: string, value: Bytes) {
    && IsBlock(b') && Twin(b, b', at, x, v) && 0 < at && at + x < |b|
    && (forall fold: bool :: ReadScalar(b', field, fold) == Some(value))
    && (forall g: string, fold: bool | g in MANAGED && g != field :: ReadScalar(b', g, fold) == ReadScalar(b, g, fold))
  }

  lemma EditedQci(b: Bytes, b': Bytes, at: nat, x: nat, v: nat, field: string, value: Bytes, qci: int)
    requires BlockEdit(b, b', at, x, v, field, value) && field in QCI_FIELDS
    ensures HasQci(b', qci) == HasQci(b, qci)
  {
    hide Twin, IsBlock, ReadScalar;
    assert "qci" in MANAGED;
    QciIsNoField();
  }

  lemma QciIsNoField()
    ensures "qci" !in QCI_FIELDS
  {
    assert |"qci"| == 3;
  }

  /** The renderer finds every profile where it was, the edited one included. */
  lemma RendererFindsAgain(d: Bytes, sp: Span, j: nat, b': Bytes, at: nat, x: nat, v: nat, field: string, value: Bytes, qci: int)
    requires Assignment(d, "qci_config", 0, false) == Some(sp) && j < |TopBlocks(d, sp.valueStart)|
    requires sp.valueStart < TopBlocks(d, sp.valueStart)[j].start
    requires field in QCI_FIELDS && BlockEdit(SliceAt(d, TopBlocks(d, sp.valueStart)[j]), b', at, x, v, field, value)
    ensures var b := TopBlocks(d, sp.valueStart)[j];
            && b.start < b.end <= |d|
            && var d' := WithBlock(d, b, b');
               AreImages(b.start + at, x, v, Candidates(d), Candidates(d')) && FirstWith(d', Candidates(d'), qci) == FirstWith(d, Candidates(d), qci)
  {
    hide TopBlocks, IsBlock, Twin, OpenAt, BracketAt, Assignment, HasQci, FirstWith, SliceAt;
    var i, b := sp.valueStart, TopBlocks(d, sp.valueStart)[j];
    TopBlockIsBlock(d, i, j);
    FileTwin(d, i, j, b', at, x, v);
    var d' := WithBlock(d, b, b');
    AnchorStays(d, b, b', "qci_config", false, sp);
    TwinBlocks(d, d', b.start + at, x, v, i);
    var bs, bs' := TopBlocks(d, i), TopBlocks(d', i);
    EditedText(d, b, b', at, x, v, bs'[j]);
    forall k | 0 <= k < |bs| ensures HasQci(SliceAt(d', bs'[k]), qci) == HasQci(SliceAt(d, bs[k]), qci) {
      if k == j {
        EditedQci(SliceAt(d, b), b', at, x, v, field, value, qci);
      } else {
        SliceLength(d, b);
        ImageTexts(d, d', b.start + at, x, v, i, i, j, k);
      }
    }
    SameFirst(d, d', bs, bs', qci);
  }

  lemma SliceLength(d: Bytes, b: Block)
    requires b.start <= b.end <= |d|
    ensures |SliceAt(d, b)| == b.end - b.start
  {}

  lemma EditedText(d: Bytes, b: Block, b': Bytes, at: nat, x: nat, v: nat, c: Block)
    requires b.start < b.end <= |d| && Twin(SliceAt(d, b), b', at, x, v)
    requires 0 < at && at + x < |SliceAt(d, b)| && IsImage(b.start + at, x, v, b, c)
    ensures SliceAt(WithBlock(d, b, b'), c) == b'
  {
    TwinSizes(SliceAt(d, b), b', at, x, v);
    var a, z := d[..b.start], d[b.end..];
    assert c == Block(|a|, |a| + |b'|);
    assert (a + b' + z)[|a|..|a| + |b'|] == b';
  }

  lemma {:induction false} SameFirst(d: Bytes, d': Bytes, bs: seq<Block>, bs': seq<Block>, qci: int)
    requires |bs| == |bs'| && forall k | 0 <= k < |bs| :: HasQci(SliceAt(d', bs'[k]), qci) == HasQci(SliceAt(d, bs[k]), qci)
    ensures FirstWith(d', bs', qci) == FirstWith(d, bs, qci)
    decreases |bs|
  {
    hide HasQci, SliceAt;
    if bs != [] && !HasQci(SliceAt(d, bs[0]), qci) {
      SameFirst(d, d', bs[1..], bs'[1..], qci);
    }
  }
}
