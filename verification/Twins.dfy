/**
 How twins arise: from a cut that touches no bracket, from such a cut inside a block, and from
 corresponding slices of twins.
 */
module Twins {
  import opened Lexer
  import opened Splice
  import opened Cutting
  import opened Brackets

  /** The two texts of a cut are read alike after the stretch, and neither stretch holds a bracket. */
  ghost predicate CleanCut(p: Bytes, x: Bytes, v: Bytes, r: Bytes) {
    && Seam(p, x + r, v + r)
    && Meet(p + x, p + v, r, 0, 0)
    && OpenAt(p + x + r, |p| + |x|) && OpenAt(p + v + r, |p| + |v|)
    && (r != [] ==> r[0] != '#' && r[0] != '/')
    && (forall k | |p| <= k < |p| + |x| :: !BracketAt(p + x + r, k))
    && (forall k | |p| <= k < |p| + |v| :: !BracketAt(p + v + r, k))
  }

  lemma CutBefore(p: Bytes, x: Bytes, y: Bytes, k: nat)
    requires Seam(p, x, y) && k < |p|
    ensures BracketAt(p + x, k) == BracketAt(p + y, k) && OpenAt(p + x, k) == OpenAt(p + y, k)
  {
    PrefixModes(p, x, y, 0, k);
    PrefixComment(p, x, y, k);
  }

  lemma CutAfter(u: Bytes, w: Bytes, r: Bytes, k: nat)
    requires Meet(u, w, r, 0, 0) && OpenAt(u + r, |u|) && OpenAt(w + r, |w|)
    requires k <= |r| && (r != [] ==> CommentAt(u + r, |u|) == CommentAt(w + r, |w|))
    ensures OpenAt(u + r, |u| + k) == OpenAt(w + r, |w| + k)
    ensures k < |r| ==> BracketAt(u + r, |u| + k) == BracketAt(w + r, |w| + k)
  {
    if k > 0 {
      SuffixModes(u, w, r, 0, 0, k);
      ShiftComment(u, w, r, k);
    }
  }

  lemma CutIsTwin(p: Bytes, x: Bytes, v: Bytes, r: Bytes)
    requires CleanCut(p, x, v, r)
    ensures Twin(p + x + r, p + v + r, |p|, |x|, |v|)
  {
    var d, d' := p + x + r, p + v + r;
    forall k | 0 <= k <= |d| && Outside(|p|, |x|, k)
      ensures var k' := Image(|p|, |x|, |v|, k);
              && OpenAt(d', k') == OpenAt(d, k)
              && (k < |d| ==> BracketAt(d', k') == BracketAt(d, k) && d'[k'] == d[k])
    {
      if k < |p| {
        assert d == p + (x + r) && d' == p + (v + r);
        CutBefore(p, x + r, v + r, k);
      } else {
        CutAfter(p + x, p + v, r, k - |p| - |x|);
      }
    }
  }

  /** A brace block that closes at its last character. */
  ghost predicate IsBlock(b: Bytes) {
    |b| >= 2 && BracketAt(b, 0) && b[0] == '{' && BracketAt(b, |b| - 1) && b[|b| - 1] == '}'
  }

  /** The brackets of a block, in place. */
  lemma BlockInPlace(a: Bytes, b: Bytes, z: Bytes, k: nat)
    requires IsBlock(b) && OpenAt(a + b + z, |a|) && k <= |b|
    ensures OpenAt(a + b + z, |a| + k) == OpenAt(b, k)
    ensures k < |b| ==> BracketAt(a + b + z, |a| + k) == BracketAt(b, k)
  {
    var d := a + b + z;
    assert d[|a|] == '{';
    assert BracketAt(d, |a|);
    assert d[|a|..|a| + |b|] == b;
    SliceBrackets(d, |a|, |a| + |b|, k);
  }

  lemma BlockMeet(a: Bytes, b: Bytes, b': Bytes, z: Bytes)
    requires IsBlock(b) && IsBlock(b') && OpenAt(a + b + z, |a|)
    ensures OpenAt(a + b' + z, |a|)
    ensures Meet(a + b, a + b', z, 0, 0)
    ensures OpenAt(a + b + z, |a + b|) && OpenAt(a + b' + z, |a + b'|)
    ensures z != [] ==> CommentAt(a + b + z, |a + b|) == CommentAt(a + b' + z, |a + b'|)
  {
    assert a + b + z == a + (b + z) && a + b' + z == a + (b' + z);
    PrefixModes(a, b + z, b' + z, 0, |a|);
    BlockInPlace(a, b, z, |b| - 1);
    BlockInPlace(a, b', z, |b'| - 1);
    BracketIsOpen(a + b + z, |a| + |b| - 1);
    BracketIsOpen(a + b' + z, |a| + |b'| - 1);
  }

  /** Twin blocks make twin files. */
  lemma LiftTwin(a: Bytes, b: Bytes, b': Bytes, z: Bytes, at: nat, x: nat, v: nat)
    requires IsBlock(b) && IsBlock(b') && OpenAt(a + b + z, |a|) && Twin(b, b', at, x, v)
    ensures Twin(a + b + z, a + b' + z, |a| + at, x, v)
  {
    hide BracketAt, OpenAt, IsBlock;
    var d, d' := a + b + z, a + b' + z;
    TwinSizes(b, b', at, x, v);
    BlockMeet(a, b, b', z);
    forall k | 0 <= k <= |d| && Outside(|a| + at, x, k)
      ensures var k' := Image(|a| + at, x, v, k);
              && OpenAt(d', k') == OpenAt(d, k)
              && (k < |d| ==> BracketAt(d', k') == BracketAt(d, k) && d'[k'] == d[k])
    {
      LiftPosition(a, b, b', z, at, x, v, k);
    }
    forall k | |a| + at <= k < |a| + at + x ensures !BracketAt(d, k) {
      BlockInPlace(a, b, z, k - |a|);
    }
    forall k | |a| + at <= k < |a| + at + v ensures !BracketAt(d', k) {
      BlockInPlace(a, b', z, k - |a|);
    }
  }

  lemma LiftPosition(a: Bytes, b: Bytes, b': Bytes, z: Bytes, at: nat, x: nat, v: nat, k: nat)
    requires IsBlock(b) && IsBlock(b') && OpenAt(a + b + z, |a|) && Twin(b, b', at, x, v)
    requires k <= |a + b + z| && Outside(|a| + at, x, k)
    ensures var d, d', k' := a + b + z, a + b' + z, Image(|a| + at, x, v, k);
            && k' <= |d'| && OpenAt(d', k') == OpenAt(d, k)
            && (k < |d| ==> k' < |d'| && BracketAt(d', k') == BracketAt(d, k) && d'[k'] == d[k])
  {
    hide BracketAt, OpenAt;
    TwinSizes(b, b', at, x, v);
    BlockMeet(a, b, b', z);
    if k < |a| {
      assert a + b + z == a + (b + z) && a + b' + z == a + (b' + z);
      BlockSeam(a, b, b', z);
      CutBefore(a, b + z, b' + z, k);
    } else if k < |a| + |b| {
      var i := k - |a|;
      assert Outside(at, x, i);
      BlockInPlace(a, b, z, i);
      BlockInPlace(a, b', z, Image(at, x, v, i));
    } else {
      CutAfter(a + b, a + b', z, k - |a| - |b|);
    }
  }

  lemma BlockSeam(a: Bytes, b: Bytes, b': Bytes, z: Bytes)
    requires IsBlock(b) && IsBlock(b')
    ensures Seam(a, b + z, b' + z)
  {}

  /** Corresponding slices of twins are twins. */
  lemma SliceTwin(d: Bytes, d': Bytes, s: Bytes, s': Bytes, a: nat, at: nat, x: nat, v: nat)
    requires Twin(d, d', at, x, v) && SliceOf(s, d, a) && SliceOf(s', d', a)
    requires a < at && at + x < a + |s| && |s'| == |s| - x + v
    ensures Twin(s, s', at - a, x, v)
  {
    forall k | 0 <= k <= |s| && Outside(at - a, x, k)
      ensures var k' := Image(at - a, x, v, k);
              && OpenAt(s', k') == OpenAt(s, k)
              && (k < |s| ==> BracketAt(s', k') == BracketAt(s, k) && s'[k'] == s[k])
    {
      assert Outside(at, x, a + k) && Image(at, x, v, a + k) == a + Image(at - a, x, v, k);
    }
    forall k | at - a <= k < at - a + x ensures !BracketAt(s, k) {
      assert BracketAt(s, k) == BracketAt(d, a + k);
    }
    forall k | at - a <= k < at - a + v ensures !BracketAt(s', k) {
      assert BracketAt(s', k) == BracketAt(d', a + k);
    }
  }
}
