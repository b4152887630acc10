/**
 How an edit of one stretch of a text moves through the lexical structure: what stands before
 the edit is read as before, what stands after it is read as before once the two scans meet in
 the same mode, and the new stretch is read in place as it is read on its own.
 */
module Splice {
  import opened Lexer

  // ----- before the edit

  predicate Slash(x: Bytes) {
    x != [] && x[0] == '/'
  }

  /** A comment opener cannot straddle the end of `p` in one text and not in the other. */
  predicate Seam(p: Bytes, x: Bytes, y: Bytes) {
    p != [] && p[|p| - 1] == '/' ==> Slash(x) == Slash(y)
  }

  lemma PrefixComment(p: Bytes, x: Bytes, y: Bytes, i: nat)
    requires i < |p| && Seam(p, x, y)
    ensures CommentAt(p + x, i) == CommentAt(p + y, i)
  {}

  lemma {:induction false} PrefixModes(p: Bytes, x: Bytes, y: Bytes, f: nat, i: nat)
    requires f <= i <= |p| && Seam(p, x, y)
    ensures ModeAt(p + x, f, i) == ModeAt(p + y, f, i)
    decreases i
  {
    if i > f {
      PrefixModes(p, x, y, f, i - 1);
      PrefixComment(p, x, y, i - 1);
    }
  }

  lemma PrefixStops(p: Bytes, x: Bytes, y: Bytes, f: nat, i: nat)
    requires i < |p| && Seam(p, x, y)
    ensures StopAt(p + x, f, i) == StopAt(p + y, f, i)
  {
    if f <= i {
      PrefixModes(p, x, y, f, i);
      PrefixComment(p, x, y, i);
    }
  }

  lemma {:induction false} PrefixSpace(p: Bytes, x: Bytes, i: nat)
    requires i <= |p|
    ensures SkipSpace(p, i) < |p| ==> SkipSpace(p + x, i) == SkipSpace(p, i)
    ensures SkipSpace(p, i) == |p| ==> SkipSpace(p + x, i) == |p| + SkipSpace(x, 0)
  {
    ShiftSpace(p, x, 0);
    SpaceRun(p, i);
    SpaceFrom(p + x, i, SkipSpace(p, i));
  }

  lemma {:induction false} SpaceFrom(d: Bytes, i: nat, k: nat)
    requires i <= k <= |d| && forall n | i <= n < k :: IsSpace(d[n])
    ensures SkipSpace(d, i) == SkipSpace(d, k)
    decreases k - i
  {
    if i < k {
      SpaceFrom(d, i + 1, k);
    }
  }

  lemma {:induction false} WordFrom(d: Bytes, i: nat, k: nat)
    requires i <= k <= |d| && forall n | i <= n < k :: IsIdent(d[n])
    ensures WordEnd(d, i) == WordEnd(d, k)
    decreases k - i
  {
    if i < k {
      WordFrom(d, i + 1, k);
    }
  }

  lemma PrefixWord(p: Bytes, x: Bytes, i: nat)
    requires i <= |p|
    ensures WordEnd(p, i) < |p| || x == [] || !IsIdent(x[0]) ==> WordEnd(p + x, i) == WordEnd(p, i)
  {
    WordRun(p, i);
    WordFrom(p + x, i, WordEnd(p, i));
  }

  /** What follows `p` cannot complete an assignment begun at its end. */
  predicate Tail(x: Bytes) {
    x == [] || (!IsIdent(x[0]) && var j := SkipSpace(x, 0); j == |x| || x[j] != '=')
  }

  /** The token at `s` and what follows it are settled inside `p`, up to a character that is not space. */
  predicate Settled(p: Bytes, s: nat) {
    s <= |p| && SkipSpace(p, WordEnd(p, s)) < |p|
  }

  /** Whether a settled token is an assignment does not depend on what follows `p`. */
  lemma PrefixAssign(p: Bytes, x: Bytes, y: Bytes, f: nat, s: nat, key: Bytes, fold: bool)
    requires s < |p| && Seam(p, x, y)
    requires Settled(p, s) || (Tail(x) && Tail(y))
    ensures AssignAt(p + x, f, s, key, fold) == AssignAt(p + y, f, s, key, fold)
    ensures AssignAt(p + x, f, s, key, fold) ==> Settled(p, s)
  {
    if f <= s {
      PrefixModes(p, x, y, f, s);
      PrefixToken(p, x, s, key, fold);
      PrefixToken(p, y, s, key, fold);
    }
  }

  lemma PrefixToken(p: Bytes, x: Bytes, s: nat, key: Bytes, fold: bool)
    requires s < |p|
    requires Settled(p, s) || Tail(x)
    ensures WordEnd(p + x, s) == WordEnd(p, s)
    ensures TokenIs(p + x, s, WordEnd(p, s), key, fold) == TokenIs(p, s, WordEnd(p, s), key, fold)
    ensures Settled(p, s) ==> SkipSpace(p + x, WordEnd(p + x, s)) == SkipSpace(p, WordEnd(p, s))
    ensures !Settled(p, s) ==>
              var j := SkipSpace(p + x, WordEnd(p + x, s)); j == |p + x| || (p + x)[j] != '='
  {
    PrefixWord(p, x, s);
    PrefixSpace(p, x, WordEnd(p, s));
    SameToken(p + x, s, p, s, WordEnd(p, s) - s, key, fold);
  }

  // ----- after the edit

  lemma ShiftComment(u: Bytes, w: Bytes, r: Bytes, k: nat)
    requires 0 < k
    ensures CommentAt(u + r, |u| + k) == CommentAt(w + r, |w| + k)
  {}

  /** Scans of `u + r` from `f` and of `w + r` from `g` step from the seam into the same mode. */
  ghost predicate Meet(u: Bytes, w: Bytes, r: Bytes, f: nat, g: nat) {
    && f <= |u| && g <= |w|
    && (r != [] ==> Next(u + r, |u|, ModeAt(u + r, f, |u|)) == Next(w + r, |w|, ModeAt(w + r, g, |w|)))
  }

  /** Two open scans meet at a character that is no identifier and opens no comment. */
  lemma OpenMeet(u: Bytes, w: Bytes, r: Bytes, f: nat, g: nat)
    requires f <= |u| && g <= |w|
    requires Open(ModeAt(u + r, f, |u|)) && Open(ModeAt(w + r, g, |w|))
    requires r != [] ==> !IsIdent(r[0]) && r[0] != '#' && r[0] != '/'
    ensures Meet(u, w, r, f, g)
  {}

  lemma {:induction false} SuffixModes(u: Bytes, w: Bytes, r: Bytes, f: nat, g: nat, k: nat)
    requires Meet(u, w, r, f, g) && 0 < k <= |r|
    ensures ModeAt(u + r, f, |u| + k) == ModeAt(w + r, g, |w| + k)
    decreases k
  {
    if k > 1 {
      SuffixModes(u, w, r, f, g, k - 1);
      ShiftComment(u, w, r, k - 1);
    }
  }

  /** A scan that starts after the seam does not see it. */
  lemma {:induction false} ShiftModes(u: Bytes, w: Bytes, r: Bytes, a: nat, k: nat)
    requires 0 < a <= k <= |r|
    ensures ModeAt(u + r, |u| + a, |u| + k) == ModeAt(w + r, |w| + a, |w| + k)
    decreases k
  {
    if k > a {
      ShiftModes(u, w, r, a, k - 1);
      ShiftComment(u, w, r, k - 1);
    }
  }

  lemma ShiftStops(u: Bytes, w: Bytes, r: Bytes, a: nat, k: nat)
    requires 0 < a <= k < |r|
    ensures StopAt(u + r, |u| + a, |u| + k) == StopAt(w + r, |w| + a, |w| + k)
  {
    ShiftModes(u, w, r, a, k);
    ShiftComment(u, w, r, k);
  }

  lemma SuffixStops(u: Bytes, w: Bytes, r: Bytes, f: nat, g: nat, k: nat)
    requires Meet(u, w, r, f, g) && 0 < k
    ensures StopAt(u + r, f, |u| + k) == StopAt(w + r, g, |w| + k)
  {
    if k < |r| {
      SuffixModes(u, w, r, f, g, k);
      ShiftComment(u, w, r, k);
    }
  }

  lemma {:induction false} ShiftSpace(u: Bytes, r: Bytes, k: nat)
    requires k <= |r|
    ensures SkipSpace(u + r, |u| + k) == |u| + SkipSpace(r, k)
    decreases |r| - k
  {
    if k < |r| {
      ShiftSpace(u, r, k + 1);
    }
  }

  lemma {:induction false} ShiftWord(u: Bytes, r: Bytes, k: nat)
    requires k <= |r|
    ensures WordEnd(u + r, |u| + k) == |u| + WordEnd(r, k)
    decreases |r| - k
  {
    if k < |r| {
      ShiftWord(u, r, k + 1);
    }
  }

  lemma ShiftToken(u: Bytes, r: Bytes, k: nat, key: Bytes, fold: bool)
    requires k < |r|
    ensures WordEnd(u + r, |u| + k) == |u| + WordEnd(r, k)
    ensures TokenIs(u + r, |u| + k, |u| + WordEnd(r, k), key, fold) == TokenIs(r, k, WordEnd(r, k), key, fold)
    ensures SkipSpace(u + r, WordEnd(u + r, |u| + k)) == |u| + SkipSpace(r, WordEnd(r, k))
  {
    ShiftWord(u, r, k);
    ShiftSpace(u, r, WordEnd(r, k));
    SameToken(u + r, |u| + k, r, k, WordEnd(r, k) - k, key, fold);
  }

  function Shift(sp: Span, n: nat): Span {
    Span(sp.keyStart + n, sp.keyEnd + n, sp.equal + n, sp.valueStart + n)
  }

  lemma ShiftSpan(u: Bytes, r: Bytes, k: nat)
    requires k < |r| && IsIdentStart(r[k]) && SkipSpace(r, WordEnd(r, k)) < |r|
    ensures SkipSpace(u + r, WordEnd(u + r, |u| + k)) < |u + r|
    ensures SpanAt(u + r, |u| + k) == Shift(SpanAt(r, k), |u|)
  {
    ShiftWord(u, r, k);
    ShiftSpace(u, r, WordEnd(r, k));
    ShiftSpace(u, r, SkipSpace(r, WordEnd(r, k)) + 1);
  }

  lemma SuffixAssign(u: Bytes, w: Bytes, r: Bytes, f: nat, g: nat, k: nat, key: Bytes, fold: bool)
    requires Meet(u, w, r, f, g) && 0 < k < |r|
    ensures AssignAt(u + r, f, |u| + k, key, fold) == AssignAt(w + r, g, |w| + k, key, fold)
  {
    SuffixModes(u, w, r, f, g, k);
    ShiftToken(u, r, k, key, fold);
    ShiftToken(w, r, k, key, fold);
  }

  // ----- inside the edit

  /** `v` opens no comment in place that it does not open on its own. */
  predicate Fits(v: Bytes, r: Bytes) {
    !CommentAt(v, 0) && (v != [] && v[|v| - 1] == '/' ==> !Slash(r))
  }

  lemma MiddleComment(p: Bytes, v: Bytes, r: Bytes, k: nat)
    requires k < |v| && Fits(v, r)
    ensures CommentAt(p + v + r, |p| + k) == CommentAt(v, k)
  {}

  lemma {:induction false} MiddleModes(p: Bytes, v: Bytes, r: Bytes, f: nat, k: nat)
    requires f <= |p| && k <= |v| && Fits(v, r)
    requires ModeAt(p + v + r, f, |p|) == Code
    ensures ModeAt(p + v + r, f, |p| + k) == ModeAt(v, 0, k)
    decreases k
  {
    if k > 0 {
      MiddleModes(p, v, r, f, k - 1);
      MiddleComment(p, v, r, k - 1);
    }
  }

  lemma MiddleStops(p: Bytes, v: Bytes, r: Bytes, f: nat, k: nat)
    requires f <= |p| && k < |v| && Fits(v, r)
    requires ModeAt(p + v + r, f, |p|) == Code
    ensures StopAt(p + v + r, f, |p| + k) == StopAt(v, 0, k)
  {
    MiddleModes(p, v, r, f, k);
    MiddleComment(p, v, r, k);
  }

  /** A character that opens neither a string nor a comment. */
  predicate IsPlain(c: char) {
    c != '"' && c != '#' && c != '/'
  }

  lemma {:induction false} PlainRun(d: Bytes, f: nat, m: nat, k: nat)
    requires f <= m <= k <= |d| && Open(ModeAt(d, f, m)) && forall i | m <= i < k :: IsPlain(d[i])
    ensures Open(ModeAt(d, f, k))
    decreases k
  {
    if k > m {
      PlainRun(d, f, m, k - 1);
      assert IsPlain(d[k - 1]);
    }
  }

  predicate StartsWord(v: Bytes, k: nat) {
    k < |v| && ModeAt(v, 0, k) == Code && IsIdentStart(v[k])
  }

  /** `v` holds no identifier token equal to `key`. */
  ghost predicate NoWord(v: Bytes, key: Bytes, fold: bool) {
    forall k: nat {:trigger StartsWord(v, k)} | StartsWord(v, k) :: !TokenIs(v, k, WordEnd(v, k), key, fold)
  }

  lemma MiddleAssign(p: Bytes, v: Bytes, r: Bytes, f: nat, k: nat, key: Bytes, fold: bool)
    requires f <= |p| && k < |v| && Fits(v, r)
    requires ModeAt(p + v + r, f, |p|) == Code
    requires r == [] || !IsIdent(r[0])
    requires NoWord(v, key, fold)
    ensures !AssignAt(p + v + r, f, |p| + k, key, fold)
  {
    MiddleModes(p, v, r, f, k);
    assert p + v + r == p + (v + r);
    ShiftToken(p, v + r, k, key, fold);
    PrefixWord(v, r, k);
    SameToken(v + r, k, v, k, WordEnd(v, k) - k, key, fold);
    assert AssignAt(p + v + r, f, |p| + k, key, fold) ==> StartsWord(v, k);
  }
}
