/**
 What one jump of a scanner skips: the lemmas that carry the loops of `Renderer` and
 `TextParser` over a comment, a string or an identifier.
 */
module Scanning {
  import opened Lexer

  lemma StringJump(d: Bytes, f: nat, q: nat)
    requires f <= q < |d| && Open(ModeAt(d, f, q)) && d[q] == '"'
    ensures match StringEnd(d, q, q + 1)
            case None => forall k | q < k <= |d| :: TextAt(d, f, k)
            case Some(e) => ModeAt(d, f, e + 1) == Code && forall k | q < k <= e :: TextAt(d, f, k)
  {
    var r := StringEnd(d, q, q + 1);
    forall k | q < k <= (if r.Some? then r.value else |d|) ensures TextAt(d, f, k) {
      assert TextAt(d, q, k);
      Rebase(d, f, q, q, k);
    }
    if r.Some? {
      Rebase(d, f, q, q, r.value + 1);
    }
  }

  /**
   Where the assignment scan stands after a jump: in code or at the end of a word,
   with no assignment to `key` starting earlier.
   */
  ghost predicate Passed(d: Bytes, from: nat, i: nat, key: Bytes, fold: bool) {
    && from <= i
    && (i <= |d| ==> ModeAt(d, from, i).Code? || (ModeAt(d, from, i).Word? && (i < |d| ==> !IsIdent(d[i]))))
    && forall s | from <= s < i :: !AssignAt(d, from, s, key, fold)
  }

  lemma CommentStep(d: Bytes, f: nat, i: nat, key: Bytes, fold: bool)
    requires i < |d| && Passed(d, f, i, key, fold) && CommentAt(d, i)
    ensures Passed(d, f, LineEnd(d, i) + 1, key, fold)
  {
    var e := LineEnd(d, i);
    forall s | i < s <= e ensures !AssignAt(d, f, s, key, fold) {
      CommentJump(d, f, i, s);
    }
    if e < |d| {
      CommentJump(d, f, i, e);
    }
  }

  lemma StringStep(d: Bytes, f: nat, q: nat, e: nat, key: Bytes, fold: bool)
    requires q < |d| && Passed(d, f, q, key, fold) && d[q] == '"'
    requires StringEnd(d, q, q + 1) == Some(e)
    ensures Passed(d, f, e + 1, key, fold)
  {
    StringJump(d, f, q);
    forall s | q < s <= e ensures !AssignAt(d, f, s, key, fold) {
      assert TextAt(d, f, s);
    }
  }

  lemma OpenString(d: Bytes, f: nat, q: nat, key: Bytes, fold: bool)
    requires q < |d| && Passed(d, f, q, key, fold) && d[q] == '"'
    requires StringEnd(d, q, q + 1) == None
    ensures Assignment(d, key, f, fold) == None
  {
    StringJump(d, f, q);
    forall s | q < s <= |d| ensures !AssignAt(d, f, s, key, fold) {
      assert TextAt(d, f, s);
    }
    Absent(d, f, key, fold);
  }

  lemma CodeStep(d: Bytes, f: nat, i: nat, key: Bytes, fold: bool)
    requires i < |d| && Passed(d, f, i, key, fold)
    requires !CommentAt(d, i) && d[i] != '"' && !IsIdentStart(d[i])
    ensures Passed(d, f, i + 1, key, fold)
  {}

  lemma WordStep(d: Bytes, f: nat, s: nat, key: Bytes, fold: bool)
    requires s < |d| && Passed(d, f, s, key, fold) && IsIdentStart(d[s])
    requires !Bound(d, s, key, fold)
    ensures s < WordEnd(d, s) && Passed(d, f, WordEnd(d, s), key, fold)
  {
    hide Bound, ModeAt, AssignAt, WordEnd;
    var e := WordEnd(d, s);
    WordStarts(d, f, s, key, fold);
    forall k | s <= k < e ensures !AssignAt(d, f, k, key, fold) {
      InsideWord(d, f, s, k, key, fold);
    }
    WordJump(d, f, s, e);
  }

  lemma WordStarts(d: Bytes, f: nat, s: nat, key: Bytes, fold: bool)
    requires s < |d| && Passed(d, f, s, key, fold) && IsIdentStart(d[s])
    ensures s < WordEnd(d, s) && Open(ModeAt(d, f, s))
  {}

  lemma InsideWord(d: Bytes, f: nat, s: nat, k: nat, key: Bytes, fold: bool)
    requires f <= s < |d| && s <= k < WordEnd(d, s) && Open(ModeAt(d, f, s)) && IsIdentStart(d[s]) && !Bound(d, s, key, fold)
    ensures !AssignAt(d, f, k, key, fold)
  {
    hide Bound;
    if k > s {
      WordJump(d, f, s, k);
    }
  }

  lemma WordFound(d: Bytes, f: nat, s: nat, key: Bytes, fold: bool)
    requires s < |d| && Passed(d, f, s, key, fold) && IsIdentStart(d[s])
    requires Bound(d, s, key, fold)
    ensures Assignment(d, key, f, fold) == Some(SpanAt(d, s))
  {
    AssignmentIsUnique(d, key, f, fold, s);
  }

  lemma Absent(d: Bytes, f: nat, key: Bytes, fold: bool)
    requires forall s | f <= s < |d| :: !AssignAt(d, f, s, key, fold)
    ensures Assignment(d, key, f, fold) == None
  {
    var r := Assignment(d, key, f, fold);
    assert r.Some? ==> AssignAt(d, f, r.value.keyStart, key, fold);
  }

  /** A string holds no stop, and an unterminated one runs to the end of the text. */
  lemma StringHasNoStop(d: Bytes, f: nat, q: nat, k: nat)
    requires f <= q < |d| && Open(ModeAt(d, f, q)) && d[q] == '"'
    requires q <= k <= match StringEnd(d, q, q + 1) case None => |d| case Some(e) => e
    ensures !StopAt(d, f, k)
    ensures k > q ==> !Open(ModeAt(d, f, k))
  {
    if k > q {
      assert TextAt(d, q, k);
      Rebase(d, f, q, q, k);
    }
  }

  /** A comment holds no closing delimiter and leaves the depth alone. */
  lemma CommentFlat(d: Bytes, f: nat, i: nat, open: char, close: char)
    requires f <= i < |d| && Open(ModeAt(d, f, i)) && CommentAt(d, i)
    ensures forall p | i <= p <= LineEnd(d, i) && p < |d| :: !CodeAt(d, f, p)
    ensures LineEnd(d, i) < |d| ==>
              && ModeAt(d, f, LineEnd(d, i) + 1) == Code
              && Depth(d, f, LineEnd(d, i) + 1, open, close) == Depth(d, f, i, open, close)
  {
    var e := LineEnd(d, i);
    forall p | i <= p <= e && p < |d| ensures !CodeAt(d, f, p) {
      if p > i {
        CommentJump(d, f, i, p);
      }
    }
    if e < |d| {
      CommentJump(d, f, i, e);
      DepthFlat(d, f, i, e + 1, open, close);
    }
  }

  /** A string leaves the depth alone and holds no closing delimiter. */
  lemma StringFlat(d: Bytes, f: nat, q: nat, open: char, close: char)
    requires f <= q < |d| && Open(ModeAt(d, f, q)) && d[q] == '"'
    ensures match StringEnd(d, q, q + 1)
            case None => forall p | q <= p < |d| :: !CodeAt(d, f, p)
            case Some(e) =>
              && (forall p | q <= p <= e :: !CodeAt(d, f, p))
              && ModeAt(d, f, e + 1) == Code
              && Depth(d, f, e + 1, open, close) == Depth(d, f, q, open, close)
  {
    var r := StringEnd(d, q, q + 1);
    forall p | q <= p <= (if r.Some? then r.value else |d|) ensures !CodeAt(d, f, p) {
      StringHasNoStop(d, f, q, p);
    }
    if r.Some? {
      StringJump(d, f, q);
      DepthFlat(d, f, q, r.value + 1, open, close);
    }
  }

  /** At `p` the depth opened at `from` returns to zero for the first time. */
  ghost predicate FirstZero(d: Bytes, from: nat, p: nat, open: char, close: char)
    requires from <= p < |d|
  {
    && Depth(d, from, p + 1, open, close) == 0
    && forall i | from < i <= p :: Depth(d, from, i, open, close) >= 1
  }

  /** A delimiter is closed exactly where the depth first returns to zero. */
  lemma MatchIsFirstZero(d: Bytes, from: nat, p: nat, open: char, close: char)
    requires CodeAt(d, from, from) && d[from] == open != close && from <= p < |d|
    ensures MatchingClose(d, from, open, close) == Some(p) <==> FirstZero(d, from, p, open, close)
  {
    var r := MatchingClose(d, from, open, close);
    if r == Some(p) {
      forall q: nat | q < p ensures !CloseAt(d, from, q, open, close) {
        if CloseAt(d, from, q, open, close) {
          FirstCloseIsFirst(d, from, from, open, close, q);
        }
      }
      forall i | from < i <= p ensures Depth(d, from, i, open, close) >= 1 {
        Nested(d, from, i, open, close);
      }
      assert FirstZero(d, from, p, open, close);
    }
    if FirstZero(d, from, p, open, close) {
      assert Depth(d, from, from, open, close) == 0;
      assert p > from && Depth(d, from, p, open, close) >= 1;
      assert Depth(d, from, p + 1, open, close)
          == Depth(d, from, p, open, close) + DepthStep(d, from, p, open, close);
      assert CloseAt(d, from, p, open, close);
      FirstCloseIsFirst(d, from, from, open, close, p);
    }
  }

  /** Until its close, a delimiter stays open. */
  lemma {:induction false} Nested(d: Bytes, from: nat, i: nat, open: char, close: char)
    requires CodeAt(d, from, from) && d[from] == open != close && from < i <= |d|
    requires forall p: nat | p < i :: !CloseAt(d, from, p, open, close)
    ensures Depth(d, from, i, open, close) >= 1
    decreases i
  {
    if i == from + 1 {
      assert Depth(d, from, from, open, close) == 0;
    } else {
      Nested(d, from, i - 1, open, close);
      assert !CloseAt(d, from, i - 1, open, close);
    }
  }
}
