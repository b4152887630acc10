/**
 Replacing the stretch `x` of `p + x + r` by `v`: which assignments are found again, and where.
 Both the overlay patch of a value and the edits of a QCI block are cuts.
 */
module Cutting {
  import opened Lexer
  import opened Splice
  import opened Scanning

  /** Every token of `p` is settled inside `p`. */
  ghost predicate Firm(p: Bytes) {
    forall s {:trigger Settled(p, s)} | 0 <= s < |p| && IsIdentStart(p[s]) :: Settled(p, s)
  }

  /** The two texts are read alike before and after the stretch that differs. */
  ghost predicate Cut(p: Bytes, x: Bytes, v: Bytes, r: Bytes) {
    && Seam(p, x + r, v + r)
    && (Firm(p) || (Tail(x + r) && Tail(v + r)))
    && Meet(p + x, p + v, r, 0, 0)
    && (r == [] || !IsIdentStart(r[0]))
  }

  /** No assignment to `key` starts in the new stretch. */
  ghost predicate Quiet(p: Bytes, v: Bytes, r: Bytes, key: Bytes, fold: bool) {
    forall s | |p| <= s < |p| + |v| :: !AssignAt(p + v + r, 0, s, key, fold)
  }

  function Moved(b: Span, by': int): Span
    requires b.keyStart + by' >= 0 && b.keyEnd + by' >= 0 && b.equal + by' >= 0 && b.valueStart + by' >= 0
  {
    Span(b.keyStart + by', b.keyEnd + by', b.equal + by', b.valueStart + by')
  }

  lemma CutPrefix(p: Bytes, x: Bytes, v: Bytes, r: Bytes, s: nat, key: Bytes, fold: bool)
    requires Cut(p, x, v, r) && s < |p|
    ensures AssignAt(p + x + r, 0, s, key, fold) == AssignAt(p + v + r, 0, s, key, fold)
    ensures AssignAt(p + x + r, 0, s, key, fold) ==> Settled(p, s)
  {
    assert p + x + r == p + (x + r) && p + v + r == p + (v + r);
    if IsIdentStart(p[s]) {
      assert Settled(p, s) || (Tail(x + r) && Tail(v + r));
      PrefixAssign(p, x + r, v + r, 0, s, key, fold);
    }
  }

  lemma CutSuffix(p: Bytes, x: Bytes, v: Bytes, r: Bytes, k: nat, key: Bytes, fold: bool)
    requires Cut(p, x, v, r) && k < |r|
    ensures AssignAt(p + x + r, 0, |p| + |x| + k, key, fold) == AssignAt(p + v + r, 0, |p| + |v| + k, key, fold)
  {
    if k == 0 {
      assert (p + x + r)[|p| + |x|] == r[0] && (p + v + r)[|p| + |v|] == r[0];
    } else {
      SuffixAssign(p + x, p + v, r, 0, 0, k, key, fold);
    }
  }

  /** The place in the old text that corresponds to `s` outside the new stretch. */
  function Origin(at: nat, x: nat, v: nat, s: nat): nat
    requires s >= at ==> s >= at + v
  {
    if s < at then s else s - v + x
  }

  /** `n` assigns `key` only where `o` does, outside the stretch at `at`. */
  ghost predicate Reflects(o: Bytes, n: Bytes, at: nat, x: nat, v: nat, key: Bytes, fold: bool) {
    forall s: nat | AssignAt(n, 0, s, key, fold) ::
      (s >= at ==> s >= at + v) && AssignAt(o, 0, Origin(at, x, v, s), key, fold)
  }

  /** Nothing in the new text is assigned that was not assigned at the corresponding place. */
  lemma CutReflects(p: Bytes, x: Bytes, v: Bytes, r: Bytes, key: Bytes, fold: bool)
    requires Cut(p, x, v, r) && Quiet(p, v, r, key, fold)
    ensures Reflects(p + x + r, p + v + r, |p|, |x|, |v|, key, fold)
  {
    forall s: nat | AssignAt(p + v + r, 0, s, key, fold)
      ensures (s >= |p| ==> s >= |p| + |v|) && AssignAt(p + x + r, 0, Origin(|p|, |x|, |v|, s), key, fold)
    {
      if s < |p| {
        CutPrefix(p, x, v, r, s, key, fold);
      } else {
        assert s >= |p| + |v|;
        CutSuffix(p, x, v, r, s - |p| - |v|, key, fold);
      }
    }
  }

  lemma AbsentAgain(o: Bytes, n: Bytes, at: nat, x: nat, v: nat, key: Bytes, fold: bool)
    requires Reflects(o, n, at, x, v, key, fold) && Assignment(o, key, 0, fold) == None
    ensures Assignment(n, key, 0, fold) == None
  {
    var r := Assignment(n, key, 0, fold);
    if r.Some? {
      assert AssignAt(n, 0, r.value.keyStart, key, fold);
      AssignmentIsFirst(o, key, 0, fold, Origin(at, x, v, r.value.keyStart));
    }
  }

  /** The first assignment of the old text, found at the corresponding place, is the first of the new one. */
  lemma FirstAgain(o: Bytes, n: Bytes, at: nat, x: nat, v: nat, key: Bytes, fold: bool, b: Span, s: nat)
    requires Assignment(o, key, 0, fold) == Some(b)
    requires (s >= at ==> s >= at + v) && b.keyStart == Origin(at, x, v, s)
    requires AssignAt(n, 0, s, key, fold)
    requires b.keyStart >= at ==> Reflects(o, n, at, x, v, key, fold) && b.keyStart >= at + x
    requires b.keyStart < at ==> forall k: nat | k < b.keyStart && AssignAt(n, 0, k, key, fold) :: AssignAt(o, 0, k, key, fold)
    ensures Assignment(n, key, 0, fold) == Some(SpanAt(n, s))
  {
    AssignmentIsFirst(n, key, 0, fold, s);
    var k := Assignment(n, key, 0, fold).value.keyStart;
    assert AssignAt(n, 0, k, key, fold);
    if b.keyStart < at {
      if k < s {
        AssignmentIsFirst(o, key, 0, fold, k);
      }
    } else {
      AssignmentIsFirst(o, key, 0, fold, Origin(at, x, v, k));
    }
  }

  lemma CutBefore(p: Bytes, x: Bytes, v: Bytes, r: Bytes, key: Bytes, fold: bool, b: Span)
    requires Cut(p, x, v, r)
    requires Assignment(p + x + r, key, 0, fold) == Some(b) && b.valueStart < |p|
    ensures Assignment(p + v + r, key, 0, fold) == Some(b)
  {
    var o, n := p + x + r, p + v + r;
    CutPrefix(p, x, v, r, b.keyStart, key, fold);
    forall k: nat | k < b.keyStart && AssignAt(n, 0, k, key, fold) ensures AssignAt(o, 0, k, key, fold) {
      CutPrefix(p, x, v, r, k, key, fold);
    }
    FirstAgain(o, n, |p|, |x|, |v|, key, fold, b, b.keyStart);
    SpanBefore(p, o, n, b);
  }

  lemma SpanBefore(p: Bytes, o: Bytes, n: Bytes, b: Span)
    requires p <= o && p <= n && b.keyStart < |p| && b.valueStart < |p|
    requires IsIdentStart(p[b.keyStart]) && SkipSpace(o, WordEnd(o, b.keyStart)) < |o|
    requires b == SpanAt(o, b.keyStart)
    ensures SkipSpace(n, WordEnd(n, b.keyStart)) < |n|
    ensures SpanAt(n, b.keyStart) == b
  {
    WordRun(o, b.keyStart);
    SpaceRun(o, b.keyEnd);
    SpaceRun(o, b.equal + 1);
    assert forall i | 0 <= i < |p| :: n[i] == o[i];
    WordFrom(n, b.keyStart, b.keyEnd);
    SpaceFrom(n, b.keyEnd, b.equal);
    SpaceFrom(n, b.equal + 1, b.valueStart);
  }

  /** An assignment after the stretch is one at the moved place. */
  lemma FoundAfter(p: Bytes, x: Bytes, v: Bytes, r: Bytes, key: Bytes, fold: bool, s: nat)
    requires Cut(p, x, v, r) && AssignAt(p + x + r, 0, s, key, fold) && s >= |p| + |x|
    ensures s > |p| + |x| && AssignAt(p + v + r, 0, s - |x| + |v|, key, fold)
    ensures SpanAt(p + v + r, s - |x| + |v|) == Moved(SpanAt(p + x + r, s), |v| - |x|)
  {
    var k := s - |p| - |x|;
    assert r[k] == (p + x + r)[s];
    CutSuffix(p, x, v, r, k, key, fold);
    SpanAfter(p + x, p + v, r, k, SpanAt(p + x + r, s));
  }

  lemma CutAfter(p: Bytes, x: Bytes, v: Bytes, r: Bytes, key: Bytes, fold: bool, b: Span)
    requires Cut(p, x, v, r) && Quiet(p, v, r, key, fold)
    requires Assignment(p + x + r, key, 0, fold) == Some(b) && b.keyStart >= |p| + |x|
    ensures b.keyStart > |p| + |x|
    ensures Assignment(p + v + r, key, 0, fold) == Some(Moved(b, |v| - |x|))
  {
    FoundAfter(p, x, v, r, key, fold, b.keyStart);
    CutReflects(p, x, v, r, key, fold);
    FirstAgain(p + x + r, p + v + r, |p|, |x|, |v|, key, fold, b, b.keyStart - |x| + |v|);
  }

  lemma SpanAfter(u: Bytes, w: Bytes, r: Bytes, k: nat, b: Span)
    requires k < |r| && IsIdentStart(r[k]) && SkipSpace(u + r, WordEnd(u + r, |u| + k)) < |u + r|
    requires b == SpanAt(u + r, |u| + k)
    ensures SkipSpace(w + r, WordEnd(w + r, |w| + k)) < |w + r|
    ensures SpanAt(w + r, |w| + k) == Moved(b, |w| - |u|)
  {
    ShiftWord(u, r, k);
    ShiftSpace(u, r, WordEnd(r, k));
    ShiftSpan(u, r, k);
    ShiftSpan(w, r, k);
  }

  // ----- values outside the cut

  lemma StopBefore(p: Bytes, x: Bytes, y: Bytes, f: nat)
    requires f <= |p| && Seam(p, x, y) && ValueStop(p + x, f) < |p|
    ensures ValueStop(p + y, f) == ValueStop(p + x, f)
  {
    var t := ValueStop(p + x, f);
    forall k | f <= k < t ensures !StopAt(p + y, f, k) {
      PrefixStops(p, x, y, f, k);
      NoStopBefore(p + x, f, k);
    }
    PrefixStops(p, x, y, f, t);
    StopIsUnique(p + y, f, t);
  }

  /** The scan of `n` from `f + shift` yields what the scan of `o` from `f` yields. */
  ghost predicate SameScan(o: Bytes, n: Bytes, f: nat, shift: int) {
    && f <= |o| && 0 <= f + shift <= |n|
    && ValueStop(n, f + shift) == ValueStop(o, f) + shift
    && CommentAt(n, f + shift) == CommentAt(o, f)
    && ScalarText(n, f + shift) == ScalarText(o, f)
  }

  /** Scans that stop at `t` and at `t + shift` over the same text read the same scalar. */
  lemma ScansAgree(o: Bytes, n: Bytes, f: nat, t: nat, shift: int)
    requires f <= |o| && 0 <= f + shift <= |n| && t == ValueStop(o, f) && ValueStop(n, f + shift) == t + shift
    requires forall k | f <= k < t :: o[k] == n[k + shift]
    requires Closes(o, f, t) == Closes(n, f + shift, t + shift)
    requires CommentAt(o, f) == CommentAt(n, f + shift)
    ensures SameScan(o, n, f, shift)
  {
    TrimSame(o, n, f, t, shift);
    var e := TrimRight(o, f, t);
    assert n[f + shift..e + shift] == o[f..e];
  }

  lemma ScanBefore(p: Bytes, x: Bytes, y: Bytes, f: nat)
    requires f <= |p| && Seam(p, x, y) && ValueStop(p + x, f) < |p|
    ensures SameScan(p + x, p + y, f, 0)
  {
    var t := ValueStop(p + x, f);
    StopBefore(p, x, y, f);
    PrefixComment(p, x, y, t);
    PrefixComment(p, x, y, f);
    ScansAgree(p + x, p + y, f, t, 0);
  }

  lemma {:induction false} TrimSame(d: Bytes, d': Bytes, start: nat, end: nat, shift: int)
    requires start <= end <= |d| && 0 <= start + shift && end + shift <= |d'|
    requires forall k | start <= k < end :: d[k] == d'[k + shift]
    ensures TrimRight(d', start + shift, end + shift) == TrimRight(d, start, end) + shift
    decreases end
  {
    if end > start && IsSpace(d[end - 1]) {
      TrimSame(d, d', start, end - 1, shift);
    }
  }

  lemma StopAfter(u: Bytes, w: Bytes, r: Bytes, a: nat)
    requires 0 < a <= |r|
    ensures ValueStop(w + r, |w| + a) == ValueStop(u + r, |u| + a) - |u| + |w|
  {
    var o, n, f, t := u + r, w + r, |w| + a, ValueStop(u + r, |u| + a) - |u|;
    forall i | f <= i < |w| + t ensures !StopAt(n, f, i) {
      ShiftStops(u, w, r, a, i - |w|);
      NoStopBefore(o, |u| + a, i - |w| + |u|);
    }
    if t < |r| {
      ShiftStops(u, w, r, a, t);
    }
    StopIsUnique(n, f, |w| + t);
  }

  lemma ScanAfter(u: Bytes, w: Bytes, r: Bytes, a: nat)
    requires 0 < a <= |r|
    ensures SameScan(u + r, w + r, |u| + a, |w| - |u|)
  {
    var t := ValueStop(u + r, |u| + a) - |u|;
    StopAfter(u, w, r, a);
    ShiftComment(u, w, r, a);
    ShiftComment(u, w, r, t);
    ShiftModes(u, w, r, a, t);
    ScansAgree(u + r, w + r, |u| + a, |u| + t, |w| - |u|);
  }

  // ----- reading a key outside the cut

  /** The key is assigned outside the stretch `x`, with its value before or after it. */
  ghost predicate Apart(p: Bytes, x: Bytes, r: Bytes, key: Bytes, fold: bool) {
    match Assignment(p + x + r, key, 0, fold)
    case None => true
    case Some(b) => |p| + |x| <= b.keyStart || ValueStop(p + x + r, b.valueStart) < |p|
  }

  /** The key and its value are found in `n` where they were in `o`, moved by `shift` if after `at`. */
  ghost predicate FoundAgain(o: Bytes, n: Bytes, at: nat, shift: int, key: Bytes, fold: bool) {
    match Assignment(o, key, 0, fold)
    case None => Assignment(n, key, 0, fold) == None
    case Some(b) =>
      var m := if b.keyStart < at then 0 else shift;
      && b.keyStart + m >= 0 && b.valueStart + m <= |n|
      && Assignment(n, key, 0, fold) == Some(Moved(b, m))
      && SameScan(o, n, b.valueStart, m)
  }

  lemma KeptBefore(p: Bytes, x: Bytes, v: Bytes, r: Bytes, key: Bytes, fold: bool, b: Span)
    requires Cut(p, x, v, r)
    requires Assignment(p + x + r, key, 0, fold) == Some(b) && ValueStop(p + x + r, b.valueStart) < |p|
    ensures FoundAgain(p + x + r, p + v + r, |p|, |v| - |x|, key, fold)
  {
    CutBefore(p, x, v, r, key, fold, b);
    assert p + x + r == p + (x + r) && p + v + r == p + (v + r);
    ScanBefore(p, x + r, v + r, b.valueStart);
  }

  lemma KeptAfter(p: Bytes, x: Bytes, v: Bytes, r: Bytes, key: Bytes, fold: bool, b: Span)
    requires Cut(p, x, v, r) && Quiet(p, v, r, key, fold)
    requires Assignment(p + x + r, key, 0, fold) == Some(b) && |p| + |x| <= b.keyStart
    ensures FoundAgain(p + x + r, p + v + r, |p|, |v| - |x|, key, fold)
  {
    hide Cut, Quiet, SameScan, AssignAt, SpanAt;
    CutAfter(p, x, v, r, key, fold, b);
    var a := b.valueStart - |p| - |x|;
    ScanAfter(p + x, p + v, r, a);
    assert |p + x| + a == b.valueStart && |p + v| + a == b.valueStart + |v| - |x|;
  }

  lemma CutKeepsKey(p: Bytes, x: Bytes, v: Bytes, r: Bytes, key: Bytes, fold: bool)
    requires Cut(p, x, v, r) && Quiet(p, v, r, key, fold) && Apart(p, x, r, key, fold)
    ensures FoundAgain(p + x + r, p + v + r, |p|, |v| - |x|, key, fold)
  {
    match Assignment(p + x + r, key, 0, fold)
    case None =>
      CutReflects(p, x, v, r, key, fold);
      AbsentAgain(p + x + r, p + v + r, |p|, |x|, |v|, key, fold);
    case Some(b) =>
      if |p| + |x| <= b.keyStart {
        KeptAfter(p, x, v, r, key, fold, b);
      } else {
        KeptBefore(p, x, v, r, key, fold, b);
      }
  }

  lemma FoundReads(o: Bytes, n: Bytes, at: nat, shift: int, key: Bytes, fold: bool)
    requires FoundAgain(o, n, at, shift, key, fold)
    ensures ReadScalar(n, key, fold) == ReadScalar(o, key, fold)
  {}
}
