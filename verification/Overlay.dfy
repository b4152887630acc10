/**
 The overlay patch of libconfig files: replace the value of the first assignment to a key.
 Reading the patched key gives the new value, unless the old value was directly a comment.
 */
module Overlay {
  import opened Lexer
  import opened Splice
  import opened Scanning
  import R = Renderer

  /** patchLibconfigScalarOptional as a function. */
  function Patch(d: Bytes, key: Bytes, value: Bytes): (r: Option<Bytes>) {
    match Assignment(d, key, 0, false)
    case None => None
    case Some(sp) =>
      match ScalarEnd(d, sp.valueStart)
      case None => None
      case Some(e) => Some(d[..sp.valueStart] + value + d[e..])
  }

  method PatchLibconfigScalarOptional(data: Bytes, key: Bytes, value: Bytes) returns (out: Bytes, ok: bool)
    ensures ok == Patch(data, key, value).Some?
    ensures out == if ok then Patch(data, key, value).value else data
  {
    var asn := R.FindAssignment(data, key, 0);
    if asn.None? {
      return data, false;
    }
    var valueEnd := R.FindScalarValueEnd(data, asn.value.valueStart);
    if valueEnd.None? {
      return data, false;
    }
    out := data[..asn.value.valueStart] + value + data[valueEnd.value..];
    ok := true;
  }

  /** The scanner reads `v` as one whole scalar: trimmed, quotes closed, no terminator, bracket or comment in code. */
  predicate SafeScalar(v: Bytes) {
    v != [] && !IsSpace(v[0]) && ScalarEnd(v, 0) == Some(|v|)
  }

  lemma SafeFacts(v: Bytes)
    requires SafeScalar(v)
    ensures ValueStop(v, 0) == |v| && Open(ModeAt(v, 0, |v|)) && !IsSpace(v[|v| - 1])
    ensures !CommentAt(v, 0) && forall k | 0 <= k < |v| :: !StopAt(v, 0, k)
  {
    forall k | 0 <= k < |v| ensures !StopAt(v, 0, k) {
      NoStopBefore(v, 0, k);
    }
    assert !StopAt(v, 0, 0);
  }

  /** What can follow a scalar that does not start with a comment. */
  lemma AfterScalar(d: Bytes, from: nat, e: nat)
    requires from <= |d| && ScalarEnd(d, from) == Some(e) && !CommentAt(d, from)
    ensures e < |d| ==> IsSpace(d[e]) || d[e] == ';'
  {
    var t := ValueStop(d, from);
    TrimRun(d, from, t);
    if t > from && CommentAt(d, t) {
      assert IsSpace(d[t - 1]);
    }
  }

  /** `sp` is the span of an assignment to `key`, not necessarily the first one. */
  ghost predicate IsSpan(d: Bytes, key: Bytes, fold: bool, sp: Span) {
    AssignAt(d, 0, sp.keyStart, key, fold) && sp == SpanAt(d, sp.keyStart)
  }

  /** A scan reaches the value of an assignment in code. */
  lemma AtValue(d: Bytes, key: Bytes, fold: bool, sp: Span)
    requires IsSpan(d, key, fold, sp)
    ensures ModeAt(d, 0, sp.valueStart) == Code
    ensures d[sp.valueStart - 1] == '=' || IsSpace(d[sp.valueStart - 1])
  {
    var e, j := sp.keyEnd, sp.equal;
    WordJump(d, 0, sp.keyStart, e);
    if e < j {
      SpaceJump(d, 0, e, j);
    }
    assert ModeAt(d, 0, j + 1) == Code;
    if j + 1 < sp.valueStart {
      SpaceRun(d, j + 1);
      SpaceJump(d, 0, j + 1, sp.valueStart);
    }
  }

  /** Tokens up to the key are settled before the value. */
  lemma SettledBeforeValue(d: Bytes, key: Bytes, fold: bool, sp: Span, s: nat)
    requires IsSpan(d, key, fold, sp) && s <= sp.keyStart
    ensures Settled(d[..sp.valueStart], s)
  {
    var p := d[..sp.valueStart];
    assert p[sp.equal] == '=';
    var e := WordEnd(p, s);
    WordRun(p, s);
    SpaceRun(p, e);
  }

  /** Up to its value an assignment is read as before, whatever non-space text replaces the value. */
  lemma PrefixSpan(d: Bytes, key: Bytes, fold: bool, sp: Span, y: Bytes)
    requires IsSpan(d, key, fold, sp)
    requires y != [] && !IsSpace(y[0])
    ensures IsSpan(d[..sp.valueStart] + y, key, fold, sp)
  {
    var p, x, s := d[..sp.valueStart], d[sp.valueStart..], sp.keyStart;
    assert p + x == d;
    PrefixAssigns(d, key, fold, sp, y, s, key, fold);
    SettledBeforeValue(d, key, fold, sp, s);
    PrefixToken(p, x, s, key, fold);
    PrefixToken(p, y, s, key, fold);
    SpaceRun(d, sp.equal + 1);
    SpaceFrom(p + y, sp.equal + 1, sp.valueStart);
  }

  lemma PrefixAssigns(d: Bytes, key: Bytes, fold: bool, sp: Span, y: Bytes, s: nat, other: Bytes, fold': bool)
    requires IsSpan(d, key, fold, sp) && s <= sp.keyStart
    ensures AssignAt(d[..sp.valueStart] + y, 0, s, other, fold') == AssignAt(d, 0, s, other, fold')
  {
    var p, x := d[..sp.valueStart], d[sp.valueStart..];
    assert p + x == d;
    AtValue(d, key, fold, sp);
    SettledBeforeValue(d, key, fold, sp, s);
    PrefixAssign(p, x, y, 0, s, other, fold');
  }

  /** The first assignment is found again, with the same span. */
  lemma SameSpan(d: Bytes, key: Bytes, fold: bool, sp: Span, y: Bytes)
    requires Assignment(d, key, 0, fold) == Some(sp)
    requires y != [] && !IsSpace(y[0])
    ensures Assignment(d[..sp.valueStart] + y, key, 0, fold) == Some(sp)
  {
    var d' := d[..sp.valueStart] + y;
    PrefixSpan(d, key, fold, sp, y);
    forall s: nat | s < sp.keyStart ensures !AssignAt(d', 0, s, key, fold) {
      PrefixAssigns(d, key, fold, sp, y, s, key, fold);
      if AssignAt(d, 0, s, key, fold) {
        AssignmentIsFirst(d, key, 0, fold, s);
      }
    }
    AssignmentIsUnique(d', key, 0, fold, sp.keyStart);
  }

  /** The patch under which a scalar is read back: the new text is safe and replaces no comment. */
  ghost predicate Replaces(d: Bytes, vs: nat, e: nat, v: Bytes) {
    vs <= |d| && ScalarEnd(d, vs) == Some(e) && !CommentAt(d, vs) && SafeScalar(v)
  }

  /** Scans of the old and of the new value meet after it. */
  lemma ValueMeet(d: Bytes, vs: nat, e: nat, v: Bytes)
    requires Replaces(d, vs, e, v)
    ensures d[..e] + d[e..] == d
    ensures Fits(v, d[e..])
    ensures Meet(d[..e], d[..vs] + v, d[e..], vs, vs)
    ensures Open(ModeAt(d[..vs] + v + d[e..], vs, vs + |v|))
  {
    var p, u, r := d[..vs], d[..e], d[e..];
    assert u + r == d;
    AfterScalar(d, vs, e);
    SafeFacts(v);
    MiddleModes(p, v, r, vs, |v|);
    OpenAtTrim(d, vs, e);
    OpenMeet(u, p + v, r, vs, vs);
  }

  lemma PatchedStops(d: Bytes, vs: nat, e: nat, v: Bytes, k: nat)
    requires Replaces(d, vs, e, v)
    requires vs <= k < ValueStop(d, vs) - e + vs + |v|
    ensures !StopAt(d[..vs] + v + d[e..], vs, k)
  {
    var p, r := d[..vs], d[e..];
    SafeFacts(v);
    ValueMeet(d, vs, e, v);
    if k < vs + |v| {
      MiddleStops(p, v, r, vs, k - vs);
    } else if k == vs + |v| {
      AfterScalar(d, vs, e);
      NoStopBefore(d, vs, e);
      assert (p + v + r)[k] == d[e];
      OpenAtTrim(d, vs, e);
    } else {
      NoStopBefore(d, vs, k - vs - |v| + e);
      SuffixStops(d[..e], p + v, r, vs, vs, k - vs - |v|);
    }
  }

  lemma PatchedStopsAt(d: Bytes, vs: nat, e: nat, v: Bytes)
    requires Replaces(d, vs, e, v)
    ensures var d', t' := d[..vs] + v + d[e..], ValueStop(d, vs) - e + vs + |v|;
            && t' <= |d'|
            && (t' < |d'| ==> StopAt(d', vs, t'))
            && Closes(d', vs, t')
  {
    var p, u, r, t := d[..vs], d[..e], d[e..], ValueStop(d, vs);
    ValueMeet(d, vs, e, v);
    AfterScalar(d, vs, e);
    if t > e {
      SuffixStops(u, p + v, r, vs, vs, t - e);
      ShiftComment(u, p + v, r, t - e);
      if t == |d| {
        SuffixModes(u, p + v, r, vs, vs, t - e);
      }
    }
  }

  /** Where the scan of the patched value stops, and what it reads. */
  lemma PatchedStop(d: Bytes, vs: nat, e: nat, v: Bytes)
    requires Replaces(d, vs, e, v)
    ensures var d' := d[..vs] + v + d[e..];
            && ValueStop(d', vs) == ValueStop(d, vs) - e + vs + |v|
            && ScalarEnd(d', vs) == Some(vs + |v|)
  {
    var d', t := d[..vs] + v + d[e..], ValueStop(d, vs);
    var m, t' := vs + |v|, t - e + vs + |v|;
    forall k | vs <= k < t' ensures !StopAt(d', vs, k) {
      PatchedStops(d, vs, e, v, k);
    }
    PatchedStopsAt(d, vs, e, v);
    StopIsUnique(d', vs, t');
    SafeFacts(v);
    assert d'[m - 1] == v[|v| - 1];
    assert forall k | m <= k < t' :: d'[k] == d[k - m + e];
    TrimRun(d, vs, t);
    TrimIsUnique(d', vs, t', m);
  }

  lemma {:induction false} TrimIsUnique(d: Bytes, start: nat, end: nat, m: nat)
    requires start < m <= end <= |d| && !IsSpace(d[m - 1]) && forall k | m <= k < end :: IsSpace(d[k])
    ensures TrimRight(d, start, end) == m
    decreases end
  {
    if m < end {
      TrimIsUnique(d, start, end - 1, m);
    }
  }

  lemma OpenAtTrim(d: Bytes, vs: nat, e: nat)
    requires vs <= |d| && ScalarEnd(d, vs) == Some(e)
    ensures Open(ModeAt(d, vs, e))
  {
    var t := ValueStop(d, vs);
    TrimRun(d, vs, t);
    NoCommentBeforeStop(d, vs, e);
    if !Open(ModeAt(d, vs, e)) {
      TextRun(d, vs, e, t);
    }
  }

  /** Inside a string, a run of spaces stays inside the string. */
  lemma {:induction false} TextRun(d: Bytes, f: nat, e: nat, t: nat)
    requires f <= e <= t <= |d| && TextAt(d, f, e)
    requires forall k | e <= k < t :: IsSpace(d[k])
    ensures TextAt(d, f, t)
    decreases t
  {
    if e < t {
      TextRun(d, f, e, t - 1);
    }
  }

  /**
   Patch round trip. For every text, key and safe value for which the patch succeeds, the same
   assignment is found again, and it reads back as exactly the new value if and only if the old
   value did not start with a comment.
   */
  lemma PatchRoundTrip(d: Bytes, key: Bytes, v: Bytes)
    requires Patch(d, key, v).Some? && SafeScalar(v)
    ensures var d' := Patch(d, key, v).value;
            var sp := Assignment(d, key, 0, false).value;
            && Assignment(d', key, 0, false) == Some(sp)
            && (ReadScalar(d', key, false) == Some(v) <==> !CommentAt(d, sp.valueStart))
  {
    var sp := Assignment(d, key, 0, false).value;
    var e := ScalarEnd(d, sp.valueStart).value;
    assert d[..sp.valueStart] + v + d[e..] == d[..sp.valueStart] + (v + d[e..]);
    SameSpan(d, key, false, sp, v + d[e..]);
    PatchedValue(d, sp.valueStart, e, v);
  }

  lemma PatchedValue(d: Bytes, vs: nat, e: nat, v: Bytes)
    requires vs <= |d| && ScalarEnd(d, vs) == Some(e) && SafeScalar(v)
    ensures var d' := d[..vs] + v + d[e..];
            match ScalarEnd(d', vs)
            case None => CommentAt(d, vs)
            case Some(e') => d'[vs..e'] == v <==> !CommentAt(d, vs)
  {
    if CommentAt(d, vs) {
      PatchedCommentIsRead(d, vs, v);
    } else {
      PatchedStop(d, vs, e, v);
    }
  }

  /** A comment that stood in place of the value becomes part of the new value. */
  lemma PatchedCommentIsRead(d: Bytes, vs: nat, v: Bytes)
    requires CommentAt(d, vs) && SafeScalar(v)
    ensures ScalarEnd(d, vs) == Some(vs)
    ensures ScalarEnd(d[..vs] + v + d[vs..], vs) != Some(vs + |v|)
  {
    assert StopAt(d, vs, vs);
    var d' := d[..vs] + v + d[vs..];
    var t := ValueStop(d', vs);
    SafeFacts(v);
    TrimRun(d', vs, t);
    assert d'[vs + |v|] == d[vs] && d'[vs + |v| - 1] == v[|v| - 1];
  }
}
