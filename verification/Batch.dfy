/**
 Patches of different keys do not interfere, one at a time and in a batch.
 */
module Batch {
  import opened Lexer
  import opened Splice
  import opened Scanning
  import opened Cutting
  import opened Overlay

  /** The stretch a successful patch replaces: the value [sp.valueStart, e) of the first assignment to `key`. */
  ghost predicate Edits(d: Bytes, key: Bytes, sp: Span, e: nat, v: Bytes) {
    IsSpan(d, key, false, sp) && sp.keyStart < sp.valueStart <= e <= |d| && Replaces(d, sp.valueStart, e, v)
  }

  function Patched(d: Bytes, vs: nat, e: nat, v: Bytes): Bytes
    requires vs <= e <= |d|
  {
    d[..vs] + v + d[e..]
  }

  lemma Reassemble(d: Bytes, vs: nat, e: nat)
    requires vs <= e <= |d|
    ensures d[..vs] + d[vs..e] + d[e..] == d
    ensures d[..vs] + d[vs..e] == d[..e]
    ensures d[vs..e] + d[e..] == d[vs..]
  {}

  /** Scans from the start of the old and of the new text meet after the value. */
  lemma EditMeet(d: Bytes, key: Bytes, sp: Span, e: nat, v: Bytes)
    requires Edits(d, key, sp, e, v)
    ensures ModeAt(Patched(d, sp.valueStart, e, v), 0, sp.valueStart) == Code
    ensures Meet(d[..e], d[..sp.valueStart] + v, d[e..], 0, 0)
  {
    hide ModeAt, Meet;
    var vs, p, r := sp.valueStart, d[..sp.valueStart], d[e..];
    var d' := p + v + r;
    assert p + d[vs..] == d && d' == p + (v + r) && d[..e] + r == d;
    ValueMode(d, key, sp, v + r);
    ValueMeet(d, vs, e, v);
    OpenAtTrim(d, vs, e);
    OpenRebase(d, 0, vs, vs, e);
    CodeHere(d', vs);
    OpenRebase(d', 0, vs, vs, vs + |v|);
    AfterScalar(d, vs, e);
    OpenMeet(d[..e], p + v, r, 0, 0);
  }

  lemma CodeHere(d: Bytes, i: nat)
    requires i <= |d|
    ensures ModeAt(d, i, i) == Code
  {}

  /** Both texts reach the value in code. */
  lemma ValueMode(d: Bytes, key: Bytes, sp: Span, y: Bytes)
    requires IsSpan(d, key, false, sp)
    ensures var vs := sp.valueStart;
            vs <= |d| && ModeAt(d, 0, vs) == Code && ModeAt(d, vs, vs) == Code && ModeAt(d[..vs] + y, 0, vs) == Code
  {
    var vs := sp.valueStart;
    AtValue(d, key, false, sp);
    assert d[..vs] + d[vs..] == d;
    PrefixModes(d[..vs], d[vs..], y, 0, vs);
  }

  lemma ValueIsFirm(d: Bytes, key: Bytes, sp: Span)
    requires IsSpan(d, key, false, sp)
    ensures Firm(d[..sp.valueStart])
  {
    var p := d[..sp.valueStart];
    forall s | 0 <= s < |p| && IsIdentStart(p[s]) ensures Settled(p, s) {
      if s < sp.equal {
        WordRun(p, s);
        SpaceRun(p, WordEnd(p, s));
        assert p[sp.equal] == '=';
      } else if s > sp.equal {
        SpaceRun(d, sp.equal + 1);
      }
    }
  }

  lemma PatchIsCut(d: Bytes, key: Bytes, sp: Span, e: nat, v: Bytes)
    requires Edits(d, key, sp, e, v)
    ensures Cut(d[..sp.valueStart], d[sp.valueStart..e], v, d[e..])
  {
    Reassemble(d, sp.valueStart, e);
    ValueIsFirm(d, key, sp);
    AtValue(d, key, false, sp);
    EditMeet(d, key, sp, e, v);
    AfterScalar(d, sp.valueStart, e);
  }

  lemma PatchIsQuiet(d: Bytes, key: Bytes, sp: Span, e: nat, v: Bytes, other: Bytes, fold: bool)
    requires Edits(d, key, sp, e, v) && NoWord(v, other, fold)
    ensures Quiet(d[..sp.valueStart], v, d[e..], other, fold)
  {
    var vs, p, r := sp.valueStart, d[..sp.valueStart], d[e..];
    EditMeet(d, key, sp, e, v);
    AfterScalar(d, vs, e);
    SafeFacts(v);
    forall s | |p| <= s < |p| + |v| ensures !AssignAt(p + v + r, 0, s, other, fold) {
      MiddleAssign(p, v, r, 0, s - |p|, other, fold);
    }
  }

  /** The other key is assigned elsewhere: after the edited value, or with its own value before the edited key. */
  ghost predicate Elsewhere(d: Bytes, sp: Span, e: nat, other: Bytes, fold: bool) {
    match Assignment(d, other, 0, fold)
    case None => true
    case Some(b) => e <= b.keyStart || ValueStop(d, b.valueStart) <= sp.keyStart
  }

  /**
   Non-interference of one patch: a key that is assigned elsewhere, and whose name the new
   value does not contain, is found at the moved place and reads as before.
   */
  lemma PatchLeavesOthers(d: Bytes, key: Bytes, sp: Span, e: nat, v: Bytes, other: Bytes, fold: bool)
    requires Edits(d, key, sp, e, v) && NoWord(v, other, fold) && Elsewhere(d, sp, e, other, fold)
    ensures FoundAgain(d, Patched(d, sp.valueStart, e, v), sp.valueStart, |v| - (e - sp.valueStart), other, fold)
    ensures ReadScalar(Patched(d, sp.valueStart, e, v), other, fold) == ReadScalar(d, other, fold)
  {
    hide IsSpan, Replaces, AssignAt, SpanAt, Assignment, ValueStop, Cut, Quiet, NoWord, FoundAgain, ReadScalar;
    var vs := sp.valueStart;
    Reassemble(d, vs, e);
    PatchIsCut(d, key, sp, e, v);
    PatchIsQuiet(d, key, sp, e, v, other, fold);
    CutKeepsKey(d[..vs], d[vs..e], v, d[e..], other, fold);
    FoundReads(d, Patched(d, vs, e, v), vs, |v| - (e - vs), other, fold);
  }

  // ----- the managed keys of a file

  /** The values of the assignments `a` and `b` do not reach into each other. */
  predicate Separate(d: Bytes, a: Span, b: Span)
    requires a.valueStart <= |d| && b.valueStart <= |d|
  {
    ValueStop(d, a.valueStart) <= b.keyStart || ValueStop(d, b.valueStart) <= a.keyStart
  }

  /** The first assignments to the two keys, each found with its own comparison, have separate values. */
  ghost predicate SeparateIn(d: Bytes, a: Bytes, fa: bool, b: Bytes, fb: bool) {
    var x, y := Assignment(d, a, 0, fa), Assignment(d, b, 0, fb);
    x.Some? && y.Some? ==> Separate(d, x.value, y.value)
  }

  ghost predicate SeparateKeys(d: Bytes, a: Bytes, b: Bytes) {
    SeparateIn(d, a, false, b, false)
  }

  ghost predicate NotAComment(d: Bytes, a: Bytes) {
    var x := Assignment(d, a, 0, false);
    x.Some? ==> !CommentAt(d, x.value.valueStart)
  }

  /** The managed keys of a file have disjoint values, none of which is directly a comment. */
  ghost predicate Layout(d: Bytes, keys: set<Bytes>) {
    && (forall a | a in keys :: NotAComment(d, a))
    && forall a, b | a in keys && b in keys && a != b :: SeparateKeys(d, a, b)
  }

  /** A new value that is one whole scalar and names no managed key. */
  ghost predicate SafeValue(v: Bytes, keys: set<Bytes>) {
    SafeScalar(v) && forall b | b in keys :: NoWord(v, b, false)
  }

  /** After a patch of `key`: the patched key reads `v`, and each managed key is where it was, moved by the edit. */
  lemma {:induction false} PatchedKey(d: Bytes, key: Bytes, v: Bytes)
    requires Patch(d, key, v).Some? && SafeScalar(v) && NotAComment(d, key)
    ensures var sp := Assignment(d, key, 0, false).value;
            var e := ScalarEnd(d, sp.valueStart).value;
            var d' := Patch(d, key, v).value;
            && Edits(d, key, sp, e, v) && d' == Patched(d, sp.valueStart, e, v)
            && Assignment(d', key, 0, false) == Some(sp)
            && ReadScalar(d', key, false) == Some(v)
            && ValueStop(d', sp.valueStart) == ValueStop(d, sp.valueStart) + |v| - (e - sp.valueStart)
            && !CommentAt(d', sp.valueStart)
  {
    var sp := Assignment(d, key, 0, false).value;
    var e := ScalarEnd(d, sp.valueStart).value;
    PatchRoundTrip(d, key, v);
    PatchedStop(d, sp.valueStart, e, v);
    ValueMeet(d, sp.valueStart, e, v);
    SafeFacts(v);
    MiddleComment(d[..sp.valueStart], v, d[e..], 0);
  }

  /** Patching keeps the layout, gives the key its value and leaves the other managed keys alone. */
  lemma PatchKeepsLayout(d: Bytes, key: Bytes, v: Bytes, keys: set<Bytes>)
    requires Layout(d, keys) && key in keys && SafeValue(v, keys) && Patch(d, key, v).Some?
    ensures var d' := Patch(d, key, v).value;
            && Layout(d', keys)
            && ReadScalar(d', key, false) == Some(v)
            && forall b | b in keys && b != key :: ReadScalar(d', b, false) == ReadScalar(d, b, false)
  {
    hide AssignAt, SpanAt, Assignment, ValueStop, ReadScalar, SafeScalar, NoWord, IsSpan, Replaces, FoundAgain, Patched;
    var d' := Patch(d, key, v).value;
    var sp := Assignment(d, key, 0, false).value;
    var e := ScalarEnd(d, sp.valueStart).value;
    assert NotAComment(d, key);
    PatchedKey(d, key, v);
    forall b | b in keys && b != key
      ensures FoundAgain(d, d', sp.valueStart, |v| - (e - sp.valueStart), b, false)
      ensures ReadScalar(d', b, false) == ReadScalar(d, b, false) && NotAComment(d', b)
    {
      assert SeparateKeys(d, key, b) && NotAComment(d, b);
      OtherKey(d, key, sp, e, v, b);
    }
    forall a, b | a in keys && b in keys && a != b ensures SeparateKeys(d', a, b) {
      assert SeparateKeys(d, a, b);
      assert b != key ==> SeparateKeys(d, key, b);
      assert a != key ==> SeparateKeys(d, key, a);
      StaySeparate(d, d', key, sp, e, v, a, false, b, false);
    }
  }

  lemma OtherKey(d: Bytes, key: Bytes, sp: Span, e: nat, v: Bytes, b: Bytes)
    requires Edits(d, key, sp, e, v) && e <= ValueStop(d, sp.valueStart) && NoWord(v, b, false)
    requires NotAComment(d, b)
    requires Assignment(d, key, 0, false) == Some(sp) && SeparateKeys(d, key, b)
    ensures var d' := Patched(d, sp.valueStart, e, v);
            && FoundAgain(d, d', sp.valueStart, |v| - (e - sp.valueStart), b, false)
            && ReadScalar(d', b, false) == ReadScalar(d, b, false)
            && NotAComment(d', b)
  {
    hide AssignAt, SpanAt, Assignment, ValueStop, ReadScalar, SafeScalar, NoWord, IsSpan, Replaces, CommentAt, ScalarText, Patched;
    PatchLeavesOthers(d, key, sp, e, v, b, false);
  }

  /** Where a key stands after the patch. */
  ghost predicate Shifted(d: Bytes, d': Bytes, sp: Span, e: nat, v: Bytes, a: Bytes, fold: bool) {
    match Assignment(d, a, 0, fold)
    case None => Assignment(d', a, 0, fold) == None
    case Some(x) =>
      var y := Assignment(d', a, 0, fold);
      var n := |v| - (e - sp.valueStart);
      && y.Some?
      && y.value.keyStart == x.keyStart + (if x.keyStart < sp.valueStart then 0 else n)
      && ValueStop(d', y.value.valueStart) == ValueStop(d, x.valueStart) + (if x.keyStart < sp.keyStart then 0 else n)
  }

  /** The key is the patched one, or stands elsewhere and is found again. */
  ghost predicate Followed(d: Bytes, d': Bytes, key: Bytes, sp: Span, e: nat, v: Bytes, a: Bytes, fold: bool) {
    || (a == key && !fold)
    || (SeparateIn(d, key, false, a, fold) && FoundAgain(d, d', sp.valueStart, |v| - (e - sp.valueStart), a, fold))
  }

  lemma StaySeparate(d: Bytes, d': Bytes, key: Bytes, sp: Span, e: nat, v: Bytes, a: Bytes, fa: bool, b: Bytes, fb: bool)
    requires Assignment(d, key, 0, false) == Some(sp) && sp.valueStart <= e <= ValueStop(d, sp.valueStart)
    requires (a != b || fa != fb) && SeparateIn(d, a, fa, b, fb)
    requires Followed(d, d', key, sp, e, v, a, fa) && Followed(d, d', key, sp, e, v, b, fb)
    requires Assignment(d', key, 0, false) == Some(sp)
    requires ValueStop(d', sp.valueStart) == ValueStop(d, sp.valueStart) + |v| - (e - sp.valueStart)
    ensures SeparateIn(d', a, fa, b, fb)
  {
    hide Assignment, AssignAt, SpanAt, ValueStop, ScalarText, FoundAgain;
    IsShifted(d, d', key, sp, e, v, a, fa);
    IsShifted(d, d', key, sp, e, v, b, fb);
  }

  lemma IsShifted(d: Bytes, d': Bytes, key: Bytes, sp: Span, e: nat, v: Bytes, a: Bytes, fold: bool)
    requires Assignment(d, key, 0, false) == Some(sp) && sp.valueStart <= e <= ValueStop(d, sp.valueStart)
    requires Followed(d, d', key, sp, e, v, a, fold)
    requires Assignment(d', key, 0, false) == Some(sp)
    requires ValueStop(d', sp.valueStart) == ValueStop(d, sp.valueStart) + |v| - (e - sp.valueStart)
    ensures Shifted(d, d', sp, e, v, a, fold)
  {
    hide Assignment, AssignAt, SpanAt, ValueStop, ScalarText;
  }

  // ----- rendering a batch

  /** renderRRConfig and renderSIBConfig: patch the dirty keys in order, skipping keys of other files. */
  function Render(d: Bytes, dirty: seq<Bytes>, values: map<Bytes, Bytes>): (r: Option<Bytes>)
    decreases |dirty|
  {
    if dirty == [] then Some(d)
    else if dirty[0] !in values then Render(d, dirty[1..], values)
    else
      match Patch(d, dirty[0], values[dirty[0]])
      case None => None
      case Some(d') => Render(d', dirty[1..], values)
  }

  /** The render loop; `values` maps the keys of the file's patch table to the text of their values. */
  method RenderFile(data: Bytes, dirty: seq<Bytes>, values: map<Bytes, Bytes>) returns (r: Option<Bytes>)
    ensures r == Render(data, dirty, values)
  {
    var out := data;
    var i := 0;
    while i < |dirty|
      invariant 0 <= i <= |dirty|
      invariant Render(out, dirty[i..], values) == Render(data, dirty, values)
    {
      var key := dirty[i];
      assert dirty[i..][1..] == dirty[i + 1..];
      if key in values {
        var ok: bool;
        out, ok := PatchLibconfigScalarOptional(out, key, values[key]);
        if !ok {
          return None;
        }
      }
      i := i + 1;
    }
    return Some(out);
  }

  lemma PatchSucceeds(d: Bytes, key: Bytes, v: Bytes)
    ensures Patch(d, key, v).Some? <==> ReadScalar(d, key, false).Some?
  {}

  ghost predicate AllPresent(d: Bytes, dirty: seq<Bytes>, values: map<Bytes, Bytes>) {
    forall k | k in dirty && k in values :: ReadScalar(d, k, false).Some?
  }

  /** What a rendered file reads at every managed key. */
  ghost predicate Rendered(d: Bytes, d': Bytes, dirty: seq<Bytes>, values: map<Bytes, Bytes>) {
    forall k | k in values ::
      ReadScalar(d', k, false) == if k in dirty then Some(values[k]) else ReadScalar(d, k, false)
  }

  /**
   Batch rendering. Over a file whose managed keys have disjoint values, with safe new values,
   the batch succeeds exactly when every dirty key of the file has a readable value; then every
   dirty key reads as its own new value, every other managed key reads as before, and the file
   is again one whose managed keys have disjoint values.
   */
  lemma {:induction false} BatchIsNonInterfering(d: Bytes, dirty: seq<Bytes>, values: map<Bytes, Bytes>)
    requires Layout(d, values.Keys)
    requires forall k | k in dirty && k in values :: SafeValue(values[k], values.Keys)
    ensures Render(d, dirty, values).Some? <==> AllPresent(d, dirty, values)
    ensures Render(d, dirty, values).Some? ==>
              && Layout(Render(d, dirty, values).value, values.Keys)
              && Rendered(d, Render(d, dirty, values).value, dirty, values)
    decreases |dirty|
  {
    hide Layout, SafeValue, ReadScalar, Patch;
    if dirty != [] {
      var k, rest := dirty[0], dirty[1..];
      if k !in values {
        BatchIsNonInterfering(d, rest, values);
      } else {
        PatchSucceeds(d, k, values[k]);
        if Patch(d, k, values[k]).Some? {
          var d' := Patch(d, k, values[k]).value;
          PatchKeepsLayout(d, k, values[k], values.Keys);
          BatchIsNonInterfering(d', rest, values);
          assert forall b | b in values && b != k :: ReadScalar(d', b, false) == ReadScalar(d, b, false);
        }
      }
    }
  }

  // ----- a key that only the reader knows

  /** The reader's key, if it is assigned, has its value apart from every managed value. */
  ghost predicate ReaderApart(d: Bytes, keys: set<Bytes>, other: Bytes) {
    forall a | a in keys :: SeparateIn(d, a, false, other, true)
  }

  /** A patch of a managed key leaves the reader's key alone. */
  lemma PatchLeavesReader(d: Bytes, key: Bytes, v: Bytes, keys: set<Bytes>, other: Bytes)
    requires Layout(d, keys) && key in keys && SafeValue(v, keys) && NoWord(v, other, true) && Patch(d, key, v).Some?
    requires ReaderApart(d, keys, other)
    ensures var d' := Patch(d, key, v).value;
            ReadScalar(d', other, true) == ReadScalar(d, other, true) && ReaderApart(d', keys, other)
  {
    hide AssignAt, SpanAt, Assignment, ValueStop, ReadScalar, SafeScalar, NoWord, IsSpan, Replaces, FoundAgain, Patched, ScalarEnd, SeparateIn;
    var d' := Patch(d, key, v).value;
    var sp := Assignment(d, key, 0, false).value;
    var e := ScalarEnd(d, sp.valueStart).value;
    assert NotAComment(d, key) && SeparateIn(d, key, false, other, true);
    PatchedKey(d, key, v);
    ValueIsInside(d, sp.valueStart, e);
    ApartIsElsewhere(d, key, sp, e, other, true);
    PatchLeavesOthers(d, key, sp, e, v, other, true);
    forall a | a in keys ensures SeparateIn(d', a, false, other, true) {
      assert SeparateIn(d, a, false, other, true);
      if a != key {
        assert SeparateKeys(d, key, a) && NoWord(v, a, false);
        ApartIsElsewhere(d, key, sp, e, a, false);
        PatchLeavesOthers(d, key, sp, e, v, a, false);
      }
      StaySeparate(d, d', key, sp, e, v, a, false, other, true);
    }
  }

  lemma ValueIsInside(d: Bytes, vs: nat, e: nat)
    requires vs <= |d| && ScalarEnd(d, vs) == Some(e)
    ensures vs <= e <= ValueStop(d, vs)
  {}

  lemma ApartIsElsewhere(d: Bytes, key: Bytes, sp: Span, e: nat, other: Bytes, fold: bool)
    requires Assignment(d, key, 0, false) == Some(sp) && sp.valueStart <= e <= ValueStop(d, sp.valueStart)
    requires SeparateIn(d, key, false, other, fold)
    ensures Elsewhere(d, sp, e, other, fold)
  {
    hide Assignment, ValueStop;
  }

  /** A batch of patches leaves the reader's key alone. */
  lemma {:induction false} BatchLeavesReader(d: Bytes, order: seq<Bytes>, values: map<Bytes, Bytes>, other: Bytes)
    requires Layout(d, values.Keys) && ReaderApart(d, values.Keys, other)
    requires forall k | k in order && k in values :: SafeValue(values[k], values.Keys) && NoWord(values[k], other, true)
    requires Render(d, order, values).Some?
    ensures ReadScalar(Render(d, order, values).value, other, true) == ReadScalar(d, other, true)
    decreases |order|
  {
    hide Layout, SafeValue, ReadScalar, Patch, ReaderApart, NoWord;
    if order != [] {
      var k, rest := order[0], order[1..];
      if k !in values {
        BatchLeavesReader(d, rest, values, other);
      } else {
        PatchKeepsLayout(d, k, values[k], values.Keys);
        PatchLeavesReader(d, k, values[k], values.Keys, other);
        BatchLeavesReader(Patch(d, k, values[k]).value, rest, values, other);
      }
    }
  }
}
