/**
 rr.conf with one line for each managed key: patches keep it so, and the reader finds what the renderer
 writes.
 */
module RrShape {
  import opened Lexer
  import opened Splice
  import opened Cutting
  import opened Overlay
  import opened Batch
  import opened Text
  import opened Ini
  import opened IniLines
  import opened IniValues
  import opened IniWriting
  import opened Routing
  import opened RrLines
  import opened RrReader

  // ----- lines and offsets

  lemma {:induction false} JoinOfSplit(d: Bytes)
    ensures Join(SplitLines(d)) == d
    decreases |d|
  {
    hide Join;
    NothingJoined();
    if d != [] {
      var e := LineEnd(d, 0);
      if e == |d| {
        JoinOne(d);
      } else {
        JoinOfSplit(d[e + 1..]);
        JoinCons(d[..e + 1], SplitLines(d[e + 1..]));
      }
    }
  }

  lemma NothingJoined()
    ensures Join([]) == []
  {}

  /** Where line `i` starts. */
  function Offset(ls: seq<Bytes>, i: nat): nat
    requires i <= |ls|
  {
    |Join(ls[..i])|
  }

  lemma OffsetStep(ls: seq<Bytes>, i: nat)
    requires i < |ls|
    ensures Offset(ls, i + 1) == Offset(ls, i) + |ls[i]|
    ensures Join(ls) == Join(ls[..i]) + ls[i] + Join(ls[i + 1..])
  {
    assert ls[..i + 1] == ls[..i] + [ls[i]];
    JoinConcat(ls[..i], [ls[i]]);
    JoinOne(ls[i]);
    assert ls == ls[..i + 1] + ls[i + 1..];
    JoinConcat(ls[..i + 1], ls[i + 1..]);
  }

  lemma {:induction false} OffsetsGrow(ls: seq<Bytes>, i: nat, j: nat)
    requires i <= j <= |ls|
    ensures Offset(ls, i) <= Offset(ls, j)
    decreases j
  {
    if i < j {
      OffsetsGrow(ls, i, j - 1);
      OffsetStep(ls, j - 1);
    }
  }

  /** Replacing a line moves the later ones. */
  lemma {:induction false} OffsetMoves(ls: seq<Bytes>, i: nat, l: Bytes, j: nat)
    requires i < |ls| && j <= |ls|
    ensures Offset(ls[i := l], j) == Offset(ls, j) + if j <= i then 0 else |l| - |ls[i]|
    decreases j
  {
    var ls' := ls[i := l];
    if j <= i {
      assert ls'[..j] == ls[..j];
    } else {
      OffsetMoves(ls, i, l, j - 1);
      OffsetStep(ls, j - 1);
      OffsetStep(ls', j - 1);
    }
  }

  // ----- the line of a key

  /** Line `i` is a front with the key at `a` and '=' at `q`, a value, a rear with its ';' at `m` and its comment at `c`. */
  datatype Lone = Lone(i: nat, a: nat, q: nat, m: nat, c: nat, front: Bytes, rear: Bytes, eol: Bytes)

  function LineWith(x: Lone, v: Bytes): Bytes {
    x.front + v + x.rear + x.eol
  }

  /** The value has its line to itself. */
  ghost predicate LineIs(ls: seq<Bytes>, k: Bytes, v: Bytes, x: Lone) {
    && x.i < |ls| && ls[x.i] == LineWith(x, v) && IsLoneValue(v)
    && IsFront(x.front, x.a, x.q, k) && IsRear(x.rear, x.m, x.c) && IsEol(x.eol)
  }

  /** The renderer finds the key on the line. */
  ghost predicate FoundOn(d: Bytes, ls: seq<Bytes>, k: Bytes, x: Lone) {
    && x.i < |ls|
    && var sp := Assignment(d, k, 0, false);
       sp.Some? && sp.value.keyStart == Offset(ls, x.i) + x.a && sp.value.valueStart == Offset(ls, x.i) + |x.front|
  }

  ghost predicate OnlyAt(ls: seq<Bytes>, k: Bytes, i: nat) {
    forall j | 0 <= j < |ls| && j != i :: !IsEntryOf(ls[j], k)
  }

  /** The key is on one line, which it has to itself and where the renderer finds it, or on none. */
  ghost predicate OneLine(d: Bytes, k: Bytes) {
    var ls := SplitLines(d);
    match ReadScalar(d, k, false)
    case None => forall j | 0 <= j < |ls| :: !IsEntryOf(ls[j], k)
    case Some(v) => exists x: Lone :: LineIs(ls, k, v, x) && FoundOn(d, ls, k, x) && OnlyAt(ls, k, x.i)
  }

  ghost predicate Shape(d: Bytes) {
    Layout(d, RR_KEYS) && forall k | k in RR_KEYS :: OneLine(d, k)
  }

  lemma LineBody(x: Lone, k: Bytes, v: Bytes)
    requires IsFront(x.front, x.a, x.q, k) && IsRear(x.rear, x.m, x.c) && IsEol(x.eol) && IsLoneValue(v)
    ensures var s := x.front + v + x.rear; s != [] && s[|s| - 1] != '\r' && '\n' !in s
  {
    hide IsFront, CommentAt, ModeAt;
    FrontHasNoFeed(x, k);
    var s := x.front + v + x.rear;
    assert s[|s| - 1] == if x.rear != [] then x.rear[|x.rear| - 1] else v[|v| - 1];
    assert IsTrimmed(v) && IsBlank('\r');
  }

  lemma FrontHasNoFeed(x: Lone, k: Bytes)
    requires IsFront(x.front, x.a, x.q, k)
    ensures '\n' !in x.front
  {}

  /** Such a line is a line, and is read as the key and the value. */
  lemma LineFacts(x: Lone, k: Bytes, v: Bytes)
    requires IsFront(x.front, x.a, x.q, k) && IsRear(x.rear, x.m, x.c) && IsEol(x.eol) && IsLoneValue(v) && IsLowerName(k)
    ensures IsPiece(LineWith(x, v)) && (IsLine(LineWith(x, v)) <==> x.eol != [])
    ensures RrEntry(LineWith(x, v)) == Some((k, v))
  {
    hide IsFront, IsRear, AssignmentLine, StripComment, ScanLine, IsLine, IsPiece, Lower, Unquote, SafeIni;
    var s := x.front + v + x.rear;
    LineBody(x, k, v);
    LineOf(s, x.eol);
    NoFeedNoLine(s);
    assert x.eol == [] ==> LineWith(x, v) == s;
    LineIsEntry(x.front, x.a, x.q, k, v, x.rear, x.m, x.c);
    LowerIsSame(k);
    SafeUnquotes(v);
  }

  lemma NoFeedNoLine(s: Bytes)
    requires '\n' !in s
    ensures !IsLine(s)
  {
    assert s != [] ==> s[|s| - 1] in s;
  }

  lemma LineLength(x: Lone, k: Bytes, v: Bytes)
    requires IsFront(x.front, x.a, x.q, k) && v != []
    ensures x.a < |x.front| && |x.front| < |LineWith(x, v)|
  {}

  // ----- a patch

  /** The patch replaces the value within its line. */
  lemma PatchedLine(d: Bytes, d': Bytes, k: Bytes, v: Bytes, v': Bytes, x: Lone)
    requires LineIs(SplitLines(d), k, v, x) && IsLoneValue(v') && IsLowerName(k)
    requires var at := Offset(SplitLines(d), x.i) + |x.front|;
             at + |v| <= |d| && d' == Patched(d, at, at + |v|, v')
    ensures SplitLines(d') == SplitLines(d)[x.i := LineWith(x, v')]
  {
    hide SplitLines, LineIs, IsLoneValue, IsLowerName, Join, AllPieces, LineWith, Offset, Patched;
    LineAt(SplitLines(d), k, v, x);
    JoinOfSplit(d);
    JoinPatched(SplitLines(d), x, v, v');
    PiecesAgain(d, k, v, v', x);
    SplitOfJoin(SplitLines(d)[x.i := LineWith(x, v')]);
  }

  lemma LineAt(ls: seq<Bytes>, k: Bytes, v: Bytes, x: Lone)
    requires LineIs(ls, k, v, x)
    ensures x.i < |ls| && ls[x.i] == LineWith(x, v)
  {}

  lemma PiecesAgain(d: Bytes, k: Bytes, v: Bytes, v': Bytes, x: Lone)
    requires LineIs(SplitLines(d), k, v, x) && IsLoneValue(v') && IsLowerName(k)
    ensures AllPieces(SplitLines(d)[x.i := LineWith(x, v')])
  {
    hide SplitLines, IsFront, IsRear, IsLoneValue, IsEol, IsLowerName, AllPieces, IsPiece, IsLine, RrEntry, LineWith;
    LineFacts(x, k, v);
    LineFacts(x, k, v');
    SplitGivesPieces(d);
    StillPieces(SplitLines(d), x.i, LineWith(x, v'));
  }

  lemma JoinPatched(ls: seq<Bytes>, x: Lone, v: Bytes, v': Bytes)
    requires x.i < |ls| && ls[x.i] == LineWith(x, v)
    ensures var d, at := Join(ls), Offset(ls, x.i) + |x.front|;
            at + |v| <= |d| && Join(ls[x.i := LineWith(x, v')]) == Patched(d, at, at + |v|, v')
  {
    hide Join, LineWith;
    var ls' := ls[x.i := LineWith(x, v')];
    OffsetStep(ls, x.i);
    OffsetStep(ls', x.i);
    assert ls'[..x.i] == ls[..x.i] && ls'[x.i + 1..] == ls[x.i + 1..];
    SpliceInLine(Join(ls[..x.i]), x, v, v', Join(ls[x.i + 1..]));
  }

  lemma SpliceInLine(p: Bytes, x: Lone, v: Bytes, v': Bytes, r: Bytes)
    ensures var d, at := p + LineWith(x, v) + r, |p| + |x.front|;
            at + |v| <= |d| && p + LineWith(x, v') + r == d[..at] + v' + d[at + |v|..]
  {
    var d, at := p + LineWith(x, v) + r, |p| + |x.front|;
    assert d == (p + x.front) + (v + (x.rear + x.eol + r));
    assert d[..at] == p + x.front;
    assert d[at + |v|..] == x.rear + x.eol + r;
  }

  lemma StillPieces(ls: seq<Bytes>, i: nat, l': Bytes)
    requires AllPieces(ls) && i < |ls| && IsPiece(l') && (IsLine(ls[i]) ==> IsLine(l'))
    ensures AllPieces(ls[i := l'])
  {
    hide IsPiece, IsLine;
    assert i < |ls| - 1 ==> IsLine(ls[i]);
  }

  /** The lines of the file before and after the patch of a key. */
  ghost predicate Rewritten(d: Bytes, d': Bytes, key: Bytes, v: Bytes, v': Bytes, x: Lone) {
    var ls := SplitLines(d);
    && LineIs(ls, key, v, x) && FoundOn(d, ls, key, x) && OnlyAt(ls, key, x.i)
    && IsLoneValue(v') && SplitLines(d') == ls[x.i := LineWith(x, v')]
  }

  lemma RowsAfter(d: Bytes, d': Bytes, key: Bytes, v: Bytes, v': Bytes, x: Lone)
    requires Rewritten(d, d', key, v, v', x) && IsLowerName(key)
    ensures var ls, ls' := SplitLines(d), SplitLines(d');
            && |ls'| == |ls| && x.i < |ls| && (forall j | 0 <= j < |ls| && j != x.i :: ls'[j] == ls[j]) && ls'[x.i] == LineWith(x, v')
            && RrEntry(ls[x.i]) == Some((key, v)) && RrEntry(ls'[x.i]) == Some((key, v'))
  {
    hide SplitLines, IsFront, IsRear, IsLoneValue, IsEol, IsLowerName, RrEntry, FoundOn, OnlyAt, LineWith;
    LineFacts(x, key, v);
    LineFacts(x, key, v');
  }

  lemma KeyAgain(d: Bytes, d': Bytes, key: Bytes, v: Bytes, v': Bytes, x: Lone)
    requires Rewritten(d, d', key, v, v', x) && IsLowerName(key)
    requires Assignment(d', key, 0, false) == Assignment(d, key, 0, false) && ReadScalar(d', key, false) == Some(v')
    ensures OneLine(d', key)
  {
    hide SplitLines, IsFront, IsRear, IsLoneValue, IsEol, IsLowerName, RrEntry, LineWith, Assignment, ReadScalar, Offset;
    RowsAfter(d, d', key, v, v', x);
    OffsetMoves(SplitLines(d), x.i, LineWith(x, v'), x.i);
    assert LineIs(SplitLines(d'), key, v', x);
  }

  /** A key on another line has moved with its line. */
  lemma OtherMoved(d: Bytes, d': Bytes, key: Bytes, v: Bytes, v': Bytes, x: Lone, k: Bytes, y: Lone)
    requires Rewritten(d, d', key, v, v', x) && y.i < |SplitLines(d)| && y.i != x.i && y.a < |SplitLines(d)[y.i]|
    requires FoundOn(d, SplitLines(d), k, y) && |SplitLines(d')| == |SplitLines(d)|
    requires FoundAgain(d, d', Assignment(d, key, 0, false).value.valueStart, |v'| - |v|, k, false)
    ensures FoundOn(d', SplitLines(d'), k, y)
  {
    hide SplitLines, IsRear, IsLoneValue, IsEol, RrEntry, Assignment, Offset, OnlyAt, SameScan;
    var ls := SplitLines(d);
    OffsetMoves(ls, x.i, LineWith(x, v'), y.i);
    LineLength(x, key, v) by { LoneIsThere(v); }
    OffsetStep(ls, x.i);
    OffsetStep(ls, y.i);
    if y.i < x.i {
      OffsetsGrow(ls, y.i + 1, x.i);
    } else {
      OffsetsGrow(ls, x.i + 1, y.i);
    }
  }

  lemma LoneIsThere(v: Bytes)
    requires IsLoneValue(v)
    ensures v != []
  {}

  lemma OtherAgain(d: Bytes, d': Bytes, key: Bytes, v: Bytes, v': Bytes, x: Lone, k: Bytes)
    requires Rewritten(d, d', key, v, v', x) && IsLowerName(key) && IsLowerName(k) && k != key && OneLine(d, k)
    requires FoundAgain(d, d', Assignment(d, key, 0, false).value.valueStart, |v'| - |v|, k, false)
    requires ReadScalar(d', k, false) == ReadScalar(d, k, false)
    ensures OneLine(d', k)
  {
    hide SplitLines, IsFront, IsRear, IsLoneValue, IsEol, IsLowerName, RrEntry, LineWith, Assignment, ReadScalar, Offset, FoundAgain, FoundOn, Rewritten;
    RowsAfter(d, d', key, v, v', x);
    var ls, ls' := SplitLines(d), SplitLines(d');
    if ReadScalar(d, k, false).Some? {
      var w := ReadScalar(d, k, false).value;
      var y: Lone :| LineIs(ls, k, w, y) && FoundOn(d, ls, k, y) && OnlyAt(ls, k, y.i);
      LineFacts(y, k, w);
      LineLength(y, k, w) by { LoneIsThere(w); }
      OtherMoved(d, d', key, v, v', x, k, y);
      assert LineIs(ls', k, w, y) && OnlyAt(ls', k, y.i);
    }
  }

  lemma RrNames(k: string)
    requires k in RR_KEYS
    ensures IsLowerName(k)
  {
    forall i | 0 <= i < |k| ensures IsIdent(k[i]) && LowerChar(k[i]) == k[i] {}
  }

  /** A patch of a managed key keeps the shape. */
  lemma PatchKeepsShape(d: Bytes, key: Bytes, v': Bytes)
    requires Shape(d) && key in RR_KEYS && SafeValue(v', RR_KEYS) && IsLoneValue(v') && Patch(d, key, v').Some?
    ensures Shape(Patch(d, key, v').value)
  {
    hide Assignment, ScalarEnd, ValueStop, SafeScalar, NoWord, IsSpan, Replaces, FoundAgain, RR_KEYS, Edits, IsLoneValue,
      SeparateIn, CommentAt, NotAComment, LineIs, FoundOn, OnlyAt, SplitLines, Rewritten, IsLowerName, Patched, ReadScalar;
    var d' := Patch(d, key, v').value;
    var sp := Assignment(d, key, 0, false).value;
    var e := ScalarEnd(d, sp.valueStart).value;
    assert NotAComment(d, key) && OneLine(d, key);
    PatchKeepsLayout(d, key, v', RR_KEYS);
    PatchedKey(d, key, v');
    RrNames(key);
    ReadsSpan(d, key, sp, e);
    var v := ReadScalar(d, key, false).value;
    var x: Lone :| LineIs(SplitLines(d), key, v, x) && FoundOn(d, SplitLines(d), key, x) && OnlyAt(SplitLines(d), key, x.i);
    IsRewritten(d, key, sp, e, v, v', x);
    KeyAgain(d, d', key, v, v', x);
    forall k | k in RR_KEYS ensures OneLine(d', k) {
      if k != key {
        assert OneLine(d, k) && SeparateKeys(d, key, k) && NotAComment(d, k);
        RrNames(k);
        OtherKey(d, key, sp, e, v', k);
        OtherAgain(d, d', key, v, v', x, k);
      }
    }
  }

  lemma ReadsSpan(d: Bytes, key: Bytes, sp: Span, e: nat)
    requires Assignment(d, key, 0, false) == Some(sp) && ScalarEnd(d, sp.valueStart) == Some(e)
    ensures ReadScalar(d, key, false) == Some(d[sp.valueStart..e]) && |d[sp.valueStart..e]| == e - sp.valueStart && e <= ValueStop(d, sp.valueStart)
  {}

  lemma IsRewritten(d: Bytes, key: Bytes, sp: Span, e: nat, v: Bytes, v': Bytes, x: Lone)
    requires Assignment(d, key, 0, false) == Some(sp) && sp.valueStart <= e <= |d| && |v| == e - sp.valueStart && IsLowerName(key)
    requires LineIs(SplitLines(d), key, v, x) && FoundOn(d, SplitLines(d), key, x) && OnlyAt(SplitLines(d), key, x.i) && IsLoneValue(v')
    ensures Rewritten(d, Patched(d, sp.valueStart, e, v'), key, v, v', x)
  {
    hide Assignment, LineIs, FoundOn, OnlyAt, SplitLines, IsLoneValue, Patched, IsLowerName, LineWith, Offset;
    FoundFacts(d, SplitLines(d), key, x, sp);
    PatchedLine(d, Patched(d, sp.valueStart, e, v'), key, v, v', x);
  }

  lemma FoundFacts(d: Bytes, ls: seq<Bytes>, k: Bytes, x: Lone, sp: Span)
    requires FoundOn(d, ls, k, x) && Assignment(d, k, 0, false) == Some(sp)
    ensures x.i < |ls| && sp.valueStart == Offset(ls, x.i) + |x.front|
  {}

  /** So does a batch. */
  lemma {:induction false} RenderKeepsShape(d: Bytes, order: seq<Bytes>, values: map<Bytes, Bytes>)
    requires Shape(d) && values.Keys == RR_KEYS
    requires forall k | k in order && k in values :: SafeValue(values[k], RR_KEYS) && IsLoneValue(values[k])
    requires Render(d, order, values).Some?
    ensures Shape(Render(d, order, values).value)
    decreases |order|
  {
    hide Shape, SafeValue, Patch, IsLoneValue, RR_KEYS;
    if order != [] {
      var k, rest := order[0], order[1..];
      if k !in values {
        RenderKeepsShape(d, rest, values);
      } else {
        PatchKeepsShape(d, k, values[k]);
        RenderKeepsShape(Patch(d, k, values[k]).value, rest, values);
      }
    }
  }

  /** In a file of that shape, the reader ends up with the renderer's value of a key, if it accepts it at all. */
  lemma ShapeReads(d: Bytes, k: string)
    requires Shape(d) && k in RR_KEYS
    ensures var values := RrValues(SplitLines(d));
            match ReadScalar(d, k, false)
            case None => k !in values
            case Some(v) => if Suits(k, v) then k in values && values[k] == v else k !in values
  {
    hide SplitLines, RR_KEYS, Layout, IsFront, IsRear, IsLoneValue, IsEol, IsLowerName, FoundOn, ReadScalar, RrEntry, Suits, LineWith, RrValues;
    var ls := SplitLines(d);
    RrNames(k);
    assert OneLine(d, k);
    match ReadScalar(d, k, false)
    case None => NoEntry(ls, k);
    case Some(v) =>
      var x: Lone :| LineIs(ls, k, v, x) && FoundOn(d, ls, k, x) && OnlyAt(ls, k, x.i);
      LineFacts(x, k, v);
      OnlyEntry(ls, x.i, k, v);
  }

  // ----- a key with several lines

  /**
   Of a key whose last line counts for the reader, the renderer writes the first assignment. The new
   value is read back if and only if no acceptable line of the key follows, or the last one happens
   to hold it already.
   */
  lemma LastLineIsRead(d: Bytes, key: Bytes, v: Bytes, v': Bytes, x: Lone)
    requires ReadScalar(d, key, false) == Some(v) && LineIs(SplitLines(d), key, v, x) && FoundOn(d, SplitLines(d), key, x)
    requires key in LAST_KEYS && IsLowerName(key) && IsLoneValue(v') && Suits(key, v')
    ensures Patch(d, key, v').Some?
    ensures var ls, values := SplitLines(d), RrValues(SplitLines(Patch(d, key, v').value));
            && key in values
            && (values[key] == v' <==>
                || (forall j | x.i < j < |ls| :: !SuitingLine(ls[j], key))
                || (key in RrValues(ls) && RrValues(ls)[key] == v'))
  {
    hide SplitLines, Assignment, LAST_KEYS, IsLowerName, IsLoneValue, Suits, RrEntry, RrValues, IsFront, IsRear, IsEol, LineWith, ScalarEnd, Offset;
    var sp := Assignment(d, key, 0, false).value;
    var e := ScalarEnd(d, sp.valueStart).value;
    ReadsSpan(d, key, sp, e);
    PatchedLine(d, Patched(d, sp.valueStart, e, v'), key, v, v', x);
    LineFacts(x, key, v');
    LaterLineWins(SplitLines(d), x.i, LineWith(x, v'), key, v');
  }
}
