/**
 A block that is ready for edits is ready for edits again after one: the condition under which the
 patch of a profile is exact survives the patch.
 */
module QciReady {
  import opened Lexer
  import opened Splice
  import opened Cutting
  import opened Overlay
  import opened Batch
  import opened Numbers
  import opened Config
  import opened Brackets
  import opened Twins
  import opened Qci
  import opened QciFile
  import opened QciProfiles
  import opened QciPatch
  import opened QciInsert
  import opened QciTheorem

  const CONTAINERS: set<string> := {"pdcp_config", "ul_am", "ul_um", "dl_am", "dl_um", "logical_channel_config"}

  const NAMES: set<string> := MANAGED + CONTAINERS

  /** Fields and containers are assigned apart from each other, fields to scalars, containers to blocks. */
  ghost predicate Ready(b: Bytes) {
    && IsBlock(b) && Layout(b, NAMES)
    && (forall g | g in MANAGED :: PlainKey(b, g))
    && (forall c | c in CONTAINERS :: BoundToBlock(b, c))
  }

  lemma ContainersAreKnown(field: string, i: nat)
    requires i < |Containers(field)|
    ensures Containers(field)[i] in CONTAINERS
  {}

  lemma ReadyIsEditable(b: Bytes, field: string)
    requires Ready(b) && field in QCI_FIELDS
    ensures Editable(b, field)
  {
    hide IsBlock, PlainKey, BoundToBlock, SeparateKeys, NotAComment, Containers, CONTAINERS, QCI_FIELDS;
    forall i | 0 <= i < |Containers(field)| ensures BoundToBlock(b, Containers(field)[i]) {
      ContainersAreKnown(field, i);
    }
  }

  // ----- what is found again

  /** Both scanners find the key again, moved alike. */
  lemma PlainAgain(b: Bytes, b': Bytes, at: nat, shift: int, g: Bytes)
    requires PlainKey(b, g) && FoundAgain(b, b', at, shift, g, true) && FoundAgain(b, b', at, shift, g, false)
    ensures PlainKey(b', g)
  {
    hide Assignment, ScalarText;
  }

  /** A block that is found again is still a block. */
  lemma BoundAgain(b: Bytes, b': Bytes, at: nat, x: nat, v: nat, c: Bytes)
    requires BoundToBlock(b, c) && Twin(b, b', at, x, v) && FoundAgain(b, b', at, v - x, c, false)
    requires var a := Assignment(b, c, 0, false);
             a.Some? ==> if a.value.keyStart < at then a.value.valueStart < at else at + x <= a.value.keyStart
    ensures BoundToBlock(b', c)
  {
    hide Assignment, ScalarText, BracketAt, OpenAt, ValueStop;
    var a := Assignment(b, c, 0, false);
    if a.Some? {
      ValueAfterKey(b, c, a.value);
      assert Outside(at, x, a.value.valueStart);
    }
  }

  /** A container that is found again is closed if it was. */
  lemma ContainerAgain(b: Bytes, b': Bytes, at: nat, x: nat, v: nat, c: Bytes)
    requires BoundToBlock(b, c) && Twin(b, b', at, x, v) && FoundAgain(b, b', at, v - x, c, false)
    requires var a := Assignment(b, c, 0, false);
             a.Some? ==> if a.value.keyStart < at then a.value.valueStart < at else at + x <= a.value.keyStart
    ensures Container(b', c, 0).Some? == Container(b, c, 0).Some?
  {
    hide Assignment, ScalarText, BracketAt, OpenAt, ValueStop, MatchingClose, Twin;
    BoundAgain(b, b', at, x, v, c);
    var a := Assignment(b, c, 0, false);
    if a.Some? {
      ValueAfterKey(b, c, a.value);
      SpaceIsSkipped(b, c, false, a.value);
      SpaceIsSkipped(b', c, false, Assignment(b', c, 0, false).value);
      assert Outside(at, x, a.value.valueStart);
      TwinMatch(b, b', at, x, v, a.value.valueStart, '{', '}');
    }
  }

  /** The edit of a field leaves the other fields and the containers where they can be found. */
  ghost predicate Keeps(b: Bytes, b': Bytes, field: string) {
    && (forall g | g in MANAGED && g != field :: Assignment(b', g, 0, false).Some? == Assignment(b, g, 0, false).Some?)
    && (forall c | c in CONTAINERS :: Container(b', c, 0).Some? == Container(b, c, 0).Some?)
  }

  lemma FoundIsAssigned(b: Bytes, b': Bytes, at: nat, shift: int, g: Bytes)
    requires FoundAgain(b, b', at, shift, g, false)
    ensures Assignment(b', g, 0, false).Some? == Assignment(b, g, 0, false).Some?
  {
    hide Assignment, ScalarText;
  }

  lemma ValueAfterKey(b: Bytes, c: Bytes, sp: Span)
    requires Assignment(b, c, 0, false) == Some(sp)
    ensures sp.keyStart < sp.valueStart <= |b|
  {}

  /** The value of a container stops at its own brace. */
  lemma BlockStops(b: Bytes, sp: Span)
    requires sp.valueStart < |b| && b[sp.valueStart] == '{'
    ensures ValueStop(b, sp.valueStart) == sp.valueStart
  {
    assert ModeAt(b, sp.valueStart, sp.valueStart) == Code;
    StopIsUnique(b, sp.valueStart, sp.valueStart);
  }

  // ----- replacement

  lemma ReplacedKeyIsPlain(b: Bytes, key: Bytes, v: Bytes)
    requires PlainKey(b, key) && NotAComment(b, key) && Patch(b, key, v).Some? && SafeScalar(v)
    ensures PlainKey(Patch(b, key, v).value, key)
  {
    hide Assignment, ScalarEnd, SafeScalar;
    var sp := Assignment(b, key, 0, false).value;
    var e := ScalarEnd(b, sp.valueStart).value;
    PatchedKey(b, key, v);
    assert b[..sp.valueStart] + v + b[e..] == b[..sp.valueStart] + (v + b[e..]);
    SafeStart(v);
    SameSpan(b, key, true, sp, v + b[e..]);
  }

  lemma NumberSuits(n: int)
    ensures SafeValue(FormatInt(n), NAMES)
  {
    hide SafeScalar, NoWord, FormatInt, IsNumberText, NAMES;
    PrintedNumbers(n);
    NumberIsSafe(FormatInt(n), [], false);
    forall g | g in NAMES ensures NoWord(FormatInt(n), g, false) {
      NumberIsSafe(FormatInt(n), g, false);
    }
  }

  /** The stretch that a replacement changes, and where the other names stand to it. */
  lemma ReplacementFinds(b: Bytes, field: string, n: int, sp: Span, e: nat, g: Bytes, fold: bool)
    requires Edits(b, field, sp, e, FormatInt(n)) && Assignment(b, field, 0, false) == Some(sp) && ScalarEnd(b, sp.valueStart) == Some(e)
    requires SeparateKeys(b, field, g) && (fold ==> PlainKey(b, g))
    ensures FoundAgain(b, Patched(b, sp.valueStart, e, FormatInt(n)), sp.valueStart, |FormatInt(n)| - (e - sp.valueStart), g, fold)
  {
    hide Assignment, FormatInt, IsSpan, Replaces, Patched, FoundAgain, ValueStop, ReadScalar, NoWord, IsNumberText, SafeScalar;
    PrintedNumbers(n);
    NumberIsSafe(FormatInt(n), g, fold);
    assert Elsewhere(b, sp, e, g, fold);
    PatchLeavesOthers(b, field, sp, e, FormatInt(n), g, fold);
  }

  lemma ReplacementBound(b: Bytes, field: string, sp: Span, e: nat, c: Bytes)
    requires Assignment(b, field, 0, false) == Some(sp) && ScalarEnd(b, sp.valueStart) == Some(e)
    requires SeparateKeys(b, field, c) && BoundToBlock(b, c)
    ensures var a := Assignment(b, c, 0, false);
            a.Some? ==> if a.value.keyStart < sp.valueStart then a.value.valueStart < sp.valueStart else e <= a.value.keyStart
  {
    hide Assignment, ValueStop;
    var a := Assignment(b, c, 0, false);
    ValueAfterKey(b, field, sp);
    if a.Some? {
      ValueAfterKey(b, c, a.value);
      BlockStops(b, a.value);
    }
  }

  lemma ReplacementKeepsReady(b: Bytes, field: string, n: int)
    requires Ready(b) && field in QCI_FIELDS && Patch(b, field, FormatInt(n)).Some?
    ensures Ready(Patch(b, field, FormatInt(n)).value) && Keeps(b, Patch(b, field, FormatInt(n)).value, field)
  {
    hide Assignment, ScalarEnd, ReadScalar, SafeScalar, NoWord, IsSpan, Replaces, Patched, Twin, FormatInt, IsBlock, ModeAt, QCI_FIELDS, CONTAINERS, Container,
      PlainKey, NotAComment, SeparateKeys, BoundToBlock, FoundAgain, ValueStop;
    var v, b' := FormatInt(n), Patch(b, field, FormatInt(n)).value;
    assert field in MANAGED && field in NAMES && PlainKey(b, field) && NotAComment(b, field);
    NumberSuits(n);
    PatchKeepsLayout(b, field, v, NAMES);
    PatchedKey(b, field, v);
    var sp := Assignment(b, field, 0, false).value;
    var e := ScalarEnd(b, sp.valueStart).value;
    PatchIsTwin(b, field, sp, e, v);
    ReplacementInside(b, field, sp, e);
    TwinIsBlock(b, b', sp.valueStart, e - sp.valueStart, |v|);
    forall g | g in MANAGED
      ensures PlainKey(b', g) && (g != field ==> Assignment(b', g, 0, false).Some? == Assignment(b, g, 0, false).Some?)
    {
      assert PlainKey(b, g);
      if g == field {
        ReplacedKeyIsPlain(b, field, v);
      } else {
        assert g in NAMES && SeparateKeys(b, field, g);
        ReplacementFinds(b, field, n, sp, e, g, true);
        ReplacementFinds(b, field, n, sp, e, g, false);
        PlainAgain(b, b', sp.valueStart, |v| - (e - sp.valueStart), g);
        FoundIsAssigned(b, b', sp.valueStart, |v| - (e - sp.valueStart), g);
      }
    }
    forall c | c in CONTAINERS ensures BoundToBlock(b', c) && Container(b', c, 0).Some? == Container(b, c, 0).Some? {
      ContainerIsNoField(c, field);
      assert c in NAMES && SeparateKeys(b, field, c) && BoundToBlock(b, c);
      ReplacementFinds(b, field, n, sp, e, c, false);
      ReplacementBound(b, field, sp, e, c);
      BoundAgain(b, b', sp.valueStart, e - sp.valueStart, |v|, c);
      ContainerAgain(b, b', sp.valueStart, e - sp.valueStart, |v|, c);
    }
  }

  lemma ContainerIsNoField(c: string, field: string)
    requires c in CONTAINERS && field in QCI_FIELDS
    ensures c != field && Distinct(field, c)
  {
    if |field| == |c| {
      assert field[0] != c[0];
    }
  }

  // ----- insertion

  /** A container stands on one side of any closing brace. */
  lemma BlockIsApart(b: Bytes, close: nat, c: Bytes)
    requires close < |b| && BracketAt(b, close) && b[close] == '}' && BoundToBlock(b, c)
    ensures Apart(b[..close], [], b[close..], c, false)
    ensures var a := Assignment(b, c, 0, false);
            a.Some? && a.value.keyStart < close ==> a.value.valueStart < close
  {
    hide BracketAt, AssignAt, SpanAt, Assignment, ValueStop;
    Rejoin(b, close, []);
    var a := Assignment(b, c, 0, false);
    if a.Some? {
      BlockStops(b, a.value);
      if a.value.keyStart < close {
        FirstIsSpan(b, c, a.value);
        BracketStops(b, c, false, a.value, close);
      }
    }
  }

  /** A name of the block stands apart from the brace, and keeps or moves by the line. */
  lemma NameIsApart(b: Bytes, close: nat, g: Bytes)
    requires Ready(b) && g in NAMES && close < |b| && BracketAt(b, close) && b[close] == '}'
    ensures Apart(b[..close], [], b[close..], g, false)
  {
    hide Apart, BracketAt, PlainKey, BoundToBlock, Layout, IsBlock;
    if g in MANAGED {
      InsertionIsApart(b, close, g, false);
    } else {
      BlockIsApart(b, close, g);
    }
  }

  lemma NameIsDistinct(field: string, g: string)
    requires field in QCI_FIELDS && g in NAMES && g != field
    ensures Distinct(field, g)
  {
    hide Distinct, QCI_FIELDS, CONTAINERS, MANAGED;
    if g in MANAGED {
      FieldsAreDistinct(field, g);
    } else {
      ContainerIsNoField(g, field);
    }
  }

  /** Where a name of the block stands after the insertion: on its side of the new line. */
  ghost predicate OnItsSide(b: Bytes, b': Bytes, close: nat, n: nat, g: Bytes) {
    match Assignment(b, g, 0, false)
    case None => Assignment(b', g, 0, false) == None
    case Some(x) =>
      var y := Assignment(b', g, 0, false);
      && y.Some? && CommentAt(b', y.value.valueStart) == CommentAt(b, x.valueStart)
      && (|| (ValueStop(b, x.valueStart) < close && y.value.keyStart == x.keyStart && ValueStop(b', y.value.valueStart) == ValueStop(b, x.valueStart))
          || (close <= x.keyStart && y.value.keyStart == x.keyStart + n && ValueStop(b', y.value.valueStart) == ValueStop(b, x.valueStart) + n))
  }

  lemma FoundOnItsSide(b: Bytes, close: nat, v: Bytes, w: nat, field: Bytes, value: Bytes, g: Bytes)
    requires Insertion(b, close, v, w, field, value) && Distinct(field, g) && Apart(b[..close], [], b[close..], g, false)
    ensures OnItsSide(b, Inserted(b, close, v), close, |v|, g)
  {
    hide LineAt, BracketAt, Assignment, ValueStop, ScalarText, CommentAt, Distinct;
    Rejoin(b, close, v);
    InsertionFinds(b, close, v, w, field, value, g, false);
    var a := Assignment(b, g, 0, false);
    if a.Some? {
      ValueAfterKey(b, g, a.value);
    }
  }

  lemma SidesAreSeparate(b: Bytes, b': Bytes, close: nat, n: nat, g: Bytes, h: Bytes)
    requires OnItsSide(b, b', close, n, g) && OnItsSide(b, b', close, n, h) && SeparateKeys(b, g, h)
    ensures SeparateKeys(b', g, h)
  {
    hide Assignment, ValueStop, CommentAt;
    var x, y := Assignment(b, g, 0, false), Assignment(b, h, 0, false);
    if x.Some? && y.Some? {
      ValueAfterKey(b, g, x.value);
      ValueAfterKey(b, h, y.value);
    }
  }

  lemma LineIsSeparate(b: Bytes, b': Bytes, close: nat, n: nat, g: Bytes, field: Bytes, sp: Span)
    requires OnItsSide(b, b', close, n, g) && Assignment(b', field, 0, false) == Some(sp)
    requires close <= sp.keyStart && ValueStop(b', sp.valueStart) <= close + n
    ensures SeparateKeys(b', g, field) && SeparateKeys(b', field, g)
  {
    hide Assignment, ValueStop, CommentAt;
    ValueAfterKey(b', field, sp);
  }

  lemma InsertionKeepsLayout(b: Bytes, close: nat, v: Bytes, w: nat, field: Bytes, value: Bytes)
    requires Ready(b) && Insertion(b, close, v, w, field, value) && field in QCI_FIELDS && Assignment(b, field, 0, false) == None
    ensures Layout(Inserted(b, close, v), NAMES)
  {
    hide LineAt, BracketAt, Assignment, ValueStop, CommentAt, Distinct, QCI_FIELDS, CONTAINERS, MANAGED, NAMES, Apart,
      PlainKey, BoundToBlock, IsBlock, OnItsSide, SeparateKeys, ReadScalar;
    var b' := Inserted(b, close, v);
    InsertionReads(b, close, v, w, field, value, false);
    LineReads(b', close, w, field, value);
    var sp := Assignment(b', field, 0, false).value;
    forall g | g in NAMES && g != field ensures OnItsSide(b, b', close, |v|, g) {
      NameIsApart(b, close, g);
      NameIsDistinct(field, g);
      FoundOnItsSide(b, close, v, w, field, value, g);
    }
    forall g | g in NAMES ensures NotAComment(b', g) {
      assert NotAComment(b, g);
      if g != field {
        SideKeepsComment(b, b', close, |v|, g);
      }
    }
    forall g, h | g in NAMES && h in NAMES && g != h ensures SeparateKeys(b', g, h) {
      assert SeparateKeys(b, g, h);
      if g == field {
        LineIsSeparate(b, b', close, |v|, h, field, sp);
      } else if h == field {
        LineIsSeparate(b, b', close, |v|, g, field, sp);
      } else {
        SidesAreSeparate(b, b', close, |v|, g, h);
      }
    }
  }

  lemma SideKeepsComment(b: Bytes, b': Bytes, close: nat, n: nat, g: Bytes)
    requires OnItsSide(b, b', close, n, g) && NotAComment(b, g)
    ensures NotAComment(b', g)
  {
    hide Assignment, ValueStop, CommentAt;
  }

  lemma InsertionKeepsReady(b: Bytes, close: nat, field: string, n: int)
    requires Ready(b) && field in QCI_FIELDS && Assignment(b, field, 0, false) == None
    requires close < |b| && BracketAt(b, close) && b[close] == '}'
    ensures Ready(Inserted(b, close, NewLine(b, close, field, FormatInt(n))))
    ensures Keeps(b, Inserted(b, close, NewLine(b, close, field, FormatInt(n))), field)
  {
    hide Assignment, ReadScalar, LineAt, BracketAt, NewLine, Twin, FormatInt, IsName, ClosingIndent, IsNumberText, QCI_FIELDS, CONTAINERS, NAMES,
      Layout, BoundToBlock, Distinct, Apart, FoundAgain, PlainKey, ModeAt, Container;
    var value, v, w := FormatInt(n), NewLine(b, close, field, FormatInt(n)), |ClosingIndent(b, close)| + 2;
    var b' := Inserted(b, close, v);
    FieldsAreNames(field);
    PrintedNumbers(n);
    NewLineParts(b, close, field, value, b[..close], b[close..]);
    assert Insertion(b, close, v, w, field, value);
    InsertionKeepsLayout(b, close, v, w, field, value);
    InsertionIsTwin(b, close, v, w, field, value);
    TwinIsBlock(b, b', close, 0, |v|);
    assert field in MANAGED && PlainKey(b, field);
    forall g | g in MANAGED
      ensures PlainKey(b', g) && (g != field ==> Assignment(b', g, 0, false).Some? == Assignment(b, g, 0, false).Some?)
    {
      assert PlainKey(b, g);
      if g == field {
        InsertedIsPlain(b, close, v, w, field, value);
      } else {
        FieldsAreDistinct(field, g);
        InsertionIsApart(b, close, g, true);
        InsertionIsApart(b, close, g, false);
        InsertionFinds(b, close, v, w, field, value, g, true);
        InsertionFinds(b, close, v, w, field, value, g, false);
        PlainAgain(b, b', close, |v|, g);
        FoundIsAssigned(b, b', close, |v|, g);
      }
    }
    forall c | c in CONTAINERS ensures BoundToBlock(b', c) && Container(b', c, 0).Some? == Container(b, c, 0).Some? {
      assert BoundToBlock(b, c);
      ContainerIsNoField(c, field);
      BlockIsApart(b, close, c);
      InsertionFinds(b, close, v, w, field, value, c, false);
      BoundAgain(b, b', close, 0, |v|, c);
      ContainerAgain(b, b', close, 0, |v|, c);
    }
  }

  lemma InsertedIsPlain(b: Bytes, close: nat, v: Bytes, w: nat, field: Bytes, value: Bytes)
    requires Insertion(b, close, v, w, field, value) && PlainKey(b, field) && Assignment(b, field, 0, false) == None
    ensures PlainKey(Inserted(b, close, v), field)
  {
    hide Assignment, ReadScalar, Insertion;
    InsertionReads(b, close, v, w, field, value, true);
    InsertionReads(b, close, v, w, field, value, false);
  }

  /** Whatever an edit of a ready block gives is ready again, and can take the same fields. */
  lemma EditKeepsReady(b: Bytes, field: string, n: int)
    requires Ready(b) && field in QCI_FIELDS && EditBlock(b, field, n).Some?
    ensures Ready(EditBlock(b, field, n).value) && Keeps(b, EditBlock(b, field, n).value, field)
  {
    hide Assignment, ReadScalar, Patch, Insert, FormatInt, Layout, Containers, IsBlock, BoundToBlock, BracketAt, NewLine, QCI_FIELDS, CONTAINERS, NAMES, Keeps;
    assert field in MANAGED && PlainKey(b, field);
    PatchSucceeds(b, field, FormatInt(n));
    if Patch(b, field, FormatInt(n)).Some? {
      ReplacementKeepsReady(b, field, n);
    } else {
      ReadyIsEditable(b, field);
      InsertPlace(b, Containers(field), field, FormatInt(n));
      var close: nat :|
        && close < |b| && BracketAt(b, close) && b[close] == '}'
        && Insert(b, Containers(field), field, FormatInt(n)) == Some(Inserted(b, close, NewLine(b, close, field, FormatInt(n))));
      InsertionKeepsReady(b, close, field, n);
    }
  }

  /** A block can take the same fields after an edit as before it. */
  lemma SettableAgain(b: Bytes, field: string, n: int, g: string)
    requires Ready(b) && field in QCI_FIELDS && g in QCI_FIELDS && EditBlock(b, field, n).Some?
    ensures Settable(EditBlock(b, field, n).value, g) == Settable(b, g)
  {
    hide Ready, EditBlock, Assignment, Container, Containers, QCI_FIELDS, CONTAINERS;
    var b' := EditBlock(b, field, n).value;
    EditKeepsReady(b, field, n);
    ReadyIsEditable(b, field);
    EditBlockIsExact(b, field, n);
    if g == field {
      EditAssigns(b, field, n);
    } else {
      assert g in MANAGED;
      forall i | 0 <= i < |Containers(g)| ensures Containers(g)[i] in CONTAINERS {
        ContainersAreKnown(g, i);
      }
      ContainersAgain(b, b', field, Containers(g));
    }
  }

  lemma EditAssigns(b: Bytes, field: string, n: int)
    requires Editable(b, field) && EditBlock(b, field, n).Some?
    ensures Assignment(EditBlock(b, field, n).value, field, 0, false).Some?
  {
    hide Editable, EditBlock, Twin, IsBlock, Assignment;
    EditBlockIsExact(b, field, n);
    var at, x, v :| BlockEdit(b, EditBlock(b, field, n).value, at, x, v, field, FormatInt(n));
    assert ReadScalar(EditBlock(b, field, n).value, field, false) == Some(FormatInt(n));
  }

  lemma ContainersAgain(b: Bytes, b': Bytes, field: string, cs: seq<Bytes>)
    requires Keeps(b, b', field) && forall i | 0 <= i < |cs| :: cs[i] in CONTAINERS
    ensures SomeContainer(b', cs) == SomeContainer(b, cs)
  {
    hide Assignment, Container, CONTAINERS;
    assert forall i | 0 <= i < |cs| :: Container(b', cs[i], 0).Some? == Container(b, cs[i], 0).Some?;
  }
}
