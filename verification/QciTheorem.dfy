/**
 The patch of one field of one QCI profile, from the file the renderer writes to the profiles the
 reader sees.
 */
module QciTheorem {
  import opened Lexer
  import opened Cutting
  import opened Overlay
  import opened Batch
  import opened Numbers
  import opened Text
  import opened Config
  import opened Brackets
  import opened Twins
  import opened Qci
  import opened QciFile
  import opened QciProfiles
  import opened QciPatch
  import opened QciInsert

  lemma FieldsAreNames(field: string)
    requires field in QCI_FIELDS
    ensures IsName(field)
  {
    assert field[0] in ['d', 'p', 't', 'm'];
    forall i | 0 <= i < |field| ensures IsIdent(field[i]) {}
  }

  lemma FieldsAreDistinct(field: string, g: string)
    requires field in QCI_FIELDS && g in MANAGED && g != field
    ensures Distinct(field, g)
  {
    if |field| == |g| {
      assert field[0] != g[0];
    }
  }

  /** The first assignment to a container, if there is one, opens a block. */
  predicate BoundToBlock(b: Bytes, name: Bytes) {
    match Assignment(b, name, 0, false)
    case None => true
    case Some(sp) => sp.valueStart < |b| && b[sp.valueStart] == '{'
  }

  lemma ContainerCloses(b: Bytes, name: Bytes, c: Block)
    requires BoundToBlock(b, name) && Container(b, name, 0) == Some(c)
    ensures c.end < |b| && BracketAt(b, c.end) && b[c.end] == '}'
  {
    hide Assignment, ModeAt, MatchingClose;
    var sp := Assignment(b, name, 0, false).value;
    SpaceIsSkipped(b, name, false, sp);
    CloseIsInside(b, sp.valueStart, '{', '}');
    CloseIsStructural(b, sp.valueStart, c.end, '{', '}');
  }

  ghost predicate SomeContainer(b: Bytes, containers: seq<Bytes>) {
    exists i :: 0 <= i < |containers| && Container(b, containers[i], 0).Some?
  }

  /** An insertion happens exactly when a container is there, before the brace that closes it. */
  lemma {:induction false} InsertPlace(b: Bytes, containers: seq<Bytes>, field: Bytes, value: Bytes)
    requires forall i | 0 <= i < |containers| :: BoundToBlock(b, containers[i])
    ensures Insert(b, containers, field, value).Some? <==> SomeContainer(b, containers)
    ensures Insert(b, containers, field, value).Some? ==>
              exists close: nat ::
                && close < |b| && BracketAt(b, close) && b[close] == '}'
                && Insert(b, containers, field, value) == Some(Inserted(b, close, NewLine(b, close, field, value)))
    decreases |containers|
  {
    hide Container, BracketAt, NewLine, BoundToBlock;
    if containers != [] {
      var c := Container(b, containers[0], 0);
      if c.Some? {
        ContainerCloses(b, containers[0], c.value);
        var v := NewLine(b, c.value.end, field, value);
        assert Insert(b, containers, field, value) == Some(Inserted(b, c.value.end, v));
      } else {
        InsertPlace(b, containers[1..], field, value);
        assert SomeContainer(b, containers[1..]) == SomeContainer(b, containers) by {
          assert forall i | 1 <= i < |containers| :: containers[1..][i - 1] == containers[i];
        }
      }
    }
  }

  /** Inserting an absent field. */
  lemma InsertionEdits(b: Bytes, close: nat, field: string, n: int)
    requires WellFormed(b) && field in QCI_FIELDS && Assignment(b, field, 0, false) == None
    requires close < |b| && BracketAt(b, close) && b[close] == '}'
    ensures exists at, x, v :: BlockEdit(b, Inserted(b, close, NewLine(b, close, field, FormatInt(n))), at, x, v, field, FormatInt(n))
  {
    hide Assignment, ReadScalar, LineAt, BracketAt, NewLine, Twin, FormatInt, IsName, ClosingIndent, IsNumberText;
    var value, v, w := FormatInt(n), NewLine(b, close, field, FormatInt(n)), |ClosingIndent(b, close)| + 2;
    var b' := Inserted(b, close, v);
    FieldsAreNames(field);
    PrintedNumbers(n);
    NewLineParts(b, close, field, value, b[..close], b[close..]);
    assert Insertion(b, close, v, w, field, value);
    InsertionIsTwin(b, close, v, w, field, value);
    TwinIsBlock(b, b', close, 0, |v|);
    assert field in MANAGED && PlainKey(b, field);
    forall fold: bool ensures ReadScalar(b', field, fold) == Some(value) {
      assert fold || !fold;
      InsertionReads(b, close, v, w, field, value, fold);
    }
    forall g: string, fold: bool | g in MANAGED && g != field ensures ReadScalar(b', g, fold) == ReadScalar(b, g, fold) {
      assert PlainKey(b, g);
      FieldsAreDistinct(field, g);
      InsertionLeavesOthers(b, close, v, w, field, value, g, fold);
    }
    assert BlockEdit(b, b', close, 0, |v|, field, value);
  }

  /** A block whose field can be set. */
  ghost predicate Settable(b: Bytes, field: string) {
    Assignment(b, field, 0, false).Some? || SomeContainer(b, Containers(field))
  }

  ghost predicate Editable(b: Bytes, field: string) {
    && WellFormed(b) && field in QCI_FIELDS
    && forall i | 0 <= i < |Containers(field)| :: BoundToBlock(b, Containers(field)[i])
  }

  /** What editing a well-formed block does: it succeeds when it can, and changes just the field. */
  lemma EditBlockIsExact(b: Bytes, field: string, n: int)
    requires Editable(b, field)
    ensures EditBlock(b, field, n).Some? <==> Settable(b, field)
    ensures EditBlock(b, field, n).Some? ==>
              exists at, x, v :: BlockEdit(b, EditBlock(b, field, n).value, at, x, v, field, FormatInt(n))
  {
    hide Assignment, ReadScalar, Patch, Insert, FormatInt, BlockEdit, Layout, Containers, IsBlock, BoundToBlock, BracketAt, NewLine;
    assert field in MANAGED && PlainKey(b, field);
    PatchSucceeds(b, field, FormatInt(n));
    UnassignedIsUnread(b, field);
    if Patch(b, field, FormatInt(n)).Some? {
      ReplacementEdits(b, field, n);
    } else {
      InsertPlace(b, Containers(field), field, FormatInt(n));
      if Insert(b, Containers(field), field, FormatInt(n)).Some? {
        var close: nat :|
          && close < |b| && BracketAt(b, close) && b[close] == '}'
          && Insert(b, Containers(field), field, FormatInt(n)) == Some(Inserted(b, close, NewLine(b, close, field, FormatInt(n))));
        InsertionEdits(b, close, field, n);
      }
    }
  }

  lemma UnassignedIsUnread(b: Bytes, g: Bytes)
    ensures ReadScalar(b, g, false).Some? ==> Assignment(b, g, 0, false).Some?
  {}

  // ----- the file

  /** The renderer finds profile `qci` as block `j` of the section, and the block is well formed. */
  ghost predicate Locates(d: Bytes, qci: int, field: string, j: nat) {
    && OneSection(d) && j < |Objects(d)| && FirstWith(d, Candidates(d), qci) == Some(j)
    && Editable(Objects(d)[j], field)
  }

  /** Everything before and after the block is kept byte by byte. */
  ghost predicate OnlyBlock(d: Bytes, d': Bytes, b: Block) {
    b.start <= b.end <= |d| && exists b' :: d' == d[..b.start] + b' + d[b.end..]
  }

  /** What the patched file is, to the reader and to the renderer. */
  ghost predicate Sets(d: Bytes, d': Bytes, j: nat, field: string, n: int) {
    && RawProfiles(d).Some? && j < |RawProfiles(d).value| && j < |Candidates(d)|
    && OnlyBlock(d, d', Candidates(d)[j])
    && RawProfiles(d') == Some(WithField(RawProfiles(d).value, j, field, n))
    && forall q: int :: FirstWith(d', Candidates(d'), q) == FirstWith(d, Candidates(d), q)
  }

  /**
   Patching one field of one profile, for every file in which the renderer finds a well-formed
   block: the patch succeeds exactly when the field or one of its containers is there; no byte
   outside the block changes; the reader sees the new number in that field of that profile and
   everything else as before; and the renderer finds every profile where it was.
   */
  lemma PatchIsExact(d: Bytes, qci: int, field: string, n: int, j: nat)
    requires Locates(d, qci, field, j) && IsInt32(n)
    ensures PatchProfile(d, qci, field, n).Some? <==> Settable(Objects(d)[j], field)
    ensures PatchProfile(d, qci, field, n).Some? ==> Sets(d, PatchProfile(d, qci, field, n).value, j, field, n)
  {
    hide Candidates, FirstWith, EditBlock, Editable, Objects, SliceAt, Settable, BlockEdit, PatchProfile, OneSection, Sets;
    PatchIsBlock(d, qci, field, n, j);
    HasSection(d);
    SameObject(d, j);
    EditBlockIsExact(Objects(d)[j], field, n);
    if EditBlock(Objects(d)[j], field, n).Some? {
      var b' := EditBlock(Objects(d)[j], field, n).value;
      var at, x, v :| BlockEdit(Objects(d)[j], b', at, x, v, field, FormatInt(n));
      FieldOf(Objects(d)[j], field);
      EditSets(d, j, b', at, x, v, field, n);
    }
  }

  lemma EditSets(d: Bytes, j: nat, b': Bytes, at: nat, x: nat, v: nat, field: string, n: int)
    requires OneSection(d) && j < |Objects(d)| && j < |Candidates(d)| && field in QCI_FIELDS && IsInt32(n)
    requires BlockEdit(SliceAt(d, Candidates(d)[j]), b', at, x, v, field, FormatInt(n))
    requires Candidates(d)[j].start < Candidates(d)[j].end <= |d|
    ensures Sets(d, WithBlock(d, Candidates(d)[j], b'), j, field, n)
  {
    hide Candidates, FirstWith, Objects, SliceAt, BlockEdit, RawProfiles, OneSection, FormatInt, WithField;
    HasSection(d);
    ReaderSeesTheEdit(d, j, b', at, x, v, field, n);
    forall q: int
      ensures var d' := WithBlock(d, Candidates(d)[j], b'); FirstWith(d', Candidates(d'), q) == FirstWith(d, Candidates(d), q)
    {
      RendererSees(d, j, b', at, x, v, field, FormatInt(n), q);
    }
  }

  lemma PatchIsBlock(d: Bytes, qci: int, field: string, n: int, j: nat)
    requires FirstWith(d, Candidates(d), qci) == Some(j)
    ensures j < |Candidates(d)| && Candidates(d)[j].start < Candidates(d)[j].end <= |d|
    ensures PatchProfile(d, qci, field, n) ==
            match EditBlock(SliceAt(d, Candidates(d)[j]), field, n)
            case None => None
            case Some(b') => Some(WithBlock(d, Candidates(d)[j], b'))
  {
    hide EditBlock, SliceAt, HasQci;
    BlockInRange(d, qci);
  }

  lemma FieldOf(b: Bytes, field: string)
    requires Editable(b, field)
    ensures field in QCI_FIELDS
  {}

  lemma RendererSees(d: Bytes, j: nat, b': Bytes, at: nat, x: nat, v: nat, field: string, value: Bytes, q: int)
    requires OneSection(d) && j < |Objects(d)| && j < |Candidates(d)| && field in QCI_FIELDS
    requires BlockEdit(SliceAt(d, Candidates(d)[j]), b', at, x, v, field, value)
    requires Candidates(d)[j].start < Candidates(d)[j].end <= |d|
    ensures var d' := WithBlock(d, Candidates(d)[j], b'); FirstWith(d', Candidates(d'), q) == FirstWith(d, Candidates(d), q)
  {
    hide FirstWith, Assignment, SliceAt, BlockEdit, TopBlocks, Section;
    SectionPlace(d);
    SectionBlocks(d, j);
    RendererFindsAgain(d, Assignment(d, "qci_config", 0, false).value, j, b', at, x, v, field, value, q);
  }

  // ----- the profiles that the reader keeps

  /** The number by which the renderer finds a block is the number the reader reads in it. */
  lemma NumberIsRead(b: Bytes, qci: int)
    requires WellFormed(b) && HasQci(b, qci) && IsInt32(qci)
    ensures ProfileOf(b).qci == qci
  {
    hide Assignment, ReadInt32, FormatInt, Trim, Layout, IsBlock;
    assert "qci" in MANAGED && PlainKey(b, "qci");
    assert ReadScalar(b, "qci", true) == ReadScalar(b, "qci", false);
    var t := ReadScalar(b, "qci", false).value;
    assert Trim(t) == FormatInt(qci);
    NumberUnquoted(qci);
    TrimTwice(t);
    IntRoundTrip(qci);
  }

  lemma TrimTwice(t: Bytes)
    ensures Trim(Trim(t)) == Trim(t) && Unquote(Trim(t)) == Unquote(t)
  {
    hide TrimFront, TrimBack;
    TrimOfTrimmed(Trim(t));
  }

  lemma {:induction false} KeptUpdate(ps: seq<Profile>, j: nat, qci: int, field: string, n: int)
    requires j < |ps| && ps[j].qci == qci != 0 && forall k | 0 <= k < j :: ps[k].qci != qci
    ensures Kept(WithField(ps, j, field, n)) == SetField(Kept(ps), qci, field, n)
    decreases |ps|
  {
    var ps' := WithField(ps, j, field, n);
    if j == 0 {
      assert ps'[1..] == ps[1..];
      assert Kept(ps)[0] == ps[0];
      assert FindProfile(Kept(ps), qci, 0) == Some(0);
    } else {
      KeptUpdate(ps[1..], j - 1, qci, field, n);
      assert ps'[1..] == WithField(ps[1..], j - 1, field, n);
      KeptHas(ps[1..], j - 1);
      if ps[0].qci == 0 {
        assert Kept(ps) == Kept(ps[1..]) && Kept(ps') == Kept(ps'[1..]);
      } else {
        SetFieldLater(ps[0], Kept(ps[1..]), qci, field, n);
      }
    }
  }

  lemma {:induction false} KeptHas(ps: seq<Profile>, j: nat)
    requires j < |ps| && ps[j].qci != 0
    ensures exists k :: 0 <= k < |Kept(ps)| && Kept(ps)[k] == ps[j]
  {
    if j == 0 {
      assert Kept(ps)[0] == ps[0];
    } else {
      KeptHas(ps[1..], j - 1);
      var k :| 0 <= k < |Kept(ps[1..])| && Kept(ps[1..])[k] == ps[j];
      assert Kept(ps)[if ps[0].qci == 0 then k else k + 1] == ps[j];
    }
  }

  lemma {:induction false} FindLater(p: Profile, ps: seq<Profile>, qci: int, i: nat)
    requires i <= |ps|
    ensures FindProfile([p] + ps, qci, i + 1) ==
            match FindProfile(ps, qci, i) case None => None case Some(k) => Some(k + 1)
    decreases |ps| - i
  {
    if i < |ps| {
      assert ([p] + ps)[i + 1] == ps[i];
      FindLater(p, ps, qci, i + 1);
    }
  }

  lemma SetFieldLater(p: Profile, ps: seq<Profile>, qci: int, field: string, n: int)
    requires p.qci != qci && exists k :: 0 <= k < |ps| && ps[k].qci == qci
    ensures SetField([p] + ps, qci, field, n) == [p] + SetField(ps, qci, field, n)
  {
    hide FindProfile;
    FindLater(p, ps, qci, 0);
    FindFirst(p, ps, qci);
    var i := FindProfile(ps, qci, 0).value;
    ConsUpdate(p, ps, i, ps[i].(fields := ps[i].fields[field := n]));
  }

  lemma FindFirst(p: Profile, ps: seq<Profile>, qci: int)
    requires p.qci != qci && exists k :: 0 <= k < |ps| && ps[k].qci == qci
    ensures FindProfile(ps, qci, 0).Some? && FindProfile([p] + ps, qci, 0) == FindProfile([p] + ps, qci, 1)
  {}

  lemma ConsUpdate(p: Profile, ps: seq<Profile>, i: nat, q: Profile)
    requires i < |ps|
    ensures ([p] + ps)[i + 1] == ps[i] && ([p] + ps)[i + 1 := q] == [p] + ps[i := q]
  {}

  /**
   The file and the candidate move together: patching field `field` of profile `qci` in rb.conf
   changes what the reader returns exactly as applying the edit changes the candidate's profiles.
   */
  lemma PatchIsTheEdit(d: Bytes, qci: int, field: string, n: int, j: nat)
    requires Locates(d, qci, field, j) && IsInt32(n) && IsInt32(qci) && qci != 0
    requires forall k | 0 <= k < j :: ProfileOf(Objects(d)[k]).qci != qci
    requires PatchProfile(d, qci, field, n).Some?
    ensures ReadProfiles(d).Some?
    ensures ReadProfiles(PatchProfile(d, qci, field, n).value) == Some(SetField(ReadProfiles(d).value, qci, field, n))
  {
    hide Candidates, FirstWith, Objects, SliceAt, PatchProfile, ProfileOf, Section, OneSection, WellFormed, HasQci, Kept, RawProfiles, WithField, SetField;
    PatchIsExact(d, qci, field, n, j);
    SameObject(d, j);
    FoundHas(d, Candidates(d), qci);
    HasSection(d);
    ReadsObjects(d);
    NumberIsRead(Objects(d)[j], qci);
    var ps := ProfilesOf(Objects(d));
    KeptUpdate(ps, j, qci, field, n);
    KeptHas(ps, j);
    WithFieldKeeps(ps, j, field, n);
    KeptHas(WithField(ps, j, field, n), j);
  }

  lemma WithFieldKeeps(ps: seq<Profile>, j: nat, field: string, n: int)
    requires j < |ps|
    ensures |WithField(ps, j, field, n)| == |ps| && WithField(ps, j, field, n)[j].qci == ps[j].qci
  {}

  lemma HasSection(d: Bytes)
    requires OneSection(d)
    ensures Section(d).Some?
  {}

  lemma FoundHas(d: Bytes, bs: seq<Block>, qci: int)
    requires FirstWith(d, bs, qci).Some?
    ensures FirstWith(d, bs, qci).value < |bs| && HasQci(SliceAt(d, bs[FirstWith(d, bs, qci).value]), qci)
  {
    hide HasQci, SliceAt, FirstWith;
    FirstWithIsFirst(d, bs, qci, FirstWith(d, bs, qci).value);
  }
}
