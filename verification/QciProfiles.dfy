/**
 Editing one block of rb.conf, seen by the reader: the section is found again and exactly one
 profile changes, in exactly one field.
 */
module QciProfiles {
  import opened Lexer
  import opened Splice
  import opened Overlay
  import opened Numbers
  import opened Text
  import opened Config
  import opened Brackets
  import opened Twins
  import opened Qci
  import opened QciFile

  /** Renderer and reader take the same assignment for qci_config, and it holds a parenthesised section. */
  ghost predicate OneSection(d: Bytes) {
    Assignment(d, "qci_config", 0, true) == Assignment(d, "qci_config", 0, false) && Section(d).Some?
  }

  lemma SpaceIsSkipped(d: Bytes, key: Bytes, fold: bool, sp: Span)
    requires Assignment(d, key, 0, fold) == Some(sp)
    ensures sp.valueStart <= |d| && SkipSpace(d, sp.valueStart) == sp.valueStart && OpenAt(d, sp.valueStart)
  {
    AtValue(d, key, fold, sp);
  }

  /** Where the section stands. */
  lemma SectionPlace(d: Bytes)
    requires OneSection(d)
    ensures var sec := Section(d).value;
            && Assignment(d, "qci_config", 0, false).Some?
            && sec.start == Assignment(d, "qci_config", 0, false).value.valueStart
            && sec.start + 1 < sec.end <= |d| && BracketAt(d, sec.start) && d[sec.start] == '('
            && OpenAt(d, sec.start) && MatchingClose(d, sec.start, '(', ')') == Some(sec.end - 1)
            && d[sec.end - 1] == ')'
  {
    hide Assignment, ModeAt;
    var sp := Assignment(d, "qci_config", 0, true).value;
    SpaceIsSkipped(d, "qci_config", true, sp);
    var sec := Section(d).value;
    CloseIsInside(d, sec.start, '(', ')');
    assert CloseAt(d, sec.start, sec.end - 1, '(', ')');
  }

  function SectionText(d: Bytes): Bytes
    requires Section(d).Some?
  {
    SliceAt(d, Section(d).value)
  }

  /** The texts of the profiles, as the reader extracts them. */
  function Objects(d: Bytes): seq<Bytes>
    requires Section(d).Some?
  {
    Texts(SectionText(d), TopBlocks(SectionText(d), 0))
  }

  /** The blocks the reader sees are the first blocks the renderer looks at. */
  lemma SectionBlocks(d: Bytes, j: nat)
    requires OneSection(d) && j < |TopBlocks(SectionText(d), 0)|
    ensures var a, c := Section(d).value.start, TopBlocks(SectionText(d), 0)[j];
            && SliceOf(SectionText(d), d, a) && |SectionText(d)| == Section(d).value.end - a
            && |TopBlocks(SectionText(d), 0)| <= |Candidates(d)|
            && Candidates(d)[j] == Block(a + c.start, a + c.end)
            && 0 < c.start < c.end < |SectionText(d)|
  {
    hide Section, TopBlocks, OpenAt, BracketAt, MatchingClose, Assignment, SliceOf, SliceAt;
    SectionPlace(d);
    var sec, s := Section(d).value, SectionText(d);
    SectionEnds(d);
    SliceBlocks(s, d, sec.start, 0);
    TopBlocksOrdered(s, 0, j, j);
    BlockCloses(s, TopBlocks(s, 0)[j]);
  }

  lemma SectionEnds(d: Bytes)
    requires OneSection(d)
    ensures var s, sec := SectionText(d), Section(d).value;
            SliceOf(s, d, sec.start) && |s| == sec.end - sec.start && |s| > 1 && s[0] == '(' && s[|s| - 1] == ')'
  {
    hide Section, OpenAt, BracketAt, MatchingClose, Assignment, SliceOf;
    SectionPlace(d);
    SliceIsSlice(d, Section(d).value.start, Section(d).value.end);
  }

  lemma BlockCloses(s: Bytes, c: Block)
    requires c.start < c.end && MatchingClose(s, c.start, '{', '}') == Some(c.end - 1)
    ensures c.end <= |s| && s[c.end - 1] == '}'
  {}

  /** The section of the edited file. */
  lemma SectionAgain(d: Bytes, d': Bytes, at: nat, x: nat, v: nat)
    requires OneSection(d) && Twin(d, d', at, x, v)
    requires Section(d).value.start < at && at + x < Section(d).value.end
    requires Assignment(d', "qci_config", 0, true) == Assignment(d, "qci_config", 0, true)
    requires Assignment(d', "qci_config", 0, false) == Assignment(d, "qci_config", 0, false)
    ensures OneSection(d') && Section(d') == Some(Block(Section(d).value.start, Section(d).value.end - x + v))
  {
    hide Assignment, MatchingClose, OpenAt, BracketAt;
    SectionPlace(d);
    var sec, sp := Section(d).value, Assignment(d, "qci_config", 0, false).value;
    TwinMatch(d, d', at, x, v, sec.start, '(', ')');
    assert Outside(at, x, sec.start) && d'[sec.start] == '(';
    SpaceIsSkipped(d', "qci_config", true, sp);
  }

  lemma SliceOfSlice(d: Bytes, sec: Block, c: Block)
    requires sec.start <= sec.end <= |d| && c.start <= c.end <= sec.end - sec.start
    ensures SliceAt(SliceAt(d, sec), c) == SliceAt(d, Block(sec.start + c.start, sec.start + c.end))
  {
    var u := d[sec.start..sec.end];
    var x, y := u[c.start..c.end], d[sec.start + c.start..sec.start + c.end];
    forall k | 0 <= k < |x| ensures x[k] == y[k] {
      assert x[k] == u[c.start + k] == d[sec.start + c.start + k];
    }
    assert x == y;
  }

  /** Candidate block `j` is replaced by a twin of it. */
  ghost predicate Replacement(d: Bytes, j: nat, b': Bytes, at: nat, x: nat, v: nat) {
    && j < |Candidates(d)| && IsBlock(b') && Twin(SliceAt(d, Candidates(d)[j]), b', at, x, v)
    && 0 < at && at + x < |SliceAt(d, Candidates(d)[j])|
  }

  ghost predicate TwinSections(d: Bytes, d': Bytes, at: nat, x: nat, v: nat) {
    && OneSection(d) && OneSection(d') && Section(d').value.start == Section(d).value.start <= at
    && Twin(d, d', at, x, v)
    && Twin(SectionText(d), SectionText(d'), at - Section(d).value.start, x, v)
  }

  /** The edited file has a section that is a twin of the section. */
  lemma SectionTwin(d: Bytes, j: nat, b': Bytes, at: nat, x: nat, v: nat)
    requires OneSection(d) && j < |Objects(d)| && Replacement(d, j, b', at, x, v)
    ensures Section(d).value.start < Candidates(d)[j].start < Candidates(d)[j].end <= |d|
    ensures TwinSections(d, WithBlock(d, Candidates(d)[j], b'), Candidates(d)[j].start + at, x, v)
  {
    hide Section, TopBlocks, OpenAt, BracketAt, MatchingClose, Assignment, SliceOf, Twin, IsBlock, SliceAt;
    SectionPlace(d);
    SectionBlocks(d, j);
    var sp, b, sec := Assignment(d, "qci_config", 0, false).value, Candidates(d)[j], Section(d).value;
    TopBlockIsBlock(d, sp.valueStart, j);
    FileTwin(d, sp.valueStart, j, b', at, x, v);
    var d' := WithBlock(d, b, b');
    AnchorStays(d, b, b', "qci_config", false, sp);
    AnchorStays(d, b, b', "qci_config", true, sp);
    SliceLength(d, b);
    SectionAgain(d, d', b.start + at, x, v);
    SectionPlace(d');
    var sec' := Section(d').value;
    SectionEnds(d);
    SectionEnds(d');
    SliceTwin(d, d', SectionText(d), SectionText(d'), sec.start, b.start + at, x, v);
  }

  /** After an edit of block `j` the reader extracts the same texts, but for the new text of that block. */
  lemma ObjectsAgain(d: Bytes, j: nat, b': Bytes, at: nat, x: nat, v: nat)
    requires OneSection(d) && j < |Objects(d)| && Replacement(d, j, b', at, x, v)
    ensures var b := Candidates(d)[j];
            && b.start < b.end <= |d|
            && var d' := WithBlock(d, b, b'); OneSection(d') && Objects(d') == Objects(d)[j := b']
  {
    hide Section, TopBlocks, Assignment, Twin, IsBlock, SliceAt;
    var b, a, s := Candidates(d)[j], Section(d).value.start, SectionText(d);
    SectionTwin(d, j, b', at, x, v);
    SectionBlocks(d, j);
    var d' := WithBlock(d, b, b');
    var s' := SectionText(d');
    TwinBlocks(s, s', b.start + at - a, x, v, 0);
    var bs, bs' := TopBlocks(s, 0), TopBlocks(s', 0);
    SliceLength(d, b);
    forall k | 0 <= k < |bs| && k != j ensures SliceAt(s', bs'[k]) == SliceAt(s, bs[k]) {
      ImageTexts(s, s', b.start + at - a, x, v, 0, 0, j, k);
    }
    SectionBlocks(d', j);
    EditedObject(d, d', j, b', b.start + at - a, at, x, v);
  }

  lemma EditedObject(d: Bytes, d': Bytes, j: nat, b': Bytes, m: nat, at: nat, x: nat, v: nat)
    requires Replacement(d, j, b', at, x, v) && Candidates(d)[j].start < Candidates(d)[j].end <= |d|
    requires d' == WithBlock(d, Candidates(d)[j], b') && TwinSections(d, d', Candidates(d)[j].start + at, x, v)
    requires m + Section(d).value.start == Candidates(d)[j].start + at
    requires j < |TopBlocks(SectionText(d), 0)| && j < |TopBlocks(SectionText(d'), 0)|
    requires IsImage(m, x, v, TopBlocks(SectionText(d), 0)[j], TopBlocks(SectionText(d'), 0)[j])
    ensures SliceAt(SectionText(d'), TopBlocks(SectionText(d'), 0)[j]) == b'
  {
    hide Section, TopBlocks, Assignment, Twin, SliceAt, SliceOf, IsBlock;
    var a, b, c, c' := Section(d).value.start, Candidates(d)[j], TopBlocks(SectionText(d), 0)[j], TopBlocks(SectionText(d'), 0)[j];
    SectionBlocks(d, j);
    SectionBlocks(d', j);
    SectionPlace(d');
    SliceOfSlice(d', Section(d').value, c');
    EditedText(d, b, b', at, x, v, Block(a + c'.start, a + c'.end));
  }

  // ----- the profiles

  lemma NumberUnquoted(n: int)
    ensures Unquote(FormatInt(n)) == FormatInt(n)
  {
    hide FormatInt, Trim;
    PrintedNumbers(n);
    var t := FormatInt(n);
    assert IsNumberChar(t[0]) && IsNumberChar(t[|t| - 1]);
    TrimOfTrimmed(t);
  }

  /** The edited block is read as the same profile with the new number in the field. */
  lemma EditedProfile(b: Bytes, b': Bytes, at: nat, x: nat, v: nat, field: string, n: int)
    requires BlockEdit(b, b', at, x, v, field, FormatInt(n)) && field in QCI_FIELDS && IsInt32(n)
    ensures ProfileOf(b') == Profile(ProfileOf(b).qci, ProfileOf(b).fields[field := n])
  {
    hide Twin, IsBlock, ReadScalar, Unquote, ReadInt32, FormatInt;
    NumberUnquoted(n);
    IntRoundTrip(n);
    QciIsNoField();
    assert ReadScalar(b', field, true) == Some(FormatInt(n));
    forall g | g in MANAGED && g != field ensures IntIn(b', g) == IntIn(b, g) {
      assert ReadScalar(b', g, true) == ReadScalar(b, g, true);
    }
    assert "qci" in MANAGED;
  }

  function WithField(ps: seq<Profile>, j: nat, field: string, n: int): seq<Profile>
    requires j < |ps|
  {
    ps[j := Profile(ps[j].qci, ps[j].fields[field := n])]
  }

  lemma ReadsObjects(d: Bytes)
    requires Section(d).Some?
    ensures RawProfiles(d) == Some(ProfilesOf(Objects(d)))
  {}

  lemma ProfilesUpdate(os: seq<Bytes>, j: nat, b': Bytes)
    requires j < |os|
    ensures ProfilesOf(os[j := b']) == ProfilesOf(os)[j := ProfileOf(b')] && ProfilesOf(os)[j] == ProfileOf(os[j])
  {}

  /** The reader sees exactly one field of exactly one profile change. */
  lemma ReaderSeesTheEdit(d: Bytes, j: nat, b': Bytes, at: nat, x: nat, v: nat, field: string, n: int)
    requires OneSection(d) && j < |Objects(d)| && j < |Candidates(d)| && field in QCI_FIELDS && IsInt32(n)
    requires BlockEdit(SliceAt(d, Candidates(d)[j]), b', at, x, v, field, FormatInt(n))
    ensures var b := Candidates(d)[j];
            && b.start < b.end <= |d| && RawProfiles(d).Some? && j < |RawProfiles(d).value|
            && var d' := WithBlock(d, b, b');
               OneSection(d') && RawProfiles(d') == Some(WithField(RawProfiles(d).value, j, field, n))
  {
    hide Section, TopBlocks, Assignment, Twin, IsBlock, SliceAt, Candidates, ProfileOf, ReadScalar, RawProfiles, ProfilesOf, Objects;
    ObjectsAgain(d, j, b', at, x, v);
    ReadsObjects(d);
    ReadsObjects(WithBlock(d, Candidates(d)[j], b'));
    ProfilesUpdate(Objects(d), j, b');
    SameObject(d, j);
    EditedProfile(SliceAt(d, Candidates(d)[j]), b', at, x, v, field, n);
  }

  lemma SameObject(d: Bytes, j: nat)
    requires OneSection(d) && j < |Objects(d)| && j < |Candidates(d)|
    ensures SliceAt(d, Candidates(d)[j]) == Objects(d)[j]
  {
    hide Section, TopBlocks, Assignment, SliceOf, SliceAt, Candidates;
    SectionBlocks(d, j);
    SectionPlace(d);
    SliceOfSlice(d, Section(d).value, TopBlocks(SectionText(d), 0)[j]);
  }
}
