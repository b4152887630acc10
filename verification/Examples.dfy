/**
 Inputs at which patching libconfig files falls short of its promise.
 */
module Examples {
  import opened Lexer
  import opened Splice
  import opened Cutting
  import opened Overlay
  import opened Text
  import opened Numbers
  import opened Batch
  import opened Brackets
  import opened QciInsert
  import opened QciProfiles
  import opened PowerKey
  import opened SibShape
  import Qci

  // ----- a comment in place of a value

  /** A key whose value is directly a comment. */
  const COMMENTED: Bytes := "k = # c"

  lemma CommentedParts()
    ensures Assignment(COMMENTED, "k", 0, false) == Some(Span(0, 1, 2, 4)) && CommentAt(COMMENTED, 4) && ScalarEnd(COMMENTED, 4) == Some(4)
  {
    var d := COMMENTED;
    assert WordEnd(d, 1) == 1 && WordEnd(d, 0) == 1;
    assert SkipSpace(d, 2) == 2 && SkipSpace(d, 1) == 2 && SkipSpace(d, 4) == 4 && SkipSpace(d, 3) == 4;
    assert d[0..1] == "k";
    ExactToken(d, 0, 1, "k");
    assert AssignAt(d, 0, 0, "k", false);
    AssignmentIsUnique(d, "k", 0, false, 0);
    assert StopAt(d, 4, 4);
    StopIsUnique(d, 4, 4);
  }

  /** The patch of such a key succeeds and does not read back. */
  lemma CommentedIsNotReadBack()
    ensures Patch(COMMENTED, "k", "1").Some? && ReadScalar(Patch(COMMENTED, "k", "1").value, "k", false) != Some("1")
  {
    hide SafeScalar, ScalarEnd, Assignment, CommentAt, ReadScalar, COMMENTED, IsNumberText;
    CommentedParts();
    OneIsNumber();
    NumberIsSafe("1", [], false);
    PatchRoundTrip(COMMENTED, "k", "1");
  }

  lemma OneIsNumber()
    ensures IsNumberText("1")
  {}

  // ----- a file with both names of the reference signal power

  function Line(key: Bytes, value: Bytes): Bytes {
    "  " + (key + " = " + value + ";") + "\n"
  }

  lemma LineStands(p: Bytes, key: Bytes, value: Bytes, r: Bytes)
    requires IsName(key) && IsNumberText(value)
    ensures LineAt(p + Line(key, value) + r, |p|, 2, key, value) && |Line(key, value)| == LineLength(2, key, value)
  {
    hide IsName, IsNumberText, LineAt;
    LineParts([], key, value, p, r);
    assert [] + "  " == "  ";
  }

  function TwoLines(k: Bytes, v: Bytes, k': Bytes, v': Bytes): Bytes {
    Line(k, v) + Line(k', v')
  }

  /** Both lines are found and read, by either scanner. */
  lemma TwoLinesRead(k: Bytes, v: Bytes, k': Bytes, v': Bytes, fold: bool)
    requires IsName(k) && IsName(k') && IsNumberText(v) && IsNumberText(v') && Distinct(k, k')
    ensures var d, n := TwoLines(k, v, k', v'), |Line(k, v)|;
            && Assignment(d, k, 0, fold) == Some(Span(2, 2 + |k|, 3 + |k|, 5 + |k|))
            && Assignment(d, k', 0, fold) == Some(Span(n + 2, n + 2 + |k'|, n + 3 + |k'|, n + 5 + |k'|))
            && n == |k| + |v| + 7 && 5 + |k| <= |d| && n + 5 + |k'| <= |d|
            && ScalarText(d, 5 + |k|) == Some(v) && ValueStop(d, 5 + |k|) < n && !CommentAt(d, 5 + |k|)
            && ScalarText(d, n + 5 + |k'|) == Some(v')
  {
    hide LineAt, IsName, IsNumberText, AssignAt, SpanAt, Assignment, ScalarText, ValueStop, CommentAt, OpenAt, Line, Distinct;
    var d, n := TwoLines(k, v, k', v'), |Line(k, v)|;
    LineStands([], k, v, Line(k', v'));
    assert [] + Line(k, v) + Line(k', v') == d;
    LineStands(Line(k, v), k', v', []);
    assert Line(k, v) + Line(k', v') + [] == d;
    Qci.StartIsOpen(d);
    LineIsOpen(d, 0, 2, k, v, n);
    FirstLine(d, k, v, fold);
    LaterLine(d, n, k, v, k', v', fold);
    LineReads(d, 0, 2, k, v);
    LineReads(d, n, 2, k', v');
  }

  lemma FirstLine(d: Bytes, k: Bytes, v: Bytes, fold: bool)
    requires LineAt(d, 0, 2, k, v) && OpenAt(d, 0)
    ensures Assignment(d, k, 0, fold) == Some(Span(2, 2 + |k|, 3 + |k|, 5 + |k|))
  {
    hide LineAt, AssignAt, SpanAt, Assignment, OpenAt;
    LineAssigns(d, 0, 2, k, v, fold);
    LineSpan(d, 0, 2, k, v);
    forall s: nat | s < 2 ensures !AssignAt(d, 0, s, k, fold) {
      if AssignAt(d, 0, s, k, fold) {
        LineIsQuiet(d, 0, 2, k, v, s, k, fold);
      }
    }
    AssignmentIsUnique(d, k, 0, fold, 2);
  }

  lemma LaterLine(d: Bytes, n: nat, k: Bytes, v: Bytes, k': Bytes, v': Bytes, fold: bool)
    requires LineAt(d, 0, 2, k, v) && n == LineLength(2, k, v) && OpenAt(d, 0) && OpenAt(d, n)
    requires LineAt(d, n, 2, k', v') && Distinct(k, k')
    ensures Assignment(d, k', 0, fold) == Some(Span(n + 2, n + 2 + |k'|, n + 3 + |k'|, n + 5 + |k'|))
  {
    hide LineAt, AssignAt, SpanAt, Assignment, OpenAt, TokenIs, Distinct;
    LineAssigns(d, n, 2, k', v', fold);
    LineSpan(d, n, 2, k', v');
    forall s: nat | s < n + 2 ensures !AssignAt(d, 0, s, k', fold) {
      if AssignAt(d, 0, s, k', fold) {
        if s < n {
          LineIsQuiet(d, 0, 2, k, v, s, k', fold);
          TokenIsField(d, 0, 2, k, v, k', fold);
        } else {
          LineIsQuiet(d, n, 2, k', v', s, k', fold);
        }
      }
    }
    AssignmentIsUnique(d, k', 0, fold, n + 2);
  }

  lemma PowerNames()
    ensures IsName(POWER) && IsName(READER_POWER) && Distinct(POWER, READER_POWER)
  {
    assert |POWER| == 22 && |READER_POWER| == 8;
    forall i | 0 <= i < |POWER| ensures IsIdent(POWER[i]) {}
  }

  /** The file that holds the power under both names. */
  function BothNames(old': int, seen: int): Bytes {
    TwoLines(POWER, FormatInt(old'), READER_POWER, FormatInt(seen))
  }

  /**
   At such a file: patching the leaf with a new number succeeds and the renderer's key reads it, but
   the reader still gives the number it gave before, which is the new one only by coincidence.
   */
  lemma ReaderSeesTheOldPower(old': int, seen: int, new': int)
    requires IsInt32(seen)
    ensures var d := BothNames(old', seen);
            && Patch(d, POWER, FormatInt(new')).Some?
            && var d' := Patch(d, POWER, FormatInt(new')).value;
               && ReadScalar(d', POWER, false) == Some(FormatInt(new'))
               && Qci.IntIn(d, READER_POWER) == seen && Qci.IntIn(d', READER_POWER) == seen
               && (Qci.IntIn(d', READER_POWER) == new' <==> seen == new')
  {
    hide Patch, ReadScalar, FormatInt, TwoLines, IsName, IsNumberText, Distinct, POWER, READER_POWER, SafeScalar, NoWord, ReadInt32, Unquote;
    var d := BothNames(old', seen);
    PowerNames();
    PrintedNumbers(old');
    PrintedNumbers(seen);
    PrintedNumbers(new');
    BothAreRead(d, old', seen);
    BothAreApart(d, old', seen);
    NumberIsSafe(FormatInt(new'), POWER, false);
    NumberIsSafe(FormatInt(new'), READER_POWER, true);
    PatchSucceeds(d, POWER, FormatInt(new'));
    PatchKeepsLayout(d, POWER, FormatInt(new'), {POWER});
    PatchLeavesReader(d, POWER, FormatInt(new'), {POWER}, READER_POWER);
    NumberUnquoted(seen);
    IntRoundTrip(seen);
  }

  lemma BothAreRead(d: Bytes, old': int, seen: int)
    requires d == BothNames(old', seen)
    ensures ReadScalar(d, POWER, false) == Some(FormatInt(old')) && ReadScalar(d, READER_POWER, true) == Some(FormatInt(seen))
  {
    hide FormatInt, TwoLines, IsName, IsNumberText, Distinct, POWER, READER_POWER, Assignment, ScalarText, ValueStop, CommentAt, Line;
    PowerNames();
    PrintedNumbers(old');
    PrintedNumbers(seen);
    TwoLinesRead(POWER, FormatInt(old'), READER_POWER, FormatInt(seen), false);
    TwoLinesRead(POWER, FormatInt(old'), READER_POWER, FormatInt(seen), true);
  }

  lemma BothAreApart(d: Bytes, old': int, seen: int)
    requires d == BothNames(old', seen)
    ensures Layout(d, {POWER}) && ReaderApart(d, {POWER}, READER_POWER)
  {
    hide FormatInt, TwoLines, IsName, IsNumberText, Distinct, POWER, READER_POWER, Assignment, ScalarText, ValueStop, CommentAt, Line;
    PowerNames();
    PrintedNumbers(old');
    PrintedNumbers(seen);
    TwoLinesRead(POWER, FormatInt(old'), READER_POWER, FormatInt(seen), false);
    TwoLinesRead(POWER, FormatInt(old'), READER_POWER, FormatInt(seen), true);
  }
}
