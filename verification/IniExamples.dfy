/**
 Inputs at which patching enb.conf falls short of its promise.
 */
module IniExamples {
  import opened Lexer
  import opened Splice
  import opened Text
  import opened Ini
  import opened IniLines
  import opened IniValues
  import opened IniPlaces
  import opened IniWriting
  import opened IniTheorem
  import opened IniAgain
  import opened IniBatch

  /** A text whose last line has no line feed. */
  const UNFINISHED: Bytes := "[enb]\nmcc = 001"

  const UNFINISHED_LINES: seq<Bytes> := ["[enb]\n", "mcc = 001"]

  lemma ShortNames()
    ensures IsLowerName("enb") && IsLowerName("mcc") && IsLowerName("mnc")
    ensures Lower("enb") == "enb" && Lower("mcc") == "mcc" && Lower("mnc") == "mnc"
  {}

  lemma ShortValues()
    ensures SafeIni("001") && SafeIni("01") && SafeIni("001mnc = 01")
  {
    hide SafeIni;
    PlainIsSafe("001");
    PlainIsSafe("01");
    PlainIsSafe("001mnc = 01");
  }

  /** How renderer and reader see the two lines. */
  lemma UnfinishedParts()
    ensures var h, l := UNFINISHED_LINES[0], UNFINISHED_LINES[1];
            && IsLine(h) && HeaderName(h) == Some("enb") && ItemOf(ScanLine(h)) == Header("enb")
            && IsPiece(l) && !IsLine(l) && HeaderName(l) == None && ItemOf(ScanLine(l)) == Entry("mcc", "001")
            && HasKey(l, "mcc") && !HasKey(l, "mnc") && !HasKey(h, "mnc") && !IsCommentLine(l)
    ensures AllPieces(UNFINISHED_LINES) && SplitLines(UNFINISHED) == UNFINISHED_LINES
  {
    hide HeaderName, ItemOf, ScanLine, HasKey, IsCommentLine, SafeIni, Lower, SplitLines, Join, IsName;
    var h, l := UNFINISHED_LINES[0], UNFINISHED_LINES[1];
    ShortNames();
    ShortValues();
    assert h == "[" + "enb" + "]\n";
    HeaderLine("enb");
    assert l == Written([], "mcc", "001", []) + [];
    WrittenLine([], "mcc", "001", [], []);
    KeyLine(l, "mcc");
    OneKey(l, "mcc", "mnc");
    if HasKey(h, "mnc") {
      KeyLine(h, "mnc");
    }
    assert AllPieces(UNFINISHED_LINES);
    SplitOfJoin(UNFINISHED_LINES);
    JoinTwo(h, l);
    assert h + l == UNFINISHED;
  }

  lemma UnfinishedIsTidy()
    ensures Tidy(UNFINISHED, "enb", "mnc") && Find(UNFINISHED_LINES, "enb", "mnc") == Before(2)
  {
    hide HeaderName, ItemOf, ScanLine, HasKey, IsCommentLine, Lower, SplitLines, Trim;
    var ls := UNFINISHED_LINES;
    UnfinishedParts();
    ShortNames();
    TrimOfTrimmed("enb");
    assert SameHeader(ls[0]) && SameHeader(ls[1]);
    assert forall i: nat :: Opens(ls, i, "enb") ==> i == 0;
    assert forall i: nat :: !Assigns(ls, i, "enb", "mnc");
    assert Locate(ls, 2, "enb", "mnc", "enb", true, 2) == Before(2);
    assert Locate(ls, 1, "enb", "mnc", "enb", true, 1) == Before(2);
  }

  /**
   The round trip fails here: the new assignment is glued to the last line, so that mnc has no
   value and mcc a wrong one.
   */
  lemma UnfinishedLineIsGlued()
    ensures var d' := PatchIni(UNFINISHED, "enb", "mnc", "01");
            && Tidy(UNFINISHED, "enb", "mnc") && !KeepsApart(UNFINISHED, "enb", "mnc")
            && ReadIni(UNFINISHED) == map[("enb", "mcc") := "001"]
            && ReadIni(d') == map[("enb", "mcc") := "001mnc = 01"]
  {
    hide HeaderName, ItemOf, ScanLine, HasKey, IsCommentLine, Lower, SplitLines, Trim, Find, SafeIni, Join, IsName, ReadLines, NewLine, IsLine, IsPiece;
    var ls, l := UNFINISHED_LINES, UNFINISHED_LINES[1];
    UnfinishedParts();
    UnfinishedIsTidy();
    ShortNames();
    ShortValues();
    VisibleText();
    GluedSplits(ls, "mnc", "01");
    GluedLine(l, "mnc", "01");
    assert ls[..1] == [ls[0]] && [ls[0]] + [l] == ls;
    NothingRead();
    LastLine([], ls[0]);
    assert [] + [ls[0]] == [ls[0]];
    LastLine([ls[0]], l);
    LastLine([ls[0]], l + NewLine("mnc", "01"));
    assert Glued(l, "mnc", "01") == Written([], "mcc", "001mnc = 01", []);
    WrittenItem([], "mcc", "001mnc = 01", []);
  }

  lemma NothingRead()
    ensures ReadLines(START, []) == START
  {}

  lemma VisibleText()
    ensures Trim("mcc = 001") != [] && !EndsLine(UNFINISHED)
  {
    hide Trim;
    TrimOfTrimmed("mcc = 001");
  }

  /** The second patch of an empty text with a value that holds a '#' changes it again. */
  lemma HashIsCopied()
    ensures var d' := PatchIni([], "enb", "mcc", "a#b"); PatchIni(d', "enb", "mcc", "a#b") != d'
  {
    hide PatchIni;
    ShortNames();
    HashIsSafe();
    assert SplitLines([]) == [];
    assert '#' == "a#b"[1];
    PatchAgain([], "enb", "mcc", "a#b");
  }

  lemma HashIsSafe()
    ensures SafeIni("a#b")
  {
    var v := "a#b";
    assert ModeAt(v, 0, 1) == Word && ModeAt(v, 0, 2) == Code && ModeAt(v, 0, 3) == Word;
  }
}
