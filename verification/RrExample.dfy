/**
 An rr.conf with two lines of one key: the renderer writes the first, the reader takes the last. And one
 with a single line, which is read back.
 */
module RrExample {
  import opened Lexer
  import opened Splice
  import opened Text
  import opened Numbers
  import opened Overlay
  import opened Batch
  import opened Routing
  import opened Ini
  import opened IniLines
  import opened IniValues
  import opened IniWriting
  import opened EnbAgreement
  import opened PlainTexts
  import opened RrLines
  import opened RrReader
  import opened RrShape

  const OFFSET: Bytes := "a3_offset"

  function OffsetLine(v: Bytes): Bytes {
    Field(OFFSET, v) + "\n"
  }

  function Twice(v: Bytes, w: Bytes): Bytes {
    OffsetLine(v) + OffsetLine(w)
  }

  lemma OffsetName()
    ensures IsLowerName(OFFSET) && |OFFSET| == 9 && OFFSET in LAST_KEYS && OFFSET != "cell_id" && OFFSET != "tac"
    ensures OFFSET != "dl_earfcn" && OFFSET != "pci" && OFFSET != "ho_active"
  {
    forall i | 0 <= i < |OFFSET| ensures IsIdent(OFFSET[i]) && LowerChar(OFFSET[i]) == OFFSET[i] {}
  }

  /** The line of a number. */
  lemma OffsetLineReads(v: Bytes)
    requires IsNumberText(v)
    ensures IsLine(OffsetLine(v)) && RrEntry(OffsetLine(v)) == Some((OFFSET, v))
  {
    hide OFFSET, IsLowerName, RrEntry, IsLine, IsLoneValue, IsFront, IsRear;
    var x := Lone(0, 0, |OFFSET|, 0, 1, OFFSET + "=", ";", "\n");
    OffsetName();
    NumberIsIniSafe(v);
    LoneNumber(v);
    OffsetFront();
    assert IsRear(";", 0, 1) by { SemicolonRear(); }
    LineFacts(x, OFFSET, v);
    assert LineWith(x, v) == OffsetLine(v);
  }

  lemma LoneNumber(v: Bytes)
    requires IsNumberText(v) && SafeIni(v)
    ensures IsLoneValue(v)
  {
    hide SafeIni;
  }

  lemma OffsetFront()
    ensures IsFront(OFFSET + "=", 0, |OFFSET|, OFFSET)
  {
    hide OFFSET;
    OffsetName();
    assert (OFFSET + "=")[0..|OFFSET|] == OFFSET;
    forall i | 0 <= i < |OFFSET| ensures OFFSET[i] != '\n' {
      assert IsIdent(OFFSET[i]);
    }
  }

  lemma SemicolonRear()
    ensures IsRear(";", 0, 1)
  {}

  lemma TwiceSplits(v: Bytes, w: Bytes)
    requires IsNumberText(v) && IsNumberText(w)
    ensures SplitLines(Twice(v, w)) == [OffsetLine(v), OffsetLine(w)]
  {
    hide SplitLines, OffsetLine, RrEntry, IsLine, IsNumberText;
    OffsetLineReads(v);
    OffsetLineReads(w);
    SplitLine(OffsetLine(v), OffsetLine(w));
    assert OffsetLine(w) + [] == OffsetLine(w);
    SplitLine(OffsetLine(w), []);
    NothingToSplit();
  }

  lemma TwiceReads(v: int, w: int)
    requires IsInt32(v) && IsInt32(w)
    ensures var values := RrValues(SplitLines(Twice(FormatInt(v), FormatInt(w)))); OFFSET in values && values[OFFSET] == FormatInt(w)
  {
    hide SplitLines, OffsetLine, RrEntry, OFFSET, FormatInt, ParseInt32, IsNumberText, Twice, LAST_KEYS;
    var a, b := OffsetLine(FormatInt(v)), OffsetLine(FormatInt(w));
    PrintedNumbers(v);
    PrintedNumbers(w);
    OffsetName();
    OffsetLineReads(FormatInt(v));
    OffsetLineReads(FormatInt(w));
    TwiceSplits(FormatInt(v), FormatInt(w));
    IntRoundTrip(w);
    assert [a, b][..1] == [a];
    assert RrValues([a, b]) == Absorbed(RrValues([a]), b);
  }

  lemma TwicePatched(u: Bytes, w: Bytes, v: Bytes)
    requires IsNumberText(u) && IsNumberText(w)
    ensures Patch(Twice(u, w), OFFSET, v) == Some(Twice(v, w))
  {
    hide OFFSET, SpanAt, Assignment, IsLowerName, ScalarText, PlainText, IsNumberText, OffsetLine, ScalarEnd;
    var d := Twice(u, w);
    OffsetName();
    OffsetParts(u, OffsetLine(w));
    OffsetParts(v, OffsetLine(w));
    TwiceFound(u, w);
    NumberHere(d, 10, u);
    EndOfNumber(d, 10, u);
  }

  /** The file around its first number. */
  lemma OffsetParts(u: Bytes, r: Bytes)
    ensures var d := OffsetLine(u) + r;
            && |OFFSET| == 9 && 10 + |u| < |d| && d[0..9] == OFFSET && d[9] == '=' && d[10..10 + |u|] == u && d[10 + |u|] == ';'
            && d[..10] == OFFSET + "=" && d[10 + |u|..] == ";\n" + r && d == OFFSET + "=" + u + (";\n" + r)
  {
    hide OFFSET;
    OffsetName();
    var d := OffsetLine(u) + r;
    assert d == (OFFSET + "=") + (u + (";\n" + r));
  }

  lemma TwiceFound(u: Bytes, w: Bytes)
    requires IsNumberText(u) && IsNumberText(w)
    ensures Assignment(Twice(u, w), OFFSET, 0, false) == Some(Span(0, 9, 9, 10))
  {
    hide OFFSET, AssignAt, SpanAt, Assignment, IsLowerName, PlainText, IsNumberText, OffsetLine;
    var d := Twice(u, w);
    OffsetName();
    OffsetParts(u, OffsetLine(w));
    TwiceIsPlain(u, w);
    FirstIsVisible(u);
    assert d[10] == u[0];
    AssignedHere(d, 0, OFFSET, OFFSET, false);
    AssignmentIsUnique(d, OFFSET, 0, false, 0);
    WordSpan(d, 0, OFFSET);
  }

  lemma FirstIsVisible(u: Bytes)
    requires IsNumberText(u)
    ensures u != [] && !IsSpace(u[0])
  {
    assert IsNumberChar(u[0]);
  }

  lemma EndOfNumber(d: Bytes, s: nat, u: Bytes)
    requires s <= |d| && ScalarText(d, s) == Some(u)
    ensures ScalarEnd(d, s) == Some(s + |u|)
  {}

  lemma TwiceIsPlain(u: Bytes, w: Bytes)
    requires IsNumberText(u) && IsNumberText(w)
    ensures PlainText(Twice(u, w))
  {
    hide OFFSET, PlainText;
    LineIsPlain(u);
    LineIsPlain(w);
    PlainConcat(OffsetLine(u), OffsetLine(w));
  }

  lemma LineIsPlain(u: Bytes)
    requires IsNumberText(u)
    ensures PlainText(OffsetLine(u))
  {
    hide OFFSET;
    OffsetName();
    var l := OffsetLine(u);
    assert l == OFFSET + ("=" + (u + ";\n"));
    forall i | 0 <= i < |l| ensures IsPlain(l[i]) {
      if i < |OFFSET| {
        assert IsIdent(OFFSET[i]);
      } else if |OFFSET| < i <= |OFFSET| + |u| {
        assert l[i] == u[i - |OFFSET| - 1] && IsNumberChar(u[i - |OFFSET| - 1]);
      }
    }
  }

  /** The patch of such a file succeeds, and the reader still gives the number of the second line. */
  lemma SecondOffsetIsRead(u: int, w: int, v: int)
    requires IsInt32(u) && IsInt32(w) && IsInt32(v)
    ensures var d := Twice(FormatInt(u), FormatInt(w));
            && Patch(d, OFFSET, FormatInt(v)).Some?
            && var values, values' := RrValues(SplitLines(d)), RrValues(SplitLines(Patch(d, OFFSET, FormatInt(v)).value));
               OFFSET in values && OFFSET in values' && values'[OFFSET] == values[OFFSET] == FormatInt(w)
  {
    hide SplitLines, Twice, OFFSET, FormatInt, RrValues, IsNumberText, Patch;
    PrintedNumbers(u);
    PrintedNumbers(w);
    TwicePatched(FormatInt(u), FormatInt(w), FormatInt(v));
    TwiceReads(u, w);
    TwiceReads(v, w);
  }

  // ----- a file with one line

  const PCI: Bytes := Field("pci", "1")

  const RR_TEXT: Bytes := PCI + "\n"

  lemma PciName()
    ensures IsSmooth("pci") && |"pci"| == 3 && IsNumberText("1") && "pci" in RR_KEYS
  {}

  lemma FeedLexed()
    ensures Lexed("\n", [], [])
  {}

  lemma PciLexed()
    ensures Lexed(RR_TEXT, [0], ["pci"]) && |RR_TEXT| == 7 && RR_TEXT[4..5] == "1" && RR_TEXT[5] == ';'
  {
    hide Lexed, PCI, IsSmooth;
    PciName();
    FieldLexed("pci", "1");
    FieldParts("pci", "1");
    PciIs();
    FeedLexed();
    LexedConcat(PCI, [0], ["pci"], "\n", [], []);
    assert [0] + MovedBy([], 6) == [0] && ["pci"] + [] == ["pci"];
  }

  lemma PciIs()
    ensures PCI == Field("pci", "1") && |PCI| == 6 && PCI[4..5] == "1" && PCI[5] == ';' && PCI == "pci=" + "1" + ";"
  {}

  lemma PciFinds(k: string)
    requires k in RR_KEYS
    ensures Assignment(RR_TEXT, k, 0, false) == if k == "pci" then Some(Span(0, 3, 3, 4)) else None
    ensures ReadScalar(RR_TEXT, k, false) == if k == "pci" then Some("1") else None
    ensures k == "pci" ==> !CommentAt(RR_TEXT, 4)
  {
    hide RR_TEXT, Lexed, Assignment, IsLowerName, RR_KEYS, CommentAt, ScalarText;
    PciLexed();
    PciName();
    if k == "pci" {
      WordFound(RR_TEXT, [0], ["pci"], 0, false);
      NumberHere(RR_TEXT, 4, "1");
    } else {
      RrNames(k);
      NoOtherWord(RR_TEXT, [0], ["pci"], k, false);
    }
  }

  /** The one line of the file. */
  lemma PciLine()
    ensures SplitLines(RR_TEXT) == [RR_TEXT] && RrEntry(RR_TEXT) == Some(("pci", "1"))
    ensures LineIs([RR_TEXT], "pci", "1", Lone(0, 0, 3, 0, 1, "pci=", ";", "\n"))
  {
    hide RrEntry, IsLine, IsLoneValue, IsFront, IsRear, SplitLines, IsLowerName, PCI;
    var x := Lone(0, 0, 3, 0, 1, "pci=", ";", "\n");
    PciName();
    PciIs();
    PciFront();
    SemicolonRear();
    NumberIsIniSafe("1");
    LoneNumber("1");
    LineFacts(x, "pci", "1");
    assert LineWith(x, "1") == RR_TEXT;
    assert RR_TEXT + [] == RR_TEXT;
    SplitLine(RR_TEXT, []);
    NothingToSplit();
  }

  lemma PciFront()
    ensures IsFront("pci=", 0, 3, "pci") && IsLowerName("pci")
  {
    assert "pci="[0..3] == "pci";
  }

  /** The file has the shape that renderer and reader need, and holds the number 1 at its one leaf. */
  lemma RrIsShaped()
    ensures RrShape.Shape(RR_TEXT)
    ensures forall k | k in RR_KEYS :: ReadScalar(RR_TEXT, k, false) == if k == "pci" then Some("1") else None
  {
    hide RR_TEXT, Assignment, RR_KEYS, CommentAt, ReadScalar, RrEntry, SplitLines, LineIs, ValueStop;
    PciLine();
    var x := Lone(0, 0, 3, 0, 1, "pci=", ";", "\n");
    assert Offset([RR_TEXT], 0) == 0;
    forall k | k in RR_KEYS
      ensures NotAComment(RR_TEXT, k) && OneLine(RR_TEXT, k) && (Assignment(RR_TEXT, k, 0, false).Some? ==> k == "pci")
      ensures ReadScalar(RR_TEXT, k, false) == if k == "pci" then Some("1") else None
    {
      PciFinds(k);
      if k == "pci" {
        assert LineIs([RR_TEXT], k, "1", x) && FoundOn(RR_TEXT, [RR_TEXT], k, x) && OnlyAt([RR_TEXT], k, 0);
      }
    }
  }
}
