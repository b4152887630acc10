/**
 A small sib.conf with one leaf in its nested block.
 */
module SibExample {
  import opened Lexer
  import opened Splice
  import opened Numbers
  import opened Batch
  import opened Routing
  import opened Brackets
  import opened PlainTexts
  import opened SibBlocks
  import opened SibShape
  import QciProfiles

  const OUTER: Bytes := Opening("sib2", '{')

  const INNER: Bytes := Opening("pcch_cnfg", '{')

  const CYCLE: Bytes := Field("default_paging_cycle", "8")

  const SIB_TEXT: Bytes := OUTER + (INNER + (CYCLE + ("}" + "}")))

  const SIB_WORDS: seq<Bytes> := ["sib2", "pcch_cnfg", "default_paging_cycle"]

  lemma SibIsSmooth()
    ensures IsSmooth("sib2") && |"sib2"| == 4
  {}

  lemma PcchIsSmooth()
    ensures IsSmooth("pcch_cnfg") && |"pcch_cnfg"| == 9
  {
    hide IsSmooth;
    var w: Bytes := "pcch_cnfg";
    forall i | 0 <= i < |w| ensures IsIdentStart(w[i]) && LowerChar(w[i]) == w[i] {}
    LettersAreSmooth(w);
  }

  lemma CycleIsSmooth()
    ensures IsSmooth("default_paging_cycle") && |"default_paging_cycle"| == 20
  {
    hide IsSmooth;
    var w: Bytes := "default_paging_cycle";
    forall i | 0 <= i < |w| ensures IsIdentStart(w[i]) && LowerChar(w[i]) == w[i] {}
    LettersAreSmooth(w);
  }

  lemma SmoothNames()
    ensures IsSmooth("sib2") && IsSmooth("pcch_cnfg") && IsSmooth("default_paging_cycle") && IsNumberText("8")
    ensures |"sib2"| == 4 && |"pcch_cnfg"| == 9 && |"default_paging_cycle"| == 20
  {
    hide IsSmooth;
    SibIsSmooth();
    PcchIsSmooth();
    CycleIsSmooth();
  }

  /** The parts of the file. */
  lemma SibParts()
    ensures |OUTER| == 6 && |INNER| == 11 && |CYCLE| == 23
    ensures OUTER[5] == '{' && INNER[10] == '{' && CYCLE[21..22] == "8" && CYCLE[22] == ';'
    ensures (forall k | 0 <= k < 5 :: !IsBracket(OUTER[k])) && (forall k | 0 <= k < 10 :: !IsBracket(INNER[k])) && forall k | 0 <= k < 23 :: !IsBracket(CYCLE[k])
  {
    hide Opening, Field;
    SmoothNames();
    OpeningParts("sib2", '{');
    OpeningParts("pcch_cnfg", '{');
    FieldParts("default_paging_cycle", "8");
  }

  lemma PartsLexed()
    ensures Lexed(OUTER, [0], ["sib2"]) && Lexed(INNER, [0], ["pcch_cnfg"]) && Lexed(CYCLE, [0], ["default_paging_cycle"])
    ensures Lexed("}" + "}", [], [])
  {
    hide Lexed, IsSmooth, Opening, Field;
    SmoothNames();
    OpeningLexed("sib2", '{');
    OpeningLexed("pcch_cnfg", '{');
    FieldLexed("default_paging_cycle", "8");
    BracketLexed('}');
    LexedConcat("}", [], [], "}", [], []);
    assert [] + MovedBy([], 1) == [];
  }

  lemma SibLexed()
    ensures Lexed(SIB_TEXT, [0, 6, 17], SIB_WORDS)
  {
    hide Lexed, OUTER, INNER, CYCLE;
    SibParts();
    PartsLexed();
    var close: Bytes := "}" + "}";
    LexedConcat(CYCLE, [0], ["default_paging_cycle"], close, [], []);
    assert [0] + MovedBy([], 23) == [0] && ["default_paging_cycle"] + [] == ["default_paging_cycle"];
    LexedConcat(INNER, [0], ["pcch_cnfg"], CYCLE + close, [0], ["default_paging_cycle"]);
    assert [0] + MovedBy([0], 11) == [0, 11];
    assert ["pcch_cnfg"] + ["default_paging_cycle"] == SIB_WORDS[1..];
    LexedConcat(OUTER, [0], ["sib2"], INNER + (CYCLE + close), [0, 11], SIB_WORDS[1..]);
    assert [0] + MovedBy([0, 11], 6) == [0, 6, 17];
    assert ["sib2"] + SIB_WORDS[1..] == SIB_WORDS;
  }

  lemma KeyNames(g: string)
    requires g in SIB_KEYS
    ensures IsLowerName(g)
  {
    forall i | 0 <= i < |g| ensures IsIdent(g[i]) && LowerChar(g[i]) == g[i] {}
  }

  lemma ReaderNames(g: string)
    requires g in NAMES
    ensures IsLowerName(g)
  {
    forall i | 0 <= i < |g| ensures IsIdent(g[i]) && LowerChar(g[i]) == g[i] {}
  }

  function FoundSpan(g: string): Option<Span> {
    if g == "sib2" then Some(Span(0, 4, 4, 5))
    else if g == "pcch_cnfg" then Some(Span(6, 15, 15, 16))
    else if g == "default_paging_cycle" then Some(Span(17, 37, 37, 38))
    else None
  }

  lemma SibWord(g: string, fold: bool)
    requires g in SIB_WORDS
    ensures Assignment(SIB_TEXT, g, 0, fold) == FoundSpan(g)
  {
    hide SIB_TEXT, Lexed, Assignment;
    SibLexed();
    if g == "sib2" {
      WordFound(SIB_TEXT, [0, 6, 17], SIB_WORDS, 0, fold);
    } else if g == "pcch_cnfg" {
      WordFound(SIB_TEXT, [0, 6, 17], SIB_WORDS, 1, fold);
    } else {
      WordFound(SIB_TEXT, [0, 6, 17], SIB_WORDS, 2, fold);
    }
  }

  /** What is found in the file. */
  lemma SibFinds(g: string, fold: bool)
    requires g in SIB_KEYS || g in NAMES
    ensures Assignment(SIB_TEXT, g, 0, fold) == FoundSpan(g)
  {
    hide SIB_TEXT, Lexed, IsLowerName, Assignment, SIB_KEYS, NAMES;
    SibLexed();
    if g in SIB_WORDS {
      SibWord(g, fold);
    } else {
      if g in NAMES {
        ReaderNames(g);
      } else {
        KeyNames(g);
      }
      NoOtherWord(SIB_TEXT, [0, 6, 17], SIB_WORDS, g, fold);
    }
  }

  lemma SibPlain()
    ensures PlainText(SIB_TEXT)
  {
    hide SIB_TEXT, WordHere, Starts;
    SibLexed();
  }

  lemma SibValues()
    ensures |SIB_TEXT| == 42 && ScalarText(SIB_TEXT, 38) == Some("8") && !CommentAt(SIB_TEXT, 38)
    ensures ValueStop(SIB_TEXT, 5) == 5 && ValueStop(SIB_TEXT, 16) == 16
  {
    hide OUTER, INNER, CYCLE;
    SibParts();
    assert SIB_TEXT[38..39] == CYCLE[21..22];
    NumberHere(SIB_TEXT, 38, "8");
    BracketHere(SIB_TEXT, 5);
    BracketHere(SIB_TEXT, 16);
  }

  lemma SibBraces()
    ensures |SIB_TEXT| == 42
    ensures forall n | 0 <= n < 42 :: (SIB_TEXT[n] == '{' <==> n == 5 || n == 16) && (SIB_TEXT[n] == '}' <==> n == 40 || n == 41)
  {
    hide OUTER, INNER, CYCLE;
    SibParts();
  }

  lemma SibNested()
    ensures Placed(SIB_TEXT, Two("sib2", "pcch_cnfg"), "default_paging_cycle")
  {
    hide SIB_TEXT, Assignment, NamedBlock, SIB_KEYS, NAMES;
    KnownNames();
    SibNamed();
    SibFinds("pcch_cnfg", true);
    SibFinds("default_paging_cycle", true);
  }

  lemma SibNamed()
    ensures NamedBlock(SIB_TEXT, "sib2") == Some(Block(5, 42)) && NamedBlock(SIB_TEXT, "pcch_cnfg") == Some(Block(16, 41))
  {
    hide SIB_TEXT, NamedBlock, SIB_KEYS, NAMES, FoundSpan, Assignment, MatchingClose;
    SibCloses();
    KnownNames();
    SibSpans();
    SibFinds("sib2", true);
    SibFinds("pcch_cnfg", true);
    NamedHere("sib2", Span(0, 4, 4, 5), 41);
    NamedHere("pcch_cnfg", Span(6, 15, 15, 16), 40);
  }

  lemma SibSpans()
    ensures FoundSpan("sib2") == Some(Span(0, 4, 4, 5)) && FoundSpan("pcch_cnfg") == Some(Span(6, 15, 15, 16))
  {}

  lemma NamedHere(name: string, sp: Span, e: nat)
    requires Assignment(SIB_TEXT, name, 0, true) == Some(sp) && sp.valueStart < |SIB_TEXT| && SIB_TEXT[sp.valueStart] == '{'
    requires MatchingClose(SIB_TEXT, sp.valueStart, '{', '}') == Some(e)
    ensures NamedBlock(SIB_TEXT, name) == Some(Block(sp.valueStart, e + 1))
  {
    hide SIB_TEXT, NamedBlock, Assignment, MatchingClose;
    QciProfiles.SpaceIsSkipped(SIB_TEXT, name, true, sp);
    NamedIs(SIB_TEXT, name, sp, e);
  }

  lemma SibCloses()
    ensures |SIB_TEXT| == 42 && SIB_TEXT[5] == '{' && SIB_TEXT[16] == '{'
    ensures MatchingClose(SIB_TEXT, 5, '{', '}') == Some(41) && MatchingClose(SIB_TEXT, 16, '{', '}') == Some(40)
  {
    hide SIB_TEXT, MatchingClose, PlainText;
    SibBraces();
    SibPlain();
    OuterCloses(SIB_TEXT, 5, 16, 40, 41);
    PairCloses(SIB_TEXT, 16, 40, '{', '}');
  }

  lemma KnownNames()
    ensures "sib2" in NAMES && "pcch_cnfg" in NAMES && READER_POWER in NAMES && FoundSpan(READER_POWER) == None
    ensures "default_paging_cycle" in SIB_KEYS && "sib2" !in SIB_KEYS && "pcch_cnfg" !in SIB_KEYS && "default_paging_cycle" !in NAMES
    ensures PathOf("default_paging_cycle") == Some(Two("sib2", "pcch_cnfg"))
  {}

  lemma SibSeparate(a: string, b: string, fb: bool)
    requires a in SIB_KEYS && (b in SIB_KEYS || b in NAMES) && a != b
    ensures SeparateIn(SIB_TEXT, a, false, b, fb)
  {
    hide SIB_TEXT, Assignment, SIB_KEYS, NAMES, ValueStop;
    SibValues();
    KnownNames();
    SibFinds(a, false);
    SibFinds(b, fb);
  }

  lemma SibLayout()
    ensures Layout(SIB_TEXT, SIB_KEYS) && forall a | a in NAMES :: ReaderApart(SIB_TEXT, SIB_KEYS, a)
  {
    hide SIB_TEXT, Assignment, SIB_KEYS, NAMES, SeparateIn, CommentAt;
    SibValues();
    KnownNames();
    forall a | a in SIB_KEYS ensures NotAComment(SIB_TEXT, a) {
      SibFinds(a, false);
    }
    forall a, b | a in SIB_KEYS && b in SIB_KEYS && a != b ensures SeparateKeys(SIB_TEXT, a, b) {
      SibSeparate(a, b, false);
    }
    forall a, b | a in SIB_KEYS && b in NAMES ensures SeparateIn(SIB_TEXT, a, false, b, true) {
      NamesApart(a, b);
      SibSeparate(a, b, true);
    }
  }

  lemma NamesApart(a: string, b: string)
    requires a in SIB_KEYS && b in NAMES
    ensures a != b
  {}

  lemma SibKey(k: string)
    requires k in SIB_KEYS
    ensures Agreeing(SIB_TEXT, k) && InPlace(SIB_TEXT, k)
    ensures ReadScalar(SIB_TEXT, k, false) == if k == "default_paging_cycle" then Some("8") else None
  {
    hide SIB_TEXT, Assignment, SIB_KEYS, NAMES, PathOf, Placed, ScalarText, READER_POWER;
    SibValues();
    SibNested();
    KnownNames();
    SibFinds(k, false);
    SibFinds(k, true);
  }

  /** The file has the shape that renderer and reader need, and holds the number 8 at its one leaf. */
  lemma SibIsShaped()
    ensures Shape(SIB_TEXT)
    ensures forall k | k in SIB_KEYS :: ReadScalar(SIB_TEXT, k, false) == if k == "default_paging_cycle" then Some("8") else None
  {
    hide SIB_TEXT, Assignment, SIB_KEYS, NAMES, PathOf, Placed, Layout, ReaderApart, READER_POWER, Agreeing, ReadScalar;
    SibLayout();
    KnownNames();
    forall k | k in SIB_KEYS
      ensures Agreeing(SIB_TEXT, k) && InPlace(SIB_TEXT, k)
      ensures ReadScalar(SIB_TEXT, k, false) == if k == "default_paging_cycle" then Some("8") else None
    {
      SibKey(k);
    }
    SibFinds(READER_POWER, true);
  }
}
