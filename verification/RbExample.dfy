/**
 A small rb.conf with one profile, ready for edits.
 */
module RbExample {
  import opened Lexer
  import opened Text
  import opened Splice
  import opened Numbers
  import opened Batch
  import opened Config
  import opened Routing
  import opened Rendering
  import opened Edits
  import opened Reduction
  import opened Store
  import opened SafeTexts
  import opened Brackets
  import opened PlainTexts
  import opened Qci
  import opened QciProfiles
  import opened RbBatch
  import QciFile
  import QciPatch
  import QciTheorem
  import QciReady
  import Twins

  /** The only braces from `i` on are one pair. */
  lemma OneBlock(d: Bytes, i: nat, a: nat, p: nat)
    requires PlainText(d) && i <= a < p < |d| && d[a] == '{' && d[p] == '}'
    requires forall n | i <= n < |d| && n != a && n != p :: d[n] != '{' && d[n] != '}'
    ensures TopBlocks(d, i) == [Block(a, p + 1)]
  {
    hide BracketAt, MatchingClose, TopBlocks, PlainText, NextBrace;
    PlainOpen(d, a);
    NextBraceIs(d, i, Some(a));
    NextBraceIs(d, p + 1, None);
    PairCloses(d, a, p, '{', '}');
    TopBlocksUnfold(d, i);
    TopBlocksUnfold(d, p + 1);
  }

  // ----- rb.conf

  const NUMBER: Bytes := Field("qci", "7")

  const PRIORITY: Bytes := Field("priority", "5")

  const BLOCK: Bytes := "{" + (NUMBER + (PRIORITY + "}"))

  const RB_TEXT: Bytes := "qci_config=(" + BLOCK + ")"

  const BLOCK_WORDS: seq<Bytes> := ["qci", "priority"]

  lemma SmoothNames()
    ensures IsSmooth("qci") && IsSmooth("priority") && |"qci"| == 3 && |"priority"| == 8 && IsNumberText("7") && IsNumberText("5")
  {
    hide IsSmooth;
    var w: Bytes := "priority";
    forall i | 0 <= i < |w| ensures IsIdentStart(w[i]) && LowerChar(w[i]) == w[i] {}
    LettersAreSmooth("qci");
    LettersAreSmooth(w);
  }

  lemma BlockParts()
    ensures |NUMBER| == 6 && |PRIORITY| == 11 && |BLOCK| == 19
    ensures BLOCK[0] == '{' && BLOCK[18] == '}' && forall k | 0 < k < 18 :: !IsBracket(BLOCK[k])
    ensures NUMBER[4..5] == "7" && NUMBER[5] == ';' && PRIORITY[9..10] == "5" && PRIORITY[10] == ';'
  {
    hide NUMBER, PRIORITY;
    PairParts();
  }

  lemma PairParts()
    ensures |NUMBER| == 6 && |PRIORITY| == 11
    ensures NUMBER[4..5] == "7" && NUMBER[5] == ';' && PRIORITY[9..10] == "5" && PRIORITY[10] == ';'
    ensures (forall k | 0 <= k < 6 :: !IsBracket(NUMBER[k])) && forall k | 0 <= k < 11 :: !IsBracket(PRIORITY[k])
  {
    hide Field;
    SmoothNames();
    FieldParts("qci", "7");
    FieldParts("priority", "5");
  }

  lemma BlockLexed()
    ensures Lexed(BLOCK, [1, 7], BLOCK_WORDS)
  {
    hide Lexed, NUMBER, PRIORITY;
    PairParts();
    PairLexed();
    BracketLexed('{');
    BracketLexed('}');
    LexedConcat(PRIORITY, [0], ["priority"], "}", [], []);
    assert [0] + MovedBy([], 11) == [0] && ["priority"] + [] == ["priority"];
    LexedConcat(NUMBER, [0], ["qci"], PRIORITY + "}", [0], ["priority"]);
    assert [0] + MovedBy([0], 6) == [0, 6] && ["qci"] + ["priority"] == BLOCK_WORDS;
    LexedConcat("{", [], [], NUMBER + (PRIORITY + "}"), [0, 6], BLOCK_WORDS);
    assert [] + MovedBy([0, 6], 1) == [1, 7] && [] + BLOCK_WORDS == BLOCK_WORDS;
  }

  lemma PairLexed()
    ensures Lexed(NUMBER, [0], ["qci"]) && Lexed(PRIORITY, [0], ["priority"])
  {
    hide Lexed, IsSmooth, Field;
    SmoothNames();
    FieldLexed("qci", "7");
    FieldLexed("priority", "5");
  }

  lemma FieldNames(g: string)
    requires g in QciFile.MANAGED
    ensures IsLowerName(g)
  {
    forall i | 0 <= i < |g| ensures IsIdent(g[i]) && LowerChar(g[i]) == g[i] {}
  }

  lemma ContainerNames(g: string)
    requires g in QciReady.CONTAINERS
    ensures IsLowerName(g)
  {
    forall i | 0 <= i < |g| ensures IsIdent(g[i]) && LowerChar(g[i]) == g[i] {}
  }

  lemma ProfileNames(g: string)
    requires g in QciReady.NAMES
    ensures IsLowerName(g)
  {
    hide IsLowerName, QciFile.MANAGED, QciReady.CONTAINERS;
    if g in QciFile.MANAGED {
      FieldNames(g);
    } else {
      ContainerNames(g);
    }
  }

  /** What is found in the block. */
  lemma BlockFinds(g: string, fold: bool)
    requires g in QciReady.NAMES
    ensures Assignment(BLOCK, g, 0, fold) ==
            if g == "qci" then Some(Span(1, 4, 4, 5)) else if g == "priority" then Some(Span(7, 15, 15, 16)) else None
  {
    hide BLOCK, Lexed, IsLowerName, Assignment, QciReady.NAMES;
    BlockLexed();
    WordFound(BLOCK, [1, 7], BLOCK_WORDS, 0, fold);
    WordFound(BLOCK, [1, 7], BLOCK_WORDS, 1, fold);
    if g !in BLOCK_WORDS {
      ProfileNames(g);
      NoOtherWord(BLOCK, [1, 7], BLOCK_WORDS, g, fold);
    }
  }

  lemma BlockValues()
    ensures |BLOCK| == 19 && ScalarText(BLOCK, 5) == Some("7") && ScalarText(BLOCK, 16) == Some("5")
    ensures ValueStop(BLOCK, 5) == 6 && !CommentAt(BLOCK, 5) && !CommentAt(BLOCK, 16)
  {
    hide NUMBER, PRIORITY;
    BlockParts();
    assert BLOCK[5..6] == NUMBER[4..5] && BLOCK[16..17] == PRIORITY[9..10];
    NumberHere(BLOCK, 5, "7");
    NumberHere(BLOCK, 16, "5");
  }

  lemma BlockLayout()
    ensures Layout(BLOCK, QciReady.NAMES)
  {
    hide BLOCK, Assignment, ScalarText, ValueStop, CommentAt, QciReady.NAMES;
    BlockValues();
    forall g | g in QciReady.NAMES ensures NotAComment(BLOCK, g) {
      BlockFinds(g, false);
    }
    forall a, b | a in QciReady.NAMES && b in QciReady.NAMES && a != b ensures SeparateKeys(BLOCK, a, b) {
      BlockFinds(a, false);
      BlockFinds(b, false);
    }
  }

  lemma BlockIsReady()
    ensures QciReady.Ready(BLOCK)
  {
    hide BLOCK, Assignment, ScalarText, Layout, Twins.IsBlock, QciReady.NAMES, QciFile.MANAGED, QciReady.CONTAINERS;
    BlockValues();
    BlockIsBlock();
    BlockLayout();
    NamesOfBlock();
    forall g | g in QciFile.MANAGED ensures QciPatch.PlainKey(BLOCK, g) {
      BlockFinds(g, true);
      BlockFinds(g, false);
    }
    forall g | g in QciReady.CONTAINERS ensures QciTheorem.BoundToBlock(BLOCK, g) {
      BlockFinds(g, false);
    }
  }

  lemma NamesOfBlock()
    ensures QciReady.NAMES == QciFile.MANAGED + QciReady.CONTAINERS && "qci" !in QciReady.CONTAINERS && "priority" !in QciReady.CONTAINERS
  {}

  lemma BlockIsBlock()
    ensures Twins.IsBlock(BLOCK)
  {
    hide BLOCK, BracketAt;
    BlockParts();
    BlockPlain();
    PlainOpen(BLOCK, 0);
    PlainOpen(BLOCK, 18);
  }

  lemma BlockPlain()
    ensures PlainText(BLOCK)
  {
    hide BLOCK, WordHere, Starts;
    BlockLexed();
  }

  /** The profile that the block holds. */
  const PROFILE: Profile := Profile(7, map f | f in QCI_FIELDS :: if f == "priority" then 5 else 0)

  lemma BlockProfile()
    ensures ProfileOf(BLOCK) == PROFILE
  {
    hide BLOCK, Assignment, ScalarText, QCI_FIELDS, ReadInt32, Unquote;
    BlockValues();
    FieldsAreNames();
    SmallNumbers();
    BlockFinds("qci", true);
    forall f | f in QCI_FIELDS ensures IntIn(BLOCK, f) == if f == "priority" then 5 else 0 {
      BlockFinds(f, true);
    }
  }

  lemma FieldsAreNames()
    ensures "qci" in QciReady.NAMES && "qci" !in QCI_FIELDS && forall f | f in QCI_FIELDS :: f in QciReady.NAMES
  {}

  lemma SmallNumbers()
    ensures ReadInt32(Unquote("7")) == 7 && ReadInt32(Unquote("5")) == 5 && FormatInt(7) == "7" && FormatInt(5) == "5" && FormatInt(8) == "8"
  {
    hide ReadInt32, Unquote;
    assert FormatInt(7) == "7" && FormatInt(5) == "5" && FormatInt(8) == "8";
    NumberUnquoted(7);
    NumberUnquoted(5);
    IntRoundTrip(7);
    IntRoundTrip(5);
  }

  lemma BlockNumber(q: int)
    ensures HasQci(BLOCK, q) <==> q == 7
  {
    hide BLOCK, Assignment, ScalarText, FormatInt, Trim;
    BlockValues();
    FieldsAreNames();
    SmallNumbers();
    BlockFinds("qci", false);
    TrimOfTrimmed("7");
    if FormatInt(q) == FormatInt(7) {
      FormatIsInjective(q, 7);
    }
  }

  // ----- the file around the block

  lemma RbParts()
    ensures |RB_TEXT| == 32 && RB_TEXT[..12] == "qci_config=(" && RB_TEXT[12..31] == BLOCK && RB_TEXT[31] == ')'
  {
    hide BLOCK;
    BlockParts();
  }

  /** The characters of the file. */
  lemma RbChars(n: nat)
    requires n < 32
    ensures |RB_TEXT| == 32 && IsPlain(RB_TEXT[n])
    ensures RB_TEXT[n] == '{' <==> n == 12
    ensures RB_TEXT[n] == '}' <==> n == 30
    ensures RB_TEXT[n] == '(' <==> n == 11
    ensures RB_TEXT[n] == ')' <==> n == 31
    ensures n < 12 ==> RB_TEXT[n] == "qci_config=("[n]
  {
    hide BLOCK, RB_TEXT;
    RbParts();
    BlockParts();
    BlockPlain();
    if n < 12 {
      assert RB_TEXT[..12][n] == RB_TEXT[n];
    } else if n < 31 {
      assert RB_TEXT[12..31][n - 12] == RB_TEXT[n];
    }
  }

  lemma RbPlain()
    ensures |RB_TEXT| == 32 && PlainText(RB_TEXT)
  {
    hide RB_TEXT, IsPlain;
    RbChars(0);
    forall n | 0 <= n < 32 ensures IsPlain(RB_TEXT[n]) {
      RbChars(n);
    }
  }

  lemma RbAnchor(fold: bool)
    ensures Assignment(RB_TEXT, "qci_config", 0, fold) == Some(Span(0, 10, 10, 11))
  {
    hide RB_TEXT, PlainText, Assignment, AssignAt, SpanAt;
    RbPlain();
    forall n: nat | n < 12 ensures RB_TEXT[n] == "qci_config=("[n] {
      RbChars(n);
    }
    assert RB_TEXT[0..10] == "qci_config";
    assert WordHere(RB_TEXT, 0, "qci_config");
    AssignedHere(RB_TEXT, 0, "qci_config", "qci_config", fold);
    AssignmentIsUnique(RB_TEXT, "qci_config", 0, fold, 0);
    WordSpan(RB_TEXT, 0, "qci_config");
  }

  lemma RbSection()
    ensures Section(RB_TEXT) == Some(Block(11, 32)) && OneSection(RB_TEXT) && Candidates(RB_TEXT) == [Block(12, 31)]
  {
    hide RB_TEXT, PlainText, Assignment, MatchingClose, TopBlocks;
    RbAnchor(true);
    RbAnchor(false);
    RbPlain();
    forall n: nat | n < 32
      ensures (RB_TEXT[n] == '{' <==> n == 12) && (RB_TEXT[n] == '}' <==> n == 30) && (RB_TEXT[n] == '(' <==> n == 11) && (RB_TEXT[n] == ')' <==> n == 31)
    {
      RbChars(n);
    }
    PairCloses(RB_TEXT, 11, 31, '(', ')');
    OneBlock(RB_TEXT, 11, 12, 30);
    SpaceIsSkipped(RB_TEXT, "qci_config", true, Span(0, 10, 10, 11));
  }

  lemma RbObjects()
    ensures Section(RB_TEXT).Some? && Objects(RB_TEXT) == [BLOCK]
  {
    hide RB_TEXT, BLOCK, PlainText, Section, OneSection, Candidates, TopBlocks;
    RbSection();
    RbParts();
    RbPlain();
    var t := RB_TEXT[11..32];
    forall n: nat | n < 21 ensures IsPlain(t[n]) && (t[n] == '{' <==> n == 1) && (t[n] == '}' <==> n == 19) {
      RbChars(n + 11);
    }
    assert PlainText(t) by { AllPlain(t); }
    OneBlock(t, 0, 1, 19);
    assert t[1..20] == RB_TEXT[12..31];
    assert SliceAt(t, Block(1, 20)) == BLOCK;
  }

  lemma AllPlain(t: Bytes)
    requires forall n: nat | n < |t| :: IsPlain(t[n])
    ensures PlainText(t)
  {}

  /** The file is ready for edits, holds profile 7 and no other, and reads as that profile. */
  lemma RbIsTame()
    ensures Tame(RB_TEXT) && ReadProfiles(RB_TEXT) == Some([PROFILE]) && forall q: int :: Numbered(RB_TEXT, q) <==> q == 7
  {
    hide RB_TEXT, BLOCK, Section, QciReady.Ready, Objects, Candidates, HasQci, ProfileOf, PROFILE, OneSection;
    RbSection();
    RbParts();
    RbObjects();
    BlockIsReady();
    BlockProfile();
    ReadsObjects(RB_TEXT);
    ProfileIsNumbered();
    assert ProfilesOf([BLOCK]) == [PROFILE];
    assert Kept([PROFILE]) == [PROFILE];
    forall q: int ensures FirstWith(RB_TEXT, Candidates(RB_TEXT), q) == if q == 7 then Some(0) else None {
      BlockNumber(q);
      assert SliceAt(RB_TEXT, Block(12, 31)) == BLOCK;
    }
  }

  lemma ProfileIsNumbered()
    ensures PROFILE.qci == 7 && PROFILE.fields.Keys == QCI_FIELDS && forall f | f in PROFILE.fields :: IsInt32(PROFILE.fields[f])
  {}
}
