/**
 Patching one assignment of enb.conf: what the reader sees afterwards, and what patching again does.
 */
module IniTheorem {
  import opened Lexer
  import opened Text
  import opened Ini
  import opened IniLines
  import opened IniValues
  import opened IniPlaces
  import opened IniWriting

  // ----- the reader's fold

  lemma {:induction false} ReadConcat(st: Readings, a: seq<Bytes>, b: seq<Bytes>)
    ensures ReadLines(st, a + b) == ReadLines(ReadLines(st, a), b)
    decreases |a|
  {
    hide ItemOf, ScanLine;
    if a == [] {
      assert a + b == b;
    } else {
      assert (a + b)[0] == a[0] && (a + b)[1..] == a[1..] + b;
      ReadConcat(Take(st, ItemOf(ScanLine(a[0]))), a[1..], b);
    }
  }

  /** Renderer and reader see the same header on the line, or none. */
  predicate SameHeader(line: Bytes) {
    HeaderName(line) == match ItemOf(ScanLine(line)) case Header(name) => Some(name) case _ => None
  }

  ghost predicate SameHeaders(ls: seq<Bytes>) {
    forall i | 0 <= i < |ls| :: SameHeader(ls[i])
  }

  lemma {:induction false} SectionRead(ls: seq<Bytes>, i: nat)
    requires i <= |ls| && SameHeaders(ls)
    ensures ReadLines(START, ls[..i]).section == SectionAt(ls, i)
    decreases i
  {
    hide ItemOf, ScanLine, HeaderName;
    if i > 0 {
      SectionRead(ls, i - 1);
      assert ls[..i] == ls[..i - 1] + [ls[i - 1]];
      ReadConcat(START, ls[..i - 1], [ls[i - 1]]);
      assert SameHeader(ls[i - 1]);
      assert ReadLines(ReadLines(START, ls[..i - 1]), [ls[i - 1]]) == Take(ReadLines(START, ls[..i - 1]), ItemOf(ScanLine(ls[i - 1])));
    }
  }

  function Set(st: Readings, target: Bytes, key: Bytes, value: Bytes): Readings {
    st.(values := st.values[(target, key) := value])
  }

  lemma ReaderAssigns(line: Bytes, key: Bytes)
    requires ItemOf(ScanLine(line)).Entry? && ItemOf(ScanLine(line)).key == Lower(key)
    ensures HasKey(line, key)
  {
    hide ItemOf, Lower, HasKey, KeyStands, ScanLine, Body;
    var a, w, q := EntryStands(ScanLine(line));
    StandsInLine(line, a, w, q);
    StandsHasKey(line, a, w, q, key);
  }

  /** Lines that do not assign the key leave its new value alone. */
  lemma {:induction false} LaterLines(ls: seq<Bytes>, i: nat, st: Readings, target: Bytes, key: Bytes, value: Bytes)
    requires i <= |ls| && SameHeaders(ls) && st.section == SectionAt(ls, i)
    requires forall j: nat | i <= j :: !Assigns(ls, j, target, key)
    ensures ReadLines(Set(st, target, Lower(key), value), ls[i..]) == Set(ReadLines(st, ls[i..]), target, Lower(key), value)
    decreases |ls| - i
  {
    hide ItemOf, ScanLine, HasKey, HeaderName, Lower;
    if i < |ls| {
      var item := ItemOf(ScanLine(ls[i]));
      assert SameHeader(ls[i]) && !Assigns(ls, i, target, key);
      if item.Entry? && item.key == Lower(key) {
        ReaderAssigns(ls[i], key);
      }
      var st' := Take(st, item);
      TakeSet(st, item, target, Lower(key), value);
      LaterLines(ls, i + 1, st', target, key, value);
      assert ls[i..][0] == ls[i] && ls[i..][1..] == ls[i + 1..];
    }
  }

  lemma TakeSet(st: Readings, item: Item, target: Bytes, k: Bytes, value: Bytes)
    requires !(item.Entry? && item.key == k && st.section == target)
    ensures Take(Set(st, target, k, value), item) == Set(Take(st, item), target, k, value)
  {}

  /** The line that is replaced held a reading of the key, or none. */
  lemma ReplacedItem(line: Bytes, key: Bytes)
    requires IsName(key) && HasKey(line, key)
    ensures var item := ItemOf(ScanLine(line)); item.Nothing? || (item.Entry? && item.key == Lower(key))
  {
    hide ItemOf, Lower, HasKey, KeyStands, IsName, ScanLine, Body;
    var a, w, q := HasKeyStands(line, key);
    StandsInLine(line, a, w, q);
    StandsItem(ScanLine(line), a, w, q);
  }

  lemma ReadAround(st: Readings, a: seq<Bytes>, line: Bytes, b: seq<Bytes>)
    ensures ReadLines(st, a + [line] + b) == ReadLines(Take(ReadLines(st, a), ItemOf(ScanLine(line))), b)
  {
    hide ItemOf, ScanLine;
    assert a + [line] + b == a + ([line] + b);
    ReadConcat(st, a, [line] + b);
    assert ([line] + b)[1..] == b;
  }

  /** Replacing the line of the key. */
  lemma ReplaceReads(ls: seq<Bytes>, i: nat, target: Bytes, key: Bytes, value: Bytes)
    requires AllPieces(ls) && SameHeaders(ls) && KeyOnce(ls, target, key) && IsName(key) && SafeIni(value)
    requires Assigns(ls, i, target, key)
    ensures ReadLines(START, ls[i := ReplaceLine(ls[i], key, value)]) == Set(ReadLines(START, ls), target, Lower(key), value)
  {
    hide ItemOf, ScanLine, HasKey, IsLine, IsPiece, Lower, ReplaceLine, IsName, SafeIni, ReadLines, SameHeaders, Take, Set, HeaderName, Assigns, KeyOnce, AllPieces, SectionAt;
    AssignsAt(ls, i, target, key);
    var l, a, b := ReplaceLine(ls[i], key, value), ls[..i], ls[i + 1..];
    PieceAt(ls, i);
    ReplacedLine(ls[i], key, value);
    KeyLine(ls[i], key);
    SectionRead(ls, i);
    Around(ls, i, l);
    ReadAround(START, a, l, b);
    ReadAround(START, a, ls[i], b);
    var st := ReadLines(START, a);
    TakeReplaced(st, ls[i], target, key, value);
    NextSection(ls, i);
    NoneAfter(ls, i, target, key);
    LaterLines(ls, i + 1, Take(st, ItemOf(ScanLine(ls[i]))), target, key, value);
  }

  lemma PieceAt(ls: seq<Bytes>, i: nat)
    requires AllPieces(ls) && i < |ls|
    ensures IsPiece(ls[i])
  {}

  lemma NextSection(ls: seq<Bytes>, i: nat)
    requires i < |ls| && HeaderName(ls[i]) == None
    ensures SectionAt(ls, i + 1) == SectionAt(ls, i)
  {}

  lemma Around(ls: seq<Bytes>, i: nat, l: Bytes)
    requires i < |ls|
    ensures ls == ls[..i] + [ls[i]] + ls[i + 1..] && ls[i := l] == ls[..i] + [l] + ls[i + 1..]
  {}

  lemma NoneAfter(ls: seq<Bytes>, i: nat, target: Bytes, key: Bytes)
    requires KeyOnce(ls, target, key) && Assigns(ls, i, target, key)
    ensures forall j: nat | i + 1 <= j :: !Assigns(ls, j, target, key)
  {}

  lemma TakeReplaced(st: Readings, line: Bytes, target: Bytes, key: Bytes, value: Bytes)
    requires IsName(key) && HasKey(line, key) && st.section == target
    ensures var st' := Take(st, ItemOf(ScanLine(line)));
            st'.section == target && Take(st, Entry(Lower(key), value)) == Set(st', target, Lower(key), value)
  {
    hide ItemOf, ScanLine, HasKey, Lower, IsName;
    ReplacedItem(line, key);
  }

  /** Inserting a line for an absent key. */
  lemma InsertReads(ls: seq<Bytes>, i: nat, target: Bytes, key: Bytes, value: Bytes)
    requires SameHeaders(ls) && IsName(key) && SafeIni(value)
    requires i <= |ls| && SectionAt(ls, i) == target && forall j: nat :: !Assigns(ls, j, target, key)
    ensures ReadLines(START, InsertLine(ls, i, NewLine(key, value))) == Set(ReadLines(START, ls), target, Lower(key), value)
  {
    hide ItemOf, ScanLine, HasKey, HeaderName, IsLine, Lower, NewLine, IsName, SafeIni;
    InsertedLine(key, value);
    SectionRead(ls, i);
    var a, b := ls[..i], ls[i..];
    assert ls == a + b;
    ReadAround(START, a, NewLine(key, value), b);
    ReadConcat(START, a, b);
    LaterLines(ls, i, ReadLines(START, a), target, key, value);
  }

  /** Appending a new section with the key. */
  lemma AppendReads(ls: seq<Bytes>, section: Bytes, key: Bytes, value: Bytes)
    requires IsName(section) && IsName(key) && SafeIni(value)
    ensures ReadLines(START, ls + Appended(section, key, value)).values == Set(ReadLines(START, ls), Lower(section), Lower(key), value).values
  {
    hide ItemOf, ScanLine, IsLine, Lower, NewLine, IsName, SafeIni, HeaderName, HasKey;
    InsertedLine(key, value);
    HeaderLine(section);
    EmptyLine();
    var st, more := ReadLines(START, ls), Appended(section, key, value);
    ReadConcat(START, ls, more);
    assert more[1..] == ["[" + section + "]\n", NewLine(key, value)];
    assert more[1..][1..] == [NewLine(key, value)];
    ThreeLines(st, more[0], more[1], more[2]);
  }

  lemma OneLine(st: Readings, a: Bytes)
    ensures ReadLines(st, [a]) == Take(st, ItemOf(ScanLine(a)))
  {
    hide ItemOf, ScanLine;
    assert [a][1..] == [];
  }

  lemma ThreeLines(st: Readings, a: Bytes, b: Bytes, c: Bytes)
    ensures ReadLines(st, [a, b, c]) == Take(Take(Take(st, ItemOf(ScanLine(a))), ItemOf(ScanLine(b))), ItemOf(ScanLine(c)))
  {
    hide ItemOf, ScanLine;
    OneLine(st, a);
    OneLine(Take(st, ItemOf(ScanLine(a))), b);
    OneLine(Take(Take(st, ItemOf(ScanLine(a))), ItemOf(ScanLine(b))), c);
    assert [a, b, c] == [a] + ([b] + [c]);
    ReadConcat(st, [a], [b] + [c]);
    ReadConcat(Take(st, ItemOf(ScanLine(a))), [b], [c]);
  }

  // ----- the text

  /** A text in which renderer and reader agree on the headers, and the key has at most one place. */
  ghost predicate Tidy(d: Bytes, section: Bytes, key: Bytes) {
    && SameHeaders(SplitLines(d))
    && SectionOnce(SplitLines(d), Lower(section))
    && KeyOnce(SplitLines(d), Lower(section), key)
  }

  lemma EndsWithLine(ls: seq<Bytes>)
    requires AllLines(ls)
    ensures Terminated(ls) == ls
  {
    assert ls != [] ==> IsLine(ls[|ls| - 1]);
  }

  /** A missing line feed at the end is added before a section is appended; the reader does not see it. */
  lemma TerminatedReads(ls: seq<Bytes>)
    requires AllPieces(ls)
    ensures AllLines(Terminated(ls)) && ReadLines(START, Terminated(ls)) == ReadLines(START, ls)
  {
    hide ItemOf, ReadLines, ScanLine, IsLine, IsPiece;
    if ls != [] && !IsLine(ls[|ls| - 1]) {
      var n := |ls| - 1;
      var l := ls[n];
      LastPiece(ls);
      FedLine(l);
      assert l[|l| - 1] in l;
      assert Terminated(ls) == ls[..n] + [l + "\n"] && ls == ls[..n] + [l];
      LastLine(ls[..n], l + "\n");
      LastLine(ls[..n], l);
    } else {
      EndsWithLine(ls);
    }
  }

  lemma FedLine(l: Bytes)
    requires l != [] && '\n' !in l
    ensures IsLine(l + "\n") && ScanLine(l + "\n") == ScanLine(l)
  {
    var m := l + "\n";
    forall i | 0 <= i < |m| - 1 ensures m[i] != '\n' {
      assert m[i] == l[i] && l[i] in l;
    }
    assert m[..|m| - 1] == l;
    assert l[|l| - 1] in l;
  }

  /** The patched lines are lines again, unless a line is put behind a last line without line feed. */
  lemma PatchGivesPieces(ls: seq<Bytes>, section: Bytes, key: Bytes, value: Bytes)
    requires AllPieces(ls) && IsName(section) && IsName(key) && SafeIni(value)
    requires AllLines(ls) || Find(ls, section, key) != Before(|ls|)
    requires Find(ls, section, key).Before? ==> Find(ls, section, key).i <= |ls|
    ensures AllPieces(PatchLines(ls, section, key, value))
    ensures AllLines(ls) ==> AllLines(PatchLines(ls, section, key, value))
  {
    hide IsLine, Find, ReplaceLine, NewLine, IsName, SafeIni, ItemOf, HasKey, HeaderName, ScanLine, Lower, ReadLines, Terminated;
    InsertedLine(key, value);
    HeaderLine(section);
    EmptyLine();
    match Find(ls, section, key)
    case At(i) =>
      if i < |ls| {
        assert IsPiece(ls[i]);
        ReplacedLine(ls[i], key, value);
      }
    case Before(i) =>
    case Nowhere =>
      TerminatedReads(ls);
  }

  lemma PatchSplits(d: Bytes, section: Bytes, key: Bytes, value: Bytes)
    requires EndsLine(d) && IsName(section) && IsName(key) && SafeIni(value)
    requires SectionOnce(SplitLines(d), Lower(section))
    ensures SplitLines(PatchIni(d, section, key, value)) == PatchLines(SplitLines(d), section, key, value)
    ensures AllLines(PatchLines(SplitLines(d), section, key, value))
  {
    hide IsLine, IsPiece, SplitLines, Join, IsName, SafeIni, PatchLines, Find;
    SplitGivesLines(d);
    LinesArePieces(SplitLines(d));
    FindPlaces(SplitLines(d), section, key);
    PatchGivesPieces(SplitLines(d), section, key, value);
    SplitOfJoin(PatchLines(SplitLines(d), section, key, value));
  }

  // ----- a last line without line feed

  /** A new line keeps apart from the text: it has a line feed, or the line goes elsewhere, or its last line is blank. */
  predicate KeepsApart(d: Bytes, section: Bytes, key: Bytes) {
    var ls := SplitLines(d);
    EndsLine(d) || Find(ls, section, key) != Before(|ls|) || ls == [] || Trim(ls[|ls| - 1]) == []
  }

  /** What a last line and a new line make when they are glued together. */
  function Glued(l: Bytes, key: Bytes, value: Bytes): Bytes {
    Prefix(l, key) + value
  }

  lemma GluedLine(l: Bytes, key: Bytes, value: Bytes)
    requires l != [] && '\n' !in l && IsName(key) && SafeIni(value)
    ensures l + NewLine(key, value) == Glued(l, key, value) + "\n"
    ensures IsLine(l + NewLine(key, value)) && ScanLine(l + NewLine(key, value)) == Glued(l, key, value)
  {
    hide ModeAt, CommentAt, ScanLine, IsLine;
    var g := Glued(l, key, value);
    assert l + NewLine(key, value) == g + "\n";
    forall c | c in key ensures c != '\n' {
      var i :| 0 <= i < |key| && key[i] == c;
      assert IsIdent(key[i]);
    }
    assert g == l + key + " = " + value && '\n' !in g;
    assert g[|g| - 1] == if value == [] then ' ' else value[|value| - 1];
    LineOf(g, "\n");
  }

  /** After visible text, a glued assignment is not read. */
  lemma GluedIsNotRead(l: Bytes, key: Bytes, value: Bytes)
    requires l != [] && '\n' !in l && Trim(l) != [] && IsName(key) && !HasKey(l, key)
    ensures var item := ItemOf(Glued(l, key, value)); !(item.Entry? && item.key == Lower(key))
  {
    hide ItemOf, Lower, HasKey, IsName, Trim;
    var g := Glued(l, key, value);
    var item := ItemOf(g);
    if item.Entry? && item.key == Lower(key) {
      var a, w, q := EntryStands(g);
      GluedWord(l, key, value, a, w, q);
      StandsLonger(l, g, a, w, q);
      NoFeedBody(l);
      StandsHasKey(l, a, w, q, key);
    }
  }

  lemma NoFeedBody(l: Bytes)
    requires '\n' !in l
    ensures Body(l) == l
  {
    assert l != [] ==> l[|l| - 1] in l;
  }

  /** A name as long as the key that stands in the glued text stands in the last line. */
  lemma GluedWord(l: Bytes, key: Bytes, value: Bytes, a: nat, w: Bytes, q: nat)
    requires Trim(l) != [] && IsName(key) && KeyStands(Glued(l, key, value), a, w, q) && Lower(w) == Lower(key)
    ensures q < |l| && l <= Glued(l, key, value)
  {
    hide Lower, Trim, IsName;
    var g, n := Glued(l, key, value), |l|;
    SameLength(w, key);
    var b, e := TrimShape(l);
    GluedChars(l, key, value);
    NameIsNotEmpty(w);
    KeyChars(g, a, w, q, a);
    assert g[b] == l[b] && !IsBlank(g[b]);
    assert a <= b < n;
    NameIsNotEmpty(key);
    var k := if a + |w| > n then a + |w| else n;
    assert g[k] == key[k - n] && IsIdent(g[k]) && !IsBlank(g[k]);
  }

  lemma SameLength(w: Bytes, key: Bytes)
    requires Lower(w) == Lower(key)
    ensures |w| == |key|
  {
    assert |Lower(w)| == |Lower(key)|;
  }

  lemma GluedChars(l: Bytes, key: Bytes, value: Bytes)
    requires IsName(key)
    ensures var g, n := Glued(l, key, value), |l|;
            l <= g && n + |key| < |g| && forall k | n <= k < n + |key| :: g[k] == key[k - n] && IsIdent(g[k]) && !IsBlank(g[k])
  {
    var g, n := Glued(l, key, value), |l|;
    assert g == l + (key + (" = " + value));
    forall k | n <= k < n + |key| ensures g[k] == key[k - n] && IsIdent(g[k]) && !IsBlank(g[k]) {
      assert IsIdent(key[k - n]);
    }
  }

  /** After blanks, a glued assignment is read. */
  lemma BlankIsRead(l: Bytes, key: Bytes, value: Bytes)
    requires l != [] && '\n' !in l && Trim(l) == [] && IsName(key) && SafeIni(value)
    ensures ItemOf(Glued(l, key, value)) == Entry(Lower(key), value)
    ensures ItemOf(ScanLine(l)) == Nothing
  {
    hide Trim, IsName, SafeIni, ItemOf, Lower, Prefix;
    var a, b := TrimShape(l);
    forall i | 0 <= i < |l| ensures IsBlank(l[i]) && l[i] != '\n' {
      assert l[i] in l;
    }
    WrittenItem(l, key, value, []);
    assert Written(l, key, value, []) == Glued(l, key, value);
    BlankLineItem(ScanLine(l));
  }

  lemma BlankLineItem(s: Bytes)
    requires forall i | 0 <= i < |s| :: IsBlank(s[i])
    ensures ItemOf(s) == Nothing
  {
    hide Trim;
    var t := s[..CommentStart(s, 0)];
    var a, b := TrimShape(t);
    assert forall i | 0 <= i < |t| :: t[i] == s[i];
    assert Trim(t) == [];
  }

  /** Without an assignment to the key, the reader has no value for it. */
  lemma {:induction false} NotReadYet(ls: seq<Bytes>, i: nat, target: Bytes, key: Bytes)
    requires i <= |ls| && SameHeaders(ls) && forall j: nat | j < i :: !Assigns(ls, j, target, key)
    ensures (target, Lower(key)) !in ReadLines(START, ls[..i]).values
    decreases i
  {
    hide ItemOf, ScanLine, HeaderName, HasKey, Lower, SectionAt, SameHeader;
    if i > 0 {
      NotReadYet(ls, i - 1, target, key);
      SectionRead(ls, i - 1);
      assert ls[..i] == ls[..i - 1] + [ls[i - 1]] + [];
      ReadAround(START, ls[..i - 1], ls[i - 1], []);
      var item := ItemOf(ScanLine(ls[i - 1]));
      if item.Entry? && item.key == Lower(key) {
        ReaderAssigns(ls[i - 1], key);
      }
      assert !Assigns(ls, i - 1, target, key);
    }
  }

  /** A line behind a last line without line feed is read if and only if that line is blank. */
  lemma GluedReads(ls: seq<Bytes>, target: Bytes, key: Bytes, value: Bytes)
    requires AllPieces(ls) && ls != [] && !IsLine(ls[|ls| - 1]) && SameHeaders(ls) && IsName(key) && SafeIni(value)
    requires SectionAt(ls, |ls|) == target && forall j: nat :: !Assigns(ls, j, target, key)
    ensures var l := ls[|ls| - 1];
            ReadLines(START, ls[..|ls| - 1] + [l + NewLine(key, value)]).values == Set(ReadLines(START, ls), target, Lower(key), value).values
            <==> Trim(l) == []
  {
    hide ItemOf, ScanLine, HasKey, Lower, NewLine, IsName, SafeIni, HeaderName, ReadLines, Trim, Glued, SameHeaders, Assigns, SectionAt, IsLine, Take, Set, AllPieces;
    var n, l := |ls| - 1, ls[|ls| - 1];
    LastPiece(ls);
    GluedLine(l, key, value);
    assert ls == ls[..n] + [l];
    LastLine(ls[..n], l);
    LastLine(ls[..n], l + NewLine(key, value));
    SectionRead(ls, n);
    if Trim(l) == [] {
      BlankIsNoHeader(l);
      NextSection(ls, n);
      BlankIsTaken(ReadLines(START, ls[..n]), l, target, key, value);
    } else {
      NotReadYet(ls, n, target, key);
      LastHasNoKey(ls, target, key);
      VisibleIsNotTaken(ReadLines(START, ls[..n]), l, target, key, value);
    }
  }

  lemma LastPiece(ls: seq<Bytes>)
    requires AllPieces(ls) && ls != [] && !IsLine(ls[|ls| - 1])
    ensures ls[|ls| - 1] != [] && '\n' !in ls[|ls| - 1]
  {
    assert IsPiece(ls[|ls| - 1]);
  }

  lemma BlankIsTaken(st: Readings, l: Bytes, target: Bytes, key: Bytes, value: Bytes)
    requires l != [] && '\n' !in l && Trim(l) == [] && IsName(key) && SafeIni(value) && st.section == target
    ensures Take(st, ItemOf(Glued(l, key, value))) == Set(Take(st, ItemOf(ScanLine(l))), target, Lower(key), value)
  {
    hide ItemOf, ScanLine, Lower, IsName, SafeIni, Trim, Glued;
    BlankIsRead(l, key, value);
  }

  lemma VisibleIsNotTaken(st: Readings, l: Bytes, target: Bytes, key: Bytes, value: Bytes)
    requires l != [] && '\n' !in l && Trim(l) != [] && IsName(key) && !HasKey(l, key) && (target, Lower(key)) !in st.values
    ensures Take(st, ItemOf(Glued(l, key, value))).values != Set(Take(st, ItemOf(ScanLine(l))), target, Lower(key), value).values
  {
    hide ItemOf, ScanLine, Lower, IsName, Trim, Glued, HasKey;
    GluedIsNotRead(l, key, value);
    assert (target, Lower(key)) !in Take(st, ItemOf(Glued(l, key, value))).values;
  }

  lemma LastLine(before: seq<Bytes>, l: Bytes)
    ensures ReadLines(START, before + [l]) == Take(ReadLines(START, before), ItemOf(ScanLine(l)))
  {
    hide ItemOf, ScanLine;
    ReadConcat(START, before, [l]);
    OneLine(ReadLines(START, before), l);
  }

  lemma BlankIsNoHeader(l: Bytes)
    requires '\n' !in l && Trim(l) == []
    ensures HeaderName(l) == None
  {
    NoFeedBody(l);
  }

  lemma LastHasNoKey(ls: seq<Bytes>, target: Bytes, key: Bytes)
    requires ls != [] && SectionAt(ls, |ls|) == target && IsName(key) && forall j: nat :: !Assigns(ls, j, target, key)
    ensures !HasKey(ls[|ls| - 1], key)
  {
    hide HasKey, HeaderName, IsName;
    var n := |ls| - 1;
    assert !Assigns(ls, n, target, key);
    if HasKey(ls[n], key) {
      KeyLine(ls[n], key);
    }
  }

  /** The text of the glued lines. */
  lemma GluedSplits(ls: seq<Bytes>, key: Bytes, value: Bytes)
    requires AllPieces(ls) && ls != [] && !IsLine(ls[|ls| - 1]) && IsName(key) && SafeIni(value)
    ensures var l := ls[|ls| - 1];
            SplitLines(Join(InsertLine(ls, |ls|, NewLine(key, value)))) == ls[..|ls| - 1] + [l + NewLine(key, value)]
  {
    hide IsName, SafeIni, NewLine, SplitLines, Join, IsLine, Glued;
    var n, l, new' := |ls| - 1, ls[|ls| - 1], NewLine(key, value);
    assert IsPiece(l);
    GluedLine(l, key, value);
    assert InsertLine(ls, |ls|, new') == ls[..n] + [l, new'];
    JoinConcat(ls[..n], [l, new']);
    JoinConcat(ls[..n], [l + new']);
    JoinTwo(l, new');
    JoinOne(l + new');
    SplitOfJoin(ls[..n] + [l + new']);
  }

  /**
   Patch round trip for enb.conf. For every tidy text and safe value, after the patch the reader
   returns the new value for that section and key, and what it returned before for every other
   section and key, whether the line was replaced, inserted, or appended with its section, if and
   only if a new line is not glued to visible text at the end of the file.
   */
  lemma IniRoundTrip(d: Bytes, section: Bytes, key: Bytes, value: Bytes)
    requires Tidy(d, section, key) && IsName(section) && IsName(key) && SafeIni(value)
    ensures ReadIni(PatchIni(d, section, key, value)) == ReadIni(d)[(Lower(section), Lower(key)) := value]
            <==> KeepsApart(d, section, key)
  {
    hide Find, ReplaceLine, NewLine, SplitLines, ReadLines, IsName, SafeIni, HasKey, Lower, InsertLine, SectionAt, Terminated, Join, IsLine, IsPiece, SameHeaders, SectionOnce, KeyOnce, Trim;
    var ls := SplitLines(d);
    SplitGivesPieces(d);
    FindPlaces(ls, section, key);
    if EndsLine(d) {
      SplitGivesLines(d);
    }
    if !EndsLine(d) && Find(ls, section, key) == Before(|ls|) {
      GluedSplits(ls, key, value);
      GluedReads(ls, Lower(section), key, value);
    } else {
      PatchGivesPieces(ls, section, key, value);
      SplitOfJoin(PatchLines(ls, section, key, value));
      PlacedReads(ls, section, key, value);
    }
  }

  /** On a text that ends in a line feed the round trip always holds. */
  lemma FinishedRoundTrip(d: Bytes, section: Bytes, key: Bytes, value: Bytes)
    requires EndsLine(d) && Tidy(d, section, key) && IsName(section) && IsName(key) && SafeIni(value)
    ensures ReadIni(PatchIni(d, section, key, value)) == ReadIni(d)[(Lower(section), Lower(key)) := value]
  {
    hide Tidy, IsName, SafeIni, PatchIni, ReadIni, Lower, SplitLines, Find, Trim;
    IniRoundTrip(d, section, key, value);
  }

  /** A line that is put among lines is read. */
  lemma PlacedReads(ls: seq<Bytes>, section: Bytes, key: Bytes, value: Bytes)
    requires AllPieces(ls) && SameHeaders(ls) && KeyOnce(ls, Lower(section), key) && IsName(section) && IsName(key) && SafeIni(value)
    requires Placed(ls, Lower(section), key, Find(ls, section, key))
    ensures ReadLines(START, PatchLines(ls, section, key, value)).values == Set(ReadLines(START, ls), Lower(section), Lower(key), value).values
  {
    hide Find, ReplaceLine, NewLine, ReadLines, IsName, SafeIni, HasKey, Lower, InsertLine, SectionAt, Terminated, SameHeaders, KeyOnce;
    match Find(ls, section, key)
    case At(i) => ReplaceReads(ls, i, Lower(section), key, value);
    case Before(i) => InsertReads(ls, i, Lower(section), key, value);
    case Nowhere =>
      TerminatedReads(ls);
      AppendReads(Terminated(ls), section, key, value);
  }
}
