/**
 Patches of enb.conf keep the text tidy, so that a whole batch gives every key its own value.
 */
module IniBatch {
  import opened Lexer
  import opened Text
  import opened Ini
  import opened IniLines
  import opened IniValues
  import opened IniPlaces
  import opened IniWriting
  import opened IniTheorem
  import opened IniAgain

  // ----- sections after a patch

  lemma {:induction false} SectionsKept(ls: seq<Bytes>, i: nat, l: Bytes, j: nat)
    requires i < |ls| && j <= |ls| && HeaderName(l) == None && HeaderName(ls[i]) == None
    ensures SectionAt(ls[i := l], j) == SectionAt(ls, j)
    decreases j
  {
    hide HeaderName;
    if j > 0 {
      SectionsKept(ls, i, l, j - 1);
    }
  }

  lemma {:induction false} SectionsShifted(ls: seq<Bytes>, i: nat, l: Bytes, j: nat)
    requires i <= j <= |ls| && HeaderName(l) == None
    ensures SectionAt(InsertLine(ls, i, l), j + 1) == SectionAt(ls, j)
    decreases j
  {
    hide HeaderName;
    var ls' := InsertLine(ls, i, l);
    if j == i {
      SameStart(ls, ls', i);
      assert ls'[i] == l;
    } else {
      SectionsShifted(ls, i, l, j - 1);
      assert ls'[j] == ls[j - 1];
    }
  }

  /** A line has one key, up to case. */
  lemma OneKey(line: Bytes, key: Bytes, other: Bytes)
    requires HasKey(line, key)
    ensures HasKey(line, other) <==> Lower(other) == Lower(key)
  {}

  lemma SameKeyAssigns(ls: seq<Bytes>, i: nat, target: Bytes, key: Bytes, other: Bytes)
    requires Lower(other) == Lower(key)
    ensures Assigns(ls, i, target, other) == Assigns(ls, i, target, key)
  {
    hide HeaderName;
  }

  /** The key of a section is assigned where it was, or on the new line for it. */
  ghost predicate Reflects(ls: seq<Bytes>, ls': seq<Bytes>, new': nat, from: nat, target: Bytes, key: Bytes, t: Bytes, k: Bytes) {
    forall j: nat | Assigns(ls', j, t, k) ::
      if j == new' then t == target && Lower(k) == Lower(key) else Assigns(ls, Back(from, j), t, k)
  }

  lemma ReplaceReflects(ls: seq<Bytes>, i: nat, target: Bytes, key: Bytes, l: Bytes, t: Bytes, k: Bytes)
    requires Assigns(ls, i, target, key) && IsName(key) && HasKey(l, key) && HeaderName(l) == None
    ensures Reflects(ls, ls[i := l], i, |ls|, target, key, t, k)
  {
    hide HeaderName, HasKey, SectionAt, Lower, Assigns;
    AssignsAt(ls, i, target, key);
    KeyLine(ls[i], key);
    var ls' := ls[i := l];
    forall j: nat | Assigns(ls', j, t, k)
      ensures if j == i then t == target && Lower(k) == Lower(key) else Assigns(ls, Back(|ls|, j), t, k)
    {
      ReplacedAssigns(ls, i, target, key, l, t, k, j);
    }
  }

  lemma ReplacedAssigns(ls: seq<Bytes>, i: nat, target: Bytes, key: Bytes, l: Bytes, t: Bytes, k: Bytes, j: nat)
    requires i < |ls| && SectionAt(ls, i) == target && HasKey(l, key) && HeaderName(l) == None && HeaderName(ls[i]) == None
    requires Assigns(ls[i := l], j, t, k)
    ensures j < |ls| && if j == i then t == target && Lower(k) == Lower(key) else Assigns(ls, j, t, k)
  {
    hide HeaderName, HasKey, SectionAt, Lower;
    SectionsKept(ls, i, l, j);
    if j == i {
      OneKey(l, key, k);
    }
  }

  lemma InsertReflects(ls: seq<Bytes>, i: nat, target: Bytes, key: Bytes, l: Bytes, t: Bytes, k: Bytes)
    requires i <= |ls| && SectionAt(ls, i) == target && HasKey(l, key) && HeaderName(l) == None
    ensures Reflects(ls, InsertLine(ls, i, l), i, i, target, key, t, k)
  {
    hide HeaderName, HasKey, SectionAt, Lower;
    var ls' := InsertLine(ls, i, l);
    forall j: nat | Assigns(ls', j, t, k)
      ensures if j == i then t == target && Lower(k) == Lower(key) else Assigns(ls, Back(i, j), t, k)
    {
      if j == i {
        SameStart(ls, ls', i);
        OneKey(l, key, k);
      } else if j < i {
        SameStart(ls, ls', j);
      } else {
        SectionsShifted(ls, i, l, j - 1);
        assert ls'[j] == ls[j - 1];
      }
    }
  }

  /** What is assigned once stays assigned once. */
  lemma OnceReflected(ls: seq<Bytes>, ls': seq<Bytes>, new': nat, from: nat, target: Bytes, key: Bytes, t: Bytes, k: Bytes)
    requires Reflects(ls, ls', new', from, target, key, t, k) && KeyOnce(ls, t, k) && (from == new' || from >= |ls'|)
    requires t == target && Lower(k) == Lower(key) ==> forall j: nat | j != new' && Assigns(ls', j, t, k) :: !Assigns(ls, Back(from, j), t, k)
    ensures KeyOnce(ls', t, k)
  {
    hide Lower, SectionAt, HasKey;
    forall a: nat, b: nat | a < b ensures !(Assigns(ls', a, t, k) && Assigns(ls', b, t, k)) {
      assert Assigns(ls', a, t, k) && Assigns(ls', b, t, k) && a != new' && b != new' ==> Back(from, a) < Back(from, b);
    }
  }

  lemma AppendReflects(ls: seq<Bytes>, section: Bytes, key: Bytes, value: Bytes, t: Bytes, k: Bytes)
    requires IsName(section) && IsName(key) && IsName(k) && SafeIni(value)
    ensures var ls' := ls + Appended(section, key, value);
            Reflects(ls, ls', |ls| + 2, |ls'|, Lower(section), key, t, k)
  {
    hide HeaderName, HasKey, Lower, IsName, SafeIni, NewLine, SectionAt, ItemOf, IsLine, ScanLine;
    var n, ls' := |ls|, ls + Appended(section, key, value);
    InsertedLine(key, value);
    HeaderLine(section);
    NoKeyOnEmpty(k);
    assert ls'[n] == "\n" && ls'[n + 1] == "[" + section + "]\n" && ls'[n + 2] == NewLine(key, value);
    AfterHeader(ls', n + 1);
    forall j: nat | Assigns(ls', j, t, k)
      ensures if j == n + 2 then t == Lower(section) && Lower(k) == Lower(key) else Assigns(ls, Back(|ls'|, j), t, k)
    {
      if j < n {
        SameStart(ls, ls', j);
      } else if j == n + 1 {
        KeyLine(ls'[j], k);
      } else if j == n + 2 {
        OneKey(ls'[j], key, k);
      }
    }
  }

  lemma NoKeyOnEmpty(k: Bytes)
    ensures !HasKey("\n", k)
  {
    TrimOfTrimmed([]);
  }

  // ----- a tidy text for all managed keys

  /** Sections by their lower-case name, each with one of its keys. */
  type Spot = (Bytes, Bytes)

  ghost predicate NeatLines(ls: seq<Bytes>, managed: set<Spot>) {
    SameHeaders(ls) && forall p | p in managed :: SectionOnce(ls, p.0) && KeyOnce(ls, p.0, p.1)
  }

  ghost predicate Neat(d: Bytes, managed: set<Spot>) {
    EndsLine(d) && NeatLines(SplitLines(d), managed)
  }

  lemma NeatIsTidy(d: Bytes, managed: set<Spot>, section: Bytes, key: Bytes)
    requires Neat(d, managed) && (Lower(section), key) in managed
    ensures EndsLine(d) && Tidy(d, section, key)
  {
    hide SectionOnce, KeyOnce, SameHeaders, Lower, SplitLines;
  }

  lemma SameHeaderOf(l: Bytes, key: Bytes, value: Bytes)
    requires HeaderName(l) == None && ItemOf(ScanLine(l)) == Entry(Lower(key), value)
    ensures SameHeader(l)
  {}

  lemma ReplacementFacts(ls: seq<Bytes>, i: nat, target: Bytes, key: Bytes, value: Bytes)
    requires AllLines(ls) && Placed(ls, target, key, At(i)) && IsName(key) && SafeIni(value)
    ensures i < |ls| && Assigns(ls, i, target, key)
    ensures var l := ReplaceLine(ls[i], key, value); HasKey(l, key) && HeaderName(l) == None && SameHeader(l)
  {
    hide HeaderName, HasKey, SectionAt, Lower, ReplaceLine, SafeIni, IsName, ItemOf, ScanLine, IsLine, SameHeader;
    assert IsLine(ls[i]);
    ReplacedLine(ls[i], key, value);
    SameHeaderOf(ReplaceLine(ls[i], key, value), key, value);
  }

  lemma HeadersKept(ls: seq<Bytes>, i: nat, l: Bytes)
    requires SameHeaders(ls) && i < |ls| && SameHeader(l)
    ensures SameHeaders(ls[i := l])
  {
    hide SameHeader;
  }

  lemma ReplaceIsNeat(ls: seq<Bytes>, i: nat, target: Bytes, key: Bytes, value: Bytes, managed: set<Spot>)
    requires NeatLines(ls, managed) && AllLines(ls) && Placed(ls, target, key, At(i)) && IsName(key) && SafeIni(value) && (target, key) in managed
    ensures NeatLines(ls[i := ReplaceLine(ls[i], key, value)], managed)
  {
    hide HeaderName, HasKey, ReplaceLine, SafeIni, IsName, SectionOnce, KeyOnce, SameHeaders, Assigns, Placed, AllLines;
    ReplacementFacts(ls, i, target, key, value);
    var l := ReplaceLine(ls[i], key, value);
    var ls' := ls[i := l];
    HeadersKept(ls, i, l);
    forall p | p in managed ensures SectionOnce(ls', p.0) && KeyOnce(ls', p.0, p.1) {
      ReplaceKeepsPlace(ls, i, target, key, l, p.0, p.1);
    }
  }

  lemma ReplaceKeepsPlace(ls: seq<Bytes>, i: nat, target: Bytes, key: Bytes, l: Bytes, t: Bytes, k: Bytes)
    requires Assigns(ls, i, target, key) && IsName(key) && HasKey(l, key) && HeaderName(l) == None
    requires SectionOnce(ls, t) && KeyOnce(ls, t, k)
    ensures SectionOnce(ls[i := l], t) && KeyOnce(ls[i := l], t, k)
  {
    hide HeaderName, HasKey, SectionAt, Lower, IsName, Opens, Reflects, SectionOnce, KeyOnce, Assigns;
    AssignsAt(ls, i, target, key);
    var ls' := ls[i := l];
    forall j: nat | Opens(ls', j, t) ensures j != i && j <= |ls| && Opens(ls, Back(|ls|, j), t) {
      ReplaceOpens(ls, i, l, j, t);
    }
    OnceAgain(ls, ls', t, i, |ls|);
    ReplaceReflects(ls, i, target, key, l, t, k);
    if t == target && Lower(k) == Lower(key) {
      OnlyThere(ls, i, target, key, t, k);
      forall j: nat | j != i && Assigns(ls', j, t, k) ensures !Assigns(ls, Back(|ls|, j), t, k) {
        InRange(ls', j, t, k);
      }
    }
    OnceReflected(ls, ls', i, |ls|, target, key, t, k);
  }

  lemma InRange(ls: seq<Bytes>, j: nat, t: Bytes, k: Bytes)
    requires Assigns(ls, j, t, k)
    ensures j < |ls|
  {}

  /** The key, in any spelling, is assigned at its place only. */
  lemma OnlyThere(ls: seq<Bytes>, i: nat, target: Bytes, key: Bytes, t: Bytes, k: Bytes)
    requires Assigns(ls, i, target, key) && KeyOnce(ls, t, k) && t == target && Lower(k) == Lower(key)
    ensures forall j: nat | j != i :: !Assigns(ls, j, t, k)
  {
    hide SectionAt, HasKey, Lower;
    SameKeyAssigns(ls, i, target, key, k);
  }

  lemma NoneThere(ls: seq<Bytes>, target: Bytes, key: Bytes, t: Bytes, k: Bytes)
    requires (forall j: nat :: !Assigns(ls, j, target, key)) && t == target && Lower(k) == Lower(key)
    ensures forall j: nat :: !Assigns(ls, j, t, k)
  {
    hide SectionAt, HasKey, Lower, Assigns;
    forall j: nat ensures !Assigns(ls, j, t, k) {
      SameKeyAssigns(ls, j, target, key, k);
    }
  }

  lemma InsertIsNeat(ls: seq<Bytes>, i: nat, target: Bytes, key: Bytes, value: Bytes, managed: set<Spot>)
    requires NeatLines(ls, managed) && Placed(ls, target, key, Before(i)) && IsName(key) && SafeIni(value)
    ensures NeatLines(InsertLine(ls, i, NewLine(key, value)), managed)
  {
    hide HeaderName, HasKey, SectionAt, Lower, NewLine, SafeIni, IsName, ItemOf, ScanLine, IsLine, Opens, Reflects, SectionOnce, KeyOnce, SameHeader, Assigns;
    var l := NewLine(key, value);
    var ls' := InsertLine(ls, i, l);
    InsertedLine(key, value);
    SameHeaderOf(l, key, value);
    forall p | p in managed ensures SectionOnce(ls', p.0) && KeyOnce(ls', p.0, p.1) {
      forall j: nat | Opens(ls', j, p.0) ensures j != i && Opens(ls, Back(i, j), p.0) {
        InsertOpens(ls, i, l, j, p.0);
      }
      OnceAgain(ls, ls', p.0, i, i);
      InsertReflects(ls, i, target, key, l, p.0, p.1);
      if p.0 == target && Lower(p.1) == Lower(key) {
        NoneThere(ls, target, key, p.0, p.1);
      }
      OnceReflected(ls, ls', i, i, target, key, p.0, p.1);
    }
  }

  lemma InsertOpens(ls: seq<Bytes>, i: nat, l: Bytes, j: nat, target: Bytes)
    requires i <= |ls| && HeaderName(l) == None && Opens(InsertLine(ls, i, l), j, target)
    ensures j != i && Opens(ls, Back(i, j), target)
  {
    hide HeaderName;
    var ls' := InsertLine(ls, i, l);
    assert ls'[i] == l && (j > i ==> ls'[j] == ls[j - 1]);
  }

  lemma AppendIsNeat(ls: seq<Bytes>, section: Bytes, key: Bytes, value: Bytes, managed: set<Spot>)
    requires NeatLines(ls, managed) && Placed(ls, Lower(section), key, Nowhere) && IsName(section) && IsName(key) && SafeIni(value)
    requires forall p | p in managed :: IsName(p.1)
    ensures NeatLines(ls + Appended(section, key, value), managed)
  {
    hide HeaderName, HasKey, SectionAt, Lower, NewLine, SafeIni, IsName, ItemOf, ScanLine, IsLine, Opens, Reflects, SectionOnce, KeyOnce, SameHeader, Assigns;
    var target, ls' := Lower(section), ls + Appended(section, key, value);
    AppendedHeaders(section, key, value);
    SectionIsNamed(section);
    NothingIn(ls, target, key);
    forall p | p in managed ensures SectionOnce(ls', p.0) && KeyOnce(ls', p.0, p.1) {
      forall j: nat | Opens(ls', j, p.0) ensures if j == |ls| + 1 then p.0 == target else Opens(ls, j, p.0) {
        AppendOpens(ls, section, key, value, j, p.0);
      }
      StillOnce(ls, ls', p.0, target, |ls| + 1);
      AppendReflects(ls, section, key, value, p.0, p.1);
      if p.0 == target && Lower(p.1) == Lower(key) {
        NoneThere(ls, target, key, p.0, p.1);
      }
      OnceReflected(ls, ls', |ls| + 2, |ls'|, target, key, p.0, p.1);
    }
  }

  lemma AppendedHeaders(section: Bytes, key: Bytes, value: Bytes)
    requires IsName(section) && IsName(key) && SafeIni(value)
    ensures forall i | 0 <= i < 3 :: SameHeader(Appended(section, key, value)[i])
  {
    hide HeaderName, HasKey, Lower, IsName, SafeIni, ItemOf, IsLine, ScanLine, NewLine;
    InsertedLine(key, value);
    HeaderLine(section);
    EmptyLine();
    var more := Appended(section, key, value);
    assert SameHeader(more[0]) && SameHeader(more[1]) && SameHeader(more[2]);
  }

  lemma NothingIn(ls: seq<Bytes>, target: Bytes, key: Bytes)
    requires target != [] && forall j: nat :: !Opens(ls, j, target)
    ensures forall j: nat :: !Assigns(ls, j, target, key)
  {
    hide SectionAt, HasKey, Opens;
    forall j: nat ensures !Assigns(ls, j, target, key) {
      if j < |ls| {
        NotFromStart(ls, j, target);
      }
    }
  }

  lemma AppendOpens(ls: seq<Bytes>, section: Bytes, key: Bytes, value: Bytes, j: nat, t: Bytes)
    requires IsName(section) && IsName(key) && SafeIni(value) && Opens(ls + Appended(section, key, value), j, t)
    ensures if j == |ls| + 1 then t == Lower(section) else Opens(ls, j, t)
  {
    hide HeaderName, HasKey, Lower, IsName, SafeIni, NewLine, ItemOf, IsLine, ScanLine;
    var n, ls' := |ls|, ls + Appended(section, key, value);
    InsertedLine(key, value);
    HeaderLine(section);
    EmptyLine();
    assert ls'[n] == "\n" && ls'[n + 1] == "[" + section + "]\n" && ls'[n + 2] == NewLine(key, value);
  }

  lemma StillOnce(ls: seq<Bytes>, ls': seq<Bytes>, t: Bytes, target: Bytes, h: nat)
    requires SectionOnce(ls, t) && (forall j: nat :: !Opens(ls, j, target))
    requires forall j: nat | Opens(ls', j, t) :: if j == h then t == target else Opens(ls, j, t)
    ensures SectionOnce(ls', t)
  {
    hide Opens;
  }

  lemma PatchKeepsNeat(d: Bytes, section: Bytes, key: Bytes, value: Bytes, managed: set<Spot>)
    requires Neat(d, managed) && (Lower(section), key) in managed && IsName(section) && IsName(key) && SafeIni(value)
    requires forall p | p in managed :: IsName(p.1)
    ensures Neat(PatchIni(d, section, key, value), managed)
  {
    hide PatchLines, SplitLines, IsName, SafeIni, Lower, NeatLines, Join, SectionOnce;
    var ls := SplitLines(d);
    SplitGivesLines(d);
    NeatSection(ls, managed, Lower(section), key);
    PatchSplits(d, section, key, value);
    JoinEnds(PatchLines(ls, section, key, value));
    PatchLinesAreNeat(ls, section, key, value, managed);
  }

  lemma PatchLinesAreNeat(ls: seq<Bytes>, section: Bytes, key: Bytes, value: Bytes, managed: set<Spot>)
    requires AllLines(ls) && NeatLines(ls, managed) && (Lower(section), key) in managed
    requires IsName(section) && IsName(key) && SafeIni(value) && forall p | p in managed :: IsName(p.1)
    ensures NeatLines(PatchLines(ls, section, key, value), managed)
  {
    hide Find, ReplaceLine, NewLine, IsName, SafeIni, HasKey, Lower, InsertLine, SectionAt, NeatLines, Assigns, Terminated, AllLines, Appended, SectionOnce;
    NeatSection(ls, managed, Lower(section), key);
    FindPlaces(ls, section, key);
    EndsWithLine(ls);
    match Find(ls, section, key)
    case At(i) =>
      AssignsAt(ls, i, Lower(section), key);
      ReplaceIsNeat(ls, i, Lower(section), key, value, managed);
    case Before(i) => InsertIsNeat(ls, i, Lower(section), key, value, managed);
    case Nowhere => AppendIsNeat(ls, section, key, value, managed);
  }

  lemma NeatSection(ls: seq<Bytes>, managed: set<Spot>, t: Bytes, key: Bytes)
    requires NeatLines(ls, managed) && (t, key) in managed
    ensures SectionOnce(ls, t)
  {}

  lemma {:induction false} JoinEnds(ls: seq<Bytes>)
    requires AllLines(ls)
    ensures EndsLine(Join(ls))
    decreases |ls|
  {
    if ls != [] {
      assert IsLine(ls[0]) && AllLines(ls[1..]);
      JoinEnds(ls[1..]);
      var l, rest := ls[0], Join(ls[1..]);
      if rest != [] {
        assert (l + rest)[|l + rest| - 1] == rest[|rest| - 1];
      } else {
        assert l + rest == l;
      }
    }
  }
}
