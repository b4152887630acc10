/**
 Patching enb.conf twice with the same value.
 */
module IniAgain {
  import opened Lexer
  import opened Text
  import opened Ini
  import opened IniLines
  import opened IniValues
  import opened IniPlaces
  import opened IniWriting
  import opened IniTheorem

  // ----- the line is found again

  lemma {:induction false} SameStart(ls: seq<Bytes>, ls': seq<Bytes>, i: nat)
    requires i <= |ls| && i <= |ls'| && forall j | 0 <= j < i :: ls'[j] == ls[j]
    ensures SectionAt(ls', i) == SectionAt(ls, i)
    decreases i
  {
    hide HeaderName;
    if i > 0 {
      SameStart(ls, ls', i - 1);
    }
  }

  lemma SameAssigns(ls: seq<Bytes>, ls': seq<Bytes>, i: nat, j: nat, target: Bytes, key: Bytes)
    requires j < i <= |ls| && i <= |ls'| && forall j | 0 <= j < i :: ls'[j] == ls[j]
    ensures Assigns(ls', j, target, key) == Assigns(ls, j, target, key)
  {
    hide HeaderName, HasKey;
    SameStart(ls, ls', j);
  }

  /** The first line that assigns the key is the one the renderer finds. */
  lemma FoundAt(ls: seq<Bytes>, i: nat, section: Bytes, key: Bytes)
    requires SectionOnce(ls, Lower(section)) && IsName(section) && IsName(key)
    requires Assigns(ls, i, Lower(section), key) && forall j: nat | j < i :: !Assigns(ls, j, Lower(section), key)
    ensures Find(ls, section, key) == At(i)
  {
    hide HeaderName, HasKey, Find, SectionOnce, Lower, SectionAt;
    FindPlaces(ls, section, key);
    match Find(ls, section, key)
    case At(k) =>
    case Before(k) =>
    case Nowhere =>
      NotFromStart(ls, i, Lower(section));
      SectionIsNamed(section);
  }

  lemma SectionIsNamed(section: Bytes)
    requires IsName(section)
    ensures Lower(section) != []
  {
    assert |Lower(section)| == |section|;
  }

  lemma NotFromStart(ls: seq<Bytes>, i: nat, target: Bytes)
    requires i <= |ls| && target != [] && forall j: nat :: !Opens(ls, j, target)
    ensures SectionAt(ls, i) != target
  {
    hide HeaderName;
    StaysOut(ls, 0, i, target);
  }

  /** The key's line in the patched lines. */
  ghost predicate Stands(ls': seq<Bytes>, i: nat, target: Bytes, key: Bytes) {
    && SectionOnce(ls', target) && Assigns(ls', i, target, key)
    && forall j: nat | j < i :: !Assigns(ls', j, target, key)
  }

  lemma ReplaceStands(ls: seq<Bytes>, i: nat, target: Bytes, key: Bytes, l: Bytes)
    requires SectionOnce(ls, target) && Placed(ls, target, key, At(i)) && IsName(key)
    requires HasKey(l, key) && HeaderName(l) == None
    ensures Stands(ls[i := l], i, target, key)
  {
    hide HeaderName, HasKey, IsName, SectionAt, SectionOnce, Opens, Assigns;
    AssignsAt(ls, i, target, key);
    var ls' := ls[i := l];
    NoneBefore(ls, ls', i, target, key);
    AssignsThere(ls', i, target, key);
    forall j: nat | Opens(ls', j, target) ensures j != i && j <= |ls| && Opens(ls, Back(|ls|, j), target) {
      ReplaceOpens(ls, i, l, j, target);
    }
    OnceAgain(ls, ls', target, i, |ls|);
  }

  lemma ReplaceOpens(ls: seq<Bytes>, i: nat, l: Bytes, j: nat, target: Bytes)
    requires i < |ls| && HeaderName(l) == None && Opens(ls[i := l], j, target)
    ensures j != i && j < |ls| && Opens(ls, j, target)
  {
    hide HeaderName;
  }

  /** Up to the place, nothing changes. */
  lemma NoneBefore(ls: seq<Bytes>, ls': seq<Bytes>, i: nat, target: Bytes, key: Bytes)
    requires i <= |ls| && i <= |ls'| && forall j | 0 <= j < i :: ls'[j] == ls[j]
    requires forall j: nat | j < i :: !Assigns(ls, j, target, key)
    ensures SectionAt(ls', i) == SectionAt(ls, i)
    ensures forall j: nat | j < i :: !Assigns(ls', j, target, key)
  {
    hide Assigns, SectionAt;
    SameStart(ls, ls', i);
    forall j: nat | j < i ensures !Assigns(ls', j, target, key) {
      SameAssigns(ls, ls', i, j, target, key);
    }
  }

  /** The line at or after `from` that line `j` was, when one line was put in there. */
  function Back(from: nat, j: nat): nat {
    if j <= from then j else j - 1
  }

  lemma OnceAgain(ls: seq<Bytes>, ls': seq<Bytes>, target: Bytes, i: nat, from: nat)
    requires SectionOnce(ls, target)
    requires from == i || forall j: nat | Opens(ls', j, target) :: j <= from
    requires forall j: nat | Opens(ls', j, target) :: j != i && Opens(ls, Back(from, j), target)
    ensures SectionOnce(ls', target)
  {
    hide Opens;
    forall a: nat, b: nat | a < b ensures !(Opens(ls', a, target) && Opens(ls', b, target)) {
      assert Opens(ls', a, target) && Opens(ls', b, target) ==> Back(from, a) < Back(from, b);
    }
  }

  lemma InsertStands(ls: seq<Bytes>, i: nat, target: Bytes, key: Bytes, l: Bytes)
    requires SectionOnce(ls, target) && Placed(ls, target, key, Before(i))
    requires HasKey(l, key) && HeaderName(l) == None
    ensures Stands(InsertLine(ls, i, l), i, target, key)
  {
    hide HeaderName, HasKey, SectionAt, SectionOnce;
    var ls' := InsertLine(ls, i, l);
    assert ls'[i] == l;
    NoneBefore(ls, ls', i, target, key);
    forall j: nat | Opens(ls', j, target) ensures j != i && Opens(ls, Back(i, j), target) {
      assert j > i ==> ls'[j] == ls[j - 1];
    }
    OnceAgain(ls, ls', target, i, i);
  }

  lemma AppendStands(ls: seq<Bytes>, section: Bytes, key: Bytes, value: Bytes)
    requires Placed(ls, Lower(section), key, Nowhere) && IsName(section) && IsName(key) && SafeIni(value)
    ensures Stands(ls + Appended(section, key, value), |ls| + 2, Lower(section), key)
  {
    hide HeaderName, HasKey, Lower, IsName, SafeIni, NewLine, SectionAt, ItemOf, IsLine, ScanLine;
    var n, ls', target := |ls|, ls + Appended(section, key, value), Lower(section);
    InsertedLine(key, value);
    HeaderLine(section);
    EmptyLine();
    SectionIsNamed(section);
    assert ls'[n] == "\n" && ls'[n + 1] == "[" + section + "]\n" && ls'[n + 2] == NewLine(key, value);
    forall j: nat ensures Opens(ls', j, target) == (j == n + 1) {
      assert !Opens(ls, j, target);
    }
    forall j: nat | j < n + 2 ensures !Assigns(ls', j, target, key) {
      if j <= n + 1 {
        BeforeHeader(ls', n + 1, j, target);
      }
    }
    AfterHeader(ls', n + 1);
  }

  lemma BeforeHeader(ls: seq<Bytes>, h: nat, j: nat, target: Bytes)
    requires h < |ls| && j <= h && target != [] && forall k: nat | k < h :: !Opens(ls, k, target)
    ensures SectionAt(ls, j) != target
  {
    hide HeaderName;
    StaysOut(ls, 0, j, target);
  }

  lemma AfterHeader(ls: seq<Bytes>, h: nat)
    requires h < |ls| && HeaderName(ls[h]).Some?
    ensures SectionAt(ls, h + 1) == HeaderName(ls[h]).value
  {}

  // ----- the line is replaced by itself

  /** The blanks that a replaced line keeps in front. */
  predicate IsIndentation(s: Bytes) {
    forall i | 0 <= i < |s| :: s[i] == ' ' || s[i] == '\t'
  }

  lemma LeadingIs(lead: Bytes, rest: Bytes)
    requires IsIndentation(lead) && rest != [] && rest[0] != ' ' && rest[0] != '\t'
    ensures Leading(lead + rest, 0) == |lead|
  {
    var s := lead + rest;
    assert forall k | 0 <= k < |lead| :: s[k] == lead[k];
    assert s[|lead|] == rest[0];
  }

  /** The first '#' after a part without one. */
  lemma {:induction false} IndexAfter(a: Bytes, b: Bytes)
    requires '#' !in a
    ensures Index(a + b, '#') == match Index(b, '#') case None => None case Some(i) => Some(|a| + i)
    decreases |a|
  {
    if a == [] {
      assert a + b == b;
    } else {
      assert (a + b)[0] == a[0] && (a + b)[1..] == a[1..] + b;
      assert '#' !in a[1..];
      IndexAfter(a[1..], b);
    }
  }

  /** A remark as a written line carries it. */
  predicate Tight(remark: Bytes) {
    remark == [] || (|remark| >= 2 && remark[0] == ' ' && remark[1] == '#' && !IsBlank(remark[|remark| - 1]))
  }

  lemma RemarkIsTight(body: Bytes)
    ensures Tight(Remark(body))
  {
    hide Trim;
    match Index(body, '#')
    case None =>
    case Some(i) =>
      var u := body[i..];
      var b := TrimFrom(u, 0, 0);
      assert Trim(u)[0] == '#';
      var r := " " + Trim(u);
      assert r[1] == '#' && r[|r| - 1] == u[b - 1];
  }

  /** The remark that a written line keeps is its own exactly when the value holds no '#'. */
  lemma WrittenRemark(p: Bytes, value: Bytes, remark: Bytes)
    requires '#' !in p && IsTrimmed(value) && Tight(remark)
    ensures Remark(p + value + remark) == remark <==> '#' !in value
  {
    if '#' in value {
      RemarkGrows(p, value, remark);
    } else {
      RemarkStays(p, value, remark);
    }
  }

  lemma RemarkStays(p: Bytes, value: Bytes, remark: Bytes)
    requires '#' !in p && '#' !in value && Tight(remark)
    ensures Remark(p + value + remark) == remark
  {
    hide Trim, Index;
    var u := p + value;
    assert '#' !in u;
    IndexAfter(u, remark);
    if remark != [] {
      IndexIs(remark, '#', 1);
      TightTrim(remark);
      assert (u + remark)[|u| + 1..] == remark[1..];
    } else {
      NoIndex();
    }
  }

  lemma NoIndex()
    ensures Index([], '#') == None
  {}

  lemma RemarkGrows(p: Bytes, value: Bytes, remark: Bytes)
    requires '#' !in p && '#' in value && IsTrimmed(value) && Tight(remark)
    ensures |Remark(p + value + remark)| > |remark|
  {
    hide Trim, Index, Tight;
    var c := FirstHash(value);
    var y := value + remark;
    assert p + value + remark == p + y;
    IndexAfter(p, y);
    assert forall k | 0 <= k <= c :: y[k] == value[k];
    IndexIs(y, '#', c);
    assert (p + y)[|p| + c..] == value[c..] + remark;
    NothingTrimmed(value, c, remark);
  }

  lemma FirstHash(value: Bytes) returns (c: nat)
    requires '#' in value
    ensures c < |value| && value[c] == '#' && forall i | 0 <= i < c :: value[i] != '#'
  {
    c := Index(value, '#').value;
    forall i | 0 <= i < c ensures value[i] != '#' {
      assert value[i] == value[..c][i];
    }
  }

  lemma TightTrim(remark: Bytes)
    requires Tight(remark) && remark != []
    ensures " " + Trim(remark[1..]) == remark
  {
    var u := remark[1..];
    assert u[0] == '#' && u[|u| - 1] == remark[|remark| - 1];
    TrimOfTrimmed(u);
  }

  lemma NothingTrimmed(value: Bytes, c: nat, remark: Bytes)
    requires IsTrimmed(value) && c < |value| && value[c] == '#' && Tight(remark)
    ensures Trim(value[c..] + remark) == value[c..] + remark
  {
    var u := value[c..] + remark;
    assert u[0] == '#';
    assert u[|u| - 1] == if remark == [] then value[|value| - 1] else remark[|remark| - 1];
    TrimOfTrimmed(u);
  }

  lemma PrefixHasNoHash(lead: Bytes, key: Bytes)
    requires IsLead(lead) && IsName(key)
    ensures '#' !in Prefix(lead, key)
  {
    hide Prefix, IsLead, IsName;
    var p := Prefix(lead, key);
    forall c | c in p ensures c != '#' {
      var i :| 0 <= i < |p| && p[i] == c;
      PrefixChars(lead, key, i);
    }
  }

  /** A written line is replaced by itself exactly when the value holds no '#'. */
  lemma ReplaceAgain(lead: Bytes, key: Bytes, value: Bytes, remark: Bytes, eol: Bytes)
    requires IsIndentation(lead) && IsName(key) && SafeIni(value) && Tight(remark) && '\n' !in remark && IsEol(eol)
    ensures var l := Written(lead, key, value, remark) + eol;
            ReplaceLine(l, key, value) == l <==> '#' !in value
  {
    hide IsName, SafeIni, Remark, HasKey, HeaderName, ItemOf, ScanLine, Lower, SplitEol, IsLine;
    assert IsLead(lead);
    var s := Written(lead, key, value, remark);
    var l := s + eol;
    WrittenLine(lead, key, value, remark, eol);
    SafeIsTrimmed(value);
    PrefixHasNoHash(lead, key);
    WrittenRemark(Prefix(lead, key), value, remark);
    KeyStart(key);
    assert s == lead + (key + " = " + value + remark);
    LeadingIs(lead, key + " = " + value + remark);
    assert s[..|lead|] == lead;
    var r := Remark(s);
    assert ReplaceLine(l, key, value) == Written(lead, key, value, r) + eol;
    WrittenDiffers(lead, key, value, remark, r, eol);
  }

  lemma KeyStart(key: Bytes)
    requires IsName(key)
    ensures key != [] && key[0] != ' ' && key[0] != '\t'
  {}

  lemma SafeIsTrimmed(value: Bytes)
    requires SafeIni(value)
    ensures IsTrimmed(value)
  {}

  lemma WrittenDiffers(lead: Bytes, key: Bytes, value: Bytes, r: Bytes, r': Bytes, eol: Bytes)
    ensures Written(lead, key, value, r) + eol == Written(lead, key, value, r') + eol <==> r == r'
  {
    hide Prefix;
    var p := Prefix(lead, key) + value;
    if p + r + eol == p + r' + eol {
      assert |r| == |r'|;
      forall i | 0 <= i < |r| ensures r[i] == r'[i] {
        assert (p + r + eol)[|p| + i] == (p + r' + eol)[|p| + i];
      }
    }
  }

  // ----- the text is patched to itself

  lemma ReplacedAgain(line: Bytes, key: Bytes, value: Bytes)
    requires IsLine(line) && IsName(key) && SafeIni(value)
    ensures var l := ReplaceLine(line, key, value); ReplaceLine(l, key, value) == l <==> '#' !in value
  {
    hide IsLine, IsName, SafeIni, Remark, SplitEol, Tight;
    var split := SplitEol(line);
    var lead := split.body[..Leading(split.body, 0)];
    LineParts(line);
    RemarkShape(split.body);
    RemarkIsTight(split.body);
    ReplaceAgain(lead, key, value, Remark(split.body), split.eol);
    assert ReplaceLine(line, key, value) == Written(lead, key, value, Remark(split.body)) + split.eol;
  }

  lemma InsertedAgain(key: Bytes, value: Bytes)
    requires IsName(key) && SafeIni(value)
    ensures var l := NewLine(key, value); ReplaceLine(l, key, value) == l <==> '#' !in value
  {
    hide IsName, SafeIni, ReplaceLine;
    ReplaceAgain([], key, value, [], "\n");
    assert NewLine(key, value) == Written([], key, value, []) + "\n";
  }

  /** Where the key's line is after a patch, and what replacing it again does. */
  lemma PatchedStands(ls: seq<Bytes>, section: Bytes, key: Bytes, value: Bytes) returns (i: nat)
    requires AllLines(ls) && SectionOnce(ls, Lower(section)) && IsName(section) && IsName(key) && SafeIni(value)
    ensures var ls' := PatchLines(ls, section, key, value);
            i < |ls'| && Stands(ls', i, Lower(section), key) && (ReplaceLine(ls'[i], key, value) == ls'[i] <==> '#' !in value)
  {
    hide Find, ReplaceLine, NewLine, IsName, SafeIni, HasKey, Lower, HeaderName, SectionAt, ItemOf, IsLine, ScanLine, Stands, SectionOnce;
    FindPlaces(ls, section, key);
    InsertedLine(key, value);
    InsertedAgain(key, value);
    match Find(ls, section, key)
    case At(k) =>
      i := k;
      assert IsLine(ls[k]);
      ReplacedLine(ls[k], key, value);
      ReplacedAgain(ls[k], key, value);
      ReplaceStands(ls, k, Lower(section), key, ReplaceLine(ls[k], key, value));
    case Before(k) =>
      i := k;
      InsertStands(ls, k, Lower(section), key, NewLine(key, value));
    case Nowhere =>
      EndsWithLine(ls);
      i := |ls| + 2;
      AppendStands(ls, section, key, value);
  }

  /**
   Patching twice. For every tidy text and safe value, the second patch changes nothing if and
   only if the value holds no '#': a '#' in the value is taken for a remark and copied behind it.
   */
  lemma PatchAgain(d: Bytes, section: Bytes, key: Bytes, value: Bytes)
    requires EndsLine(d) && Tidy(d, section, key) && IsName(section) && IsName(key) && SafeIni(value)
    ensures var d' := PatchIni(d, section, key, value);
            PatchIni(d', section, key, value) == d' <==> '#' !in value
  {
    hide Find, ReplaceLine, NewLine, SplitLines, IsName, SafeIni, HasKey, Lower, InsertLine, SectionAt, Join, SameHeaders, SectionOnce, KeyOnce, HeaderName, IsLine, ItemOf, ScanLine;
    var ls := SplitLines(d);
    SplitGivesLines(d);
    PatchSplits(d, section, key, value);
    var d', ls' := PatchIni(d, section, key, value), PatchLines(ls, section, key, value);
    var i := PatchedStands(ls, section, key, value);
    FoundAt(ls', i, section, key);
    assert IsLine(ls'[i]);
    ReplacedLine(ls'[i], key, value);
    var ls'' := ls'[i := ReplaceLine(ls'[i], key, value)];
    assert PatchIni(d', section, key, value) == Join(ls'');
    SplitOfJoin(ls'');
    SplitOfJoin(ls');
    if '#' in value {
      assert ls''[i] != ls'[i];
      assert SplitLines(Join(ls'')) != SplitLines(Join(ls'));
    } else {
      assert ls'' == ls';
    }
  }
}
