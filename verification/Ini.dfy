/**
 enb.conf: the renderer's patch of one assignment of one section, and the reader that folds
 sections and keys. The text is a list of lines that keep their line ends.
 */
module Ini {
  import opened Lexer
  import opened Text

  lemma LowerIsSame(s: Bytes)
    requires IsLowerName(s)
    ensures Lower(s) == s
  {}

  predicate StartsWith(s: Bytes, p: Bytes) {
    p <= s
  }

  // ----- lines

  function SplitLines(d: Bytes): seq<Bytes>
    decreases |d|
  {
    if d == [] then []
    else
      var e := LineEnd(d, 0);
      if e == |d| then [d] else [d[..e + 1]] + SplitLines(d[e + 1..])
  }

  function Join(ls: seq<Bytes>): Bytes {
    if ls == [] then [] else ls[0] + Join(ls[1..])
  }

  lemma JoinCons(l: Bytes, ls: seq<Bytes>)
    ensures Join([l] + ls) == l + Join(ls)
  {
    assert ([l] + ls)[1..] == ls;
  }

  lemma {:induction false} JoinConcat(a: seq<Bytes>, b: seq<Bytes>)
    ensures Join(a + b) == Join(a) + Join(b)
    decreases |a|
  {
    if a == [] {
      assert a + b == b;
    } else {
      var l, rest := a[0], a[1..];
      JoinConcat(rest, b);
      JoinCons(l, rest + b);
      JoinCons(l, rest);
      assert a == [l] + rest && a + b == [l] + (rest + b);
      assert l + (Join(rest) + Join(b)) == (l + Join(rest)) + Join(b);
    }
  }

  lemma JoinAppended(ls: seq<Bytes>, section: Bytes, key: Bytes, value: Bytes)
    ensures Join(ls + ["\n[" + section + "]\n", NewLine(key, value)]) == Join(ls + Appended(section, key, value))
  {
    var h, n := "[" + section + "]\n", NewLine(key, value);
    JoinConcat(ls, ["\n[" + section + "]\n", n]);
    JoinConcat(ls, ["\n", h, n]);
    JoinTwo("\n[" + section + "]\n", n);
    JoinConcat(["\n"], [h, n]);
    JoinTwo(h, n);
    JoinOne("\n");
    assert ["\n"] + [h, n] == ["\n", h, n];
    assert "\n[" + section + "]\n" == "\n" + h;
    assert ("\n" + h) + n == "\n" + (h + n);
  }

  lemma JoinOne(a: Bytes)
    ensures Join([a]) == a
  {
    assert [a][1..] == [];
  }

  lemma JoinTwo(a: Bytes, b: Bytes)
    ensures Join([a, b]) == a + b
  {
    assert [a, b][1..] == [b];
    JoinOne(b);
  }

  datatype Eol = Eol(body: Bytes, eol: Bytes)

  function SplitEol(line: Bytes): (r: Eol)
    ensures r.body + r.eol == line
  {
    var n := |line|;
    if n >= 2 && line[n - 1] == '\n' && line[n - 2] == '\r' then Eol(line[..n - 2], line[n - 2..])
    else if n >= 1 && line[n - 1] == '\n' then Eol(line[..n - 1], line[n - 1..])
    else Eol(line, [])
  }

  // ----- the renderer's view of a line

  predicate IsRemark(x: Bytes) {
    StartsWith(x, "#") || StartsWith(x, "//")
  }

  function HeaderName(line: Bytes): Option<Bytes> {
    var x := Trim(SplitEol(line).body);
    if IsRemark(x) || x == [] || x[0] != '[' || x[|x| - 1] != ']' || |x| < 2 then None
    else Some(Lower(Trim(x[1..|x| - 1])))
  }

  predicate IsCommentLine(line: Bytes) {
    IsRemark(Trim(line))
  }

  predicate HasKey(line: Bytes, key: Bytes) {
    var x := Trim(SplitEol(line).body);
    && x != [] && !IsRemark(x)
    && Index(x, '=').Some?
    && Lower(Trim(x[..Index(x, '=').value])) == Lower(key)
  }

  function Leading(body: Bytes, i: nat): (r: nat)
    requires i <= |body|
    ensures i <= r <= |body|
    ensures r < |body| ==> body[r] != ' ' && body[r] != '\t'
    ensures forall k | i <= k < r :: body[k] == ' ' || body[k] == '\t'
    decreases |body| - i
  {
    if i < |body| && (body[i] == ' ' || body[i] == '\t') then Leading(body, i + 1) else i
  }

  /** The remark that a replaced line keeps: from its first '#' on. */
  function Remark(body: Bytes): Bytes {
    match Index(body, '#')
    case None => []
    case Some(i) => " " + Trim(body[i..])
  }

  function ReplaceLine(line: Bytes, key: Bytes, value: Bytes): Bytes {
    var split := SplitEol(line);
    split.body[..Leading(split.body, 0)] + key + " = " + value + Remark(split.body) + split.eol
  }

  // ----- the renderer

  datatype Place = At(i: nat) | Before(i: nat) | Nowhere

  /** The loop of patchINIAssignment from line `i` on. */
  function Locate(ls: seq<Bytes>, i: nat, target: Bytes, key: Bytes, current: Bytes, found: bool, insertAt: nat): Place
    requires i <= |ls|
    decreases |ls| - i
  {
    if i == |ls| then (if found then Before(insertAt) else Nowhere)
    else
      match HeaderName(ls[i])
      case Some(name) =>
        if found && current == target then Before(i)
        else if name == target then Locate(ls, i + 1, target, key, name, true, i + 1)
        else Locate(ls, i + 1, target, key, name, found, insertAt)
      case None =>
        if current != target || IsCommentLine(ls[i]) then Locate(ls, i + 1, target, key, current, found, insertAt)
        else if !HasKey(ls[i], key) then Locate(ls, i + 1, target, key, current, found, if found then i + 1 else insertAt)
        else At(i)
  }

  function Find(ls: seq<Bytes>, section: Bytes, key: Bytes): Place {
    Locate(ls, 0, Lower(Trim(section)), key, [], false, |ls|)
  }

  function NewLine(key: Bytes, value: Bytes): Bytes {
    key + " = " + value + "\n"
  }

  /** insertLine: an index past the end appends. */
  function InsertLine(ls: seq<Bytes>, i: nat, line: Bytes): seq<Bytes> {
    var k := if i > |ls| then |ls| else i;
    ls[..k] + [line] + ls[k..]
  }

  function Terminated(ls: seq<Bytes>): seq<Bytes> {
    if ls != [] && !(ls[|ls| - 1] != [] && ls[|ls| - 1][|ls[|ls| - 1]| - 1] == '\n')
    then ls[|ls| - 1 := ls[|ls| - 1] + "\n"] else ls
  }

  /** A new section with its first assignment: an empty line, the header, the assignment. */
  function Appended(section: Bytes, key: Bytes, value: Bytes): seq<Bytes> {
    ["\n", "[" + section + "]\n", NewLine(key, value)]
  }

  function PatchLines(ls: seq<Bytes>, section: Bytes, key: Bytes, value: Bytes): seq<Bytes> {
    match Find(ls, section, key)
    case At(i) => if i < |ls| then ls[i := ReplaceLine(ls[i], key, value)] else ls
    case Before(i) => InsertLine(ls, i, NewLine(key, value))
    case Nowhere => Terminated(ls) + Appended(section, key, value)
  }

  function PatchIni(d: Bytes, section: Bytes, key: Bytes, value: Bytes): Bytes {
    Join(PatchLines(SplitLines(d), section, key, value))
  }

  /** patchINIAssignment, which works on the lines in place. */
  method PatchIniAssignment(data: Bytes, section: Bytes, key: Bytes, value: Bytes) returns (r: Bytes)
    ensures r == PatchIni(data, section, key, value)
  {
    hide HeaderName, IsCommentLine, HasKey, Trim, Lower, ReplaceLine;
    var lines := SplitLines(data);
    var target := Lower(Trim(section));
    var current: Bytes := [];
    var found := false;
    var insertAt: nat, i: nat := |lines|, 0;
    while i < |lines|
      invariant 0 <= i <= |lines| && lines == SplitLines(data)
      invariant Locate(lines, i, target, key, current, found, insertAt) == Find(lines, section, key)
    {
      var name := HeaderName(lines[i]);
      if name.Some? {
        if found && current == target {
          insertAt := i;
          break;
        }
        current := name.value;
        if current == target {
          found, insertAt := true, i + 1;
        }
      } else if current == target && !IsCommentLine(lines[i]) {
        if HasKey(lines[i], key) {
          return Join(lines[i := ReplaceLine(lines[i], key, value)]);
        }
        if found {
          insertAt := i + 1;
        }
      }
      i := i + 1;
    }
    if !found {
      lines := Terminated(lines);
      JoinAppended(lines, section, key, value);
      return Join(lines + ["\n[" + section + "]\n", NewLine(key, value)]);
    }
    return Join(InsertLine(lines, insertAt, NewLine(key, value)));
  }

  // ----- the reader

  /** Where a comment starts that is not inside a string. */
  function CommentStart(s: Bytes, i: nat): (r: nat)
    requires i <= |s|
    ensures i <= r <= |s|
    ensures r < |s| ==> Open(ModeAt(s, 0, r)) && CommentAt(s, r)
    decreases |s| - i
  {
    if i == |s| || (Open(ModeAt(s, 0, i)) && CommentAt(s, i)) then i else CommentStart(s, i + 1)
  }

  function StripComment(s: Bytes): Bytes {
    Trim(s[..CommentStart(s, 0)])
  }

  method StripInlineComment(s: Bytes) returns (r: Bytes)
    ensures r == StripComment(s)
  {
    hide Trim;
    var end := |s|;
    var inString, escaped, i := false, false, 0;
    while i < |s|
      invariant 0 <= i <= |s| && end == |s|
      invariant inString == TextAt(s, 0, i) && (inString ==> escaped == ModeAt(s, 0, i).Escape?) && (!inString ==> Open(ModeAt(s, 0, i)))
      invariant CommentStart(s, i) == CommentStart(s, 0)
    {
      var c := s[i];
      if inString {
        if escaped {
          escaped := false;
        } else if c == '\\' {
          escaped := true;
        } else if c == '"' {
          inString := false;
        }
      } else if CommentAt(s, i) {
        end := i;
        break;
      } else if c == '"' {
        inString, escaped := true, false;
      }
      i := i + 1;
    }
    r := Trim(s[..end]);
  }

  datatype Item = Header(name: Bytes) | Entry(key: Bytes, value: Bytes) | Nothing

  /** parseSectionLine. */
  function SectionLine(line: Bytes): Option<Bytes> {
    var x := Trim(line);
    if |x| < 3 || x[0] != '[' || x[|x| - 1] != ']' then None
    else
      var name := Trim(x[1..|x| - 1]);
      if name == [] then None else Some(Lower(name))
  }

  function DropSemicolon(v: Bytes): Bytes {
    if v != [] && v[|v| - 1] == ';' then Trim(v[..|v| - 1]) else v
  }

  /** parseAssignmentLine. */
  function AssignmentLine(line: Bytes): Option<(Bytes, Bytes)> {
    var x := Trim(line);
    if x == [] || !IsIdentStart(x[0]) then None
    else
      var i := WordEnd(x, 0);
      var j := SkipSpace(x, i);
      if j >= |x| || x[j] != '=' then None
      else Some((x[..i], DropSemicolon(Trim(x[j + 1..]))))
  }

  /** What the reader takes from the text of one line. */
  function ItemOf(body: Bytes): Item {
    var line := StripComment(body);
    if line == [] then Nothing
    else
      match SectionLine(line)
      case Some(name) => Header(name)
      case None =>
        match AssignmentLine(line)
        case None => Nothing
        case Some((key, value)) => Entry(Lower(key), Unquote(value))
  }

  /** bufio.ScanLines: without the line feed and one carriage return before it. */
  function ScanLine(line: Bytes): Bytes {
    var s := if line != [] && line[|line| - 1] == '\n' then line[..|line| - 1] else line;
    if s != [] && s[|s| - 1] == '\r' then s[..|s| - 1] else s
  }

  datatype Readings = Readings(section: Bytes, values: map<(Bytes, Bytes), Bytes>)

  function Take(st: Readings, item: Item): Readings {
    match item
    case Header(name) => st.(section := name)
    case Entry(key, value) => st.(values := st.values[(st.section, key) := value])
    case Nothing => st
  }

  function ReadLines(st: Readings, ls: seq<Bytes>): Readings
    decreases |ls|
  {
    if ls == [] then st else ReadLines(Take(st, ItemOf(ScanLine(ls[0]))), ls[1..])
  }

  const START: Readings := Readings([], map[])

  /** The value each (section, key) ends up with. */
  function ReadIni(d: Bytes): map<(Bytes, Bytes), Bytes> {
    ReadLines(START, SplitLines(d)).values
  }

  /** The section and key fold of ParseENB. */
  method ParseEnb(d: Bytes) returns (values: map<(Bytes, Bytes), Bytes>)
    ensures values == ReadIni(d)
  {
    hide Trim, SectionLine, AssignmentLine, Unquote, Lower, StripComment, ScanLine;
    var lines := SplitLines(d);
    var section: Bytes := [];
    values := map[];
    var i := 0;
    while i < |lines|
      invariant 0 <= i <= |lines|
      invariant ReadLines(Readings(section, values), lines[i..]) == ReadLines(START, lines)
    {
      assert lines[i..][0] == lines[i] && lines[i..][1..] == lines[i + 1..];
      var line := StripInlineComment(ScanLine(lines[i]));
      i := i + 1;
      if line == [] {
        continue;
      }
      var name := SectionLine(line);
      if name.Some? {
        section := name.value;
        continue;
      }
      var entry := AssignmentLine(line);
      if entry.Some? {
        values := values[(section, Lower(entry.value.0)) := Unquote(entry.value.1)];
      }
    }
  }
}
