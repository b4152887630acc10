/**
 The lines that the renderer of enb.conf writes, and how lines make up the text.
 */
module IniWriting {
  import opened Lexer
  import opened Splice
  import opened Text
  import opened Ini
  import opened IniLines
  import opened IniValues
  import opened IniPlaces

  // ----- lines and text

  ghost predicate AllLines(ls: seq<Bytes>) {
    forall i | 0 <= i < |ls| :: IsLine(ls[i])
  }

  lemma {:induction false} LineEndIs(d: Bytes, i: nat, e: nat)
    requires i <= e < |d| && d[e] == '\n' && forall k | i <= k < e :: d[k] != '\n'
    ensures LineEnd(d, i) == e
    decreases e - i
  {
    if i < e {
      LineEndIs(d, i + 1, e);
    }
  }

  /** A line that may lack its line feed. */
  predicate IsPiece(line: Bytes) {
    IsLine(line) || (line != [] && '\n' !in line)
  }

  /** The lines of a text: only the last one may lack its line feed. */
  ghost predicate AllPieces(ls: seq<Bytes>) {
    forall i | 0 <= i < |ls| :: IsPiece(ls[i]) && (i < |ls| - 1 ==> IsLine(ls[i]))
  }

  lemma {:induction false} SplitOfJoin(ls: seq<Bytes>)
    requires AllPieces(ls)
    ensures SplitLines(Join(ls)) == ls
    decreases |ls|
  {
    hide SplitLines, IsLine;
    NothingToSplit();
    if ls != [] {
      var l, rest := ls[0], ls[1..];
      assert IsPiece(l);
      forall i | 0 <= i < |rest| ensures IsPiece(rest[i]) && (i < |rest| - 1 ==> IsLine(rest[i])) {
        assert rest[i] == ls[i + 1];
      }
      SplitOfJoin(rest);
      if IsLine(l) {
        SplitLine(l, Join(rest));
      } else {
        assert rest == [] && Join(ls) == l;
        SplitOpenLine(l);
      }
    }
  }

  lemma NothingToSplit()
    ensures SplitLines([]) == []
  {}

  lemma SplitLine(l: Bytes, rest: Bytes)
    requires IsLine(l)
    ensures SplitLines(l + rest) == [l] + SplitLines(rest)
  {
    var d := l + rest;
    LineEndIs(d, 0, |l| - 1);
    assert d[..|l|] == l && d[|l|..] == rest;
  }

  lemma SplitOpenLine(l: Bytes)
    requires l != [] && '\n' !in l
    ensures SplitLines(l) == [l]
  {
    NoLineEnd(l, 0);
  }

  lemma {:induction false} NoLineEnd(d: Bytes, i: nat)
    requires i <= |d| && '\n' !in d
    ensures LineEnd(d, i) == |d|
    decreases |d| - i
  {
    if i < |d| {
      assert d[i] in d;
      NoLineEnd(d, i + 1);
    }
  }

  lemma LinesArePieces(ls: seq<Bytes>)
    requires AllLines(ls)
    ensures AllPieces(ls)
  {}

  lemma {:induction false} SplitGivesPieces(d: Bytes)
    ensures AllPieces(SplitLines(d))
    ensures !EndsLine(d) ==> SplitLines(d) != [] && !IsLine(SplitLines(d)[|SplitLines(d)| - 1])
    decreases |d|
  {
    if d != [] {
      var e := LineEnd(d, 0);
      LineRun(d, 0);
      if e == |d| {
        assert IsPiece(d);
      } else {
        assert IsLine(d[..e + 1]);
        var rest := d[e + 1..];
        assert rest != [] ==> rest[|rest| - 1] == d[|d| - 1];
        SplitGivesPieces(rest);
        assert SplitLines(d) == [d[..e + 1]] + SplitLines(rest);
      }
    }
  }

  predicate EndsLine(d: Bytes) {
    d == [] || d[|d| - 1] == '\n'
  }

  lemma {:induction false} SplitGivesLines(d: Bytes)
    requires EndsLine(d)
    ensures AllLines(SplitLines(d))
    decreases |d|
  {
    if d != [] {
      var e := LineEnd(d, 0);
      LineRun(d, 0);
      assert IsLine(d[..e + 1]);
      var rest := d[e + 1..];
      assert rest != [] ==> rest[|rest| - 1] == d[|d| - 1];
      SplitGivesLines(rest);
    }
  }

  // ----- written lines

  /** What can stand at the end of a line; nothing, at the end of a text. */
  predicate IsEol(eol: Bytes) {
    eol == "\n" || eol == "\r\n" || eol == []
  }

  lemma WrittenEnd(lead: Bytes, key: Bytes, value: Bytes, remark: Bytes)
    requires IsLead(lead) && IsName(key) && SafeIni(value) && IsRemarkText(remark) && '\n' !in remark
    requires remark != [] ==> remark[|remark| - 1] != '\r'
    ensures var s := Written(lead, key, value, remark);
            s != [] && s[|s| - 1] != '\r' && '\n' !in s
  {
    hide ModeAt, CommentAt;
    var s := Written(lead, key, value, remark);
    if remark != [] {
      assert s[|s| - 1] == remark[|remark| - 1];
    } else if value != [] {
      assert s[|s| - 1] == value[|value| - 1];
    } else {
      assert s[|s| - 1] == ' ';
    }
    forall c | c in key ensures c != '\n' {
      var i :| 0 <= i < |key| && key[i] == c;
      assert IsIdent(key[i]);
    }
    assert '\n' !in lead;
    assert '\n' !in " = ";
  }

  /** A body and a line end make a line with that body. */
  lemma LineOf(s: Bytes, eol: Bytes)
    requires s != [] && s[|s| - 1] != '\r' && '\n' !in s && IsEol(eol)
    ensures IsPiece(s + eol) && (eol != [] ==> IsLine(s + eol)) && SplitEol(s + eol) == Eol(s, eol) && ScanLine(s + eol) == s
  {
    var l := s + eol;
    forall i | 0 <= i < |l| - 1 ensures l[i] != '\n' {
      if i < |s| {
        assert l[i] == s[i];
      }
    }
    if eol == [] {
      assert l == s && s[|s| - 1] in s;
    } else if eol == "\n" {
      assert l[|l| - 2] == s[|s| - 1] && l[..|l| - 1] == s;
    } else {
      assert l[..|l| - 2] == s && l[|l| - 2..] == eol;
      assert l[..|l| - 1][|l| - 2] == '\r';
      assert l[..|l| - 1][..|l| - 2] == s;
    }
  }

  /** A written line: what the reader takes from it and how the renderer sees it. */
  lemma WrittenLine(lead: Bytes, key: Bytes, value: Bytes, remark: Bytes, eol: Bytes)
    requires IsLead(lead) && IsName(key) && SafeIni(value) && IsRemarkText(remark) && '\n' !in remark && IsEol(eol)
    requires remark != [] ==> remark[|remark| - 1] != '\r'
    ensures var s := Written(lead, key, value, remark);
            var l := s + eol;
            && IsPiece(l) && (eol != [] ==> IsLine(l)) && SplitEol(l) == Eol(s, eol) && ItemOf(ScanLine(l)) == Entry(Lower(key), value)
            && HasKey(l, key) && HeaderName(l) == None
  {
    hide IsLead, IsName, SafeIni, IsRemarkText, Prefix, Lower, KeyStands, HasKey, HeaderName, ItemOf, SplitEol, ScanLine, IsLine, IsPiece;
    var s := Written(lead, key, value, remark);
    WrittenEnd(lead, key, value, remark);
    LineOf(s, eol);
    WrittenItem(lead, key, value, remark);
    assert s == Prefix(lead, key) + (value + remark);
    PrefixStands(lead, key, value + remark);
    StandsHasKey(s + eol, |lead|, key, |lead| + |key| + 1, key);
  }

  /** The remark a line keeps. */
  lemma RemarkShape(body: Bytes)
    requires '\n' !in body
    ensures var r := Remark(body);
            IsRemarkText(r) && '\n' !in r && (r != [] ==> r[|r| - 1] != '\r')
  {
    hide Trim;
    match Index(body, '#')
    case None =>
    case Some(i) =>
      var u := body[i..];
      var b := TrimFrom(u, 0, 0);
      assert Trim(u)[0] == '#';
      var r := " " + Trim(u);
      assert r[1] == '#';
      assert r[|r| - 1] == u[b - 1];
  }

  lemma LineParts(line: Bytes)
    requires IsPiece(line)
    ensures IsEol(SplitEol(line).eol) && '\n' !in Body(line) && (IsLine(line) ==> SplitEol(line).eol != [])
  {}

  /** The line that replaces a line. */
  lemma ReplacedLine(line: Bytes, key: Bytes, value: Bytes)
    requires IsPiece(line) && IsName(key) && SafeIni(value)
    ensures var l := ReplaceLine(line, key, value);
            IsPiece(l) && (IsLine(line) ==> IsLine(l)) && ItemOf(ScanLine(l)) == Entry(Lower(key), value) && HasKey(l, key) && HeaderName(l) == None
  {
    hide IsLine, IsPiece, IsName, SafeIni, Remark, SplitEol, ItemOf, HasKey, HeaderName, ScanLine, Lower;
    var split := SplitEol(line);
    var lead := split.body[..Leading(split.body, 0)];
    LineParts(line);
    RemarkShape(split.body);
    WrittenLine(lead, key, value, Remark(split.body), split.eol);
    assert ReplaceLine(line, key, value) == Written(lead, key, value, Remark(split.body)) + split.eol;
  }

  /** The line that is inserted. */
  lemma InsertedLine(key: Bytes, value: Bytes)
    requires IsName(key) && SafeIni(value)
    ensures var l := NewLine(key, value);
            IsLine(l) && ItemOf(ScanLine(l)) == Entry(Lower(key), value) && HasKey(l, key) && HeaderName(l) == None
  {
    hide IsLine, IsName, SafeIni, SplitEol, ItemOf, HasKey, HeaderName, ScanLine, Lower;
    WrittenLine([], key, value, [], "\n");
    assert NewLine(key, value) == Written([], key, value, []) + "\n";
  }

  /** The header that is appended. */
  lemma HeaderLine(section: Bytes)
    requires IsName(section)
    ensures var l := "[" + section + "]\n";
            IsLine(l) && HeaderName(l) == Some(Lower(section)) && ItemOf(ScanLine(l)) == Header(Lower(section))
  {
    hide Lower, Trim, IsLine, SplitEol, ScanLine, CommentStart;
    var s := "[" + section + "]";
    forall i | 0 <= i < |s| ensures IsPlain(s[i]) && s[i] != '\n' {
      assert 0 < i < |s| - 1 ==> IsIdent(section[i - 1]);
    }
    assert "[" + section + "]\n" == s + "\n";
    LineOf(s, "\n");
    PlainHasNoComment(s);
    TrimOfTrimmed(s);
    assert s[1..|s| - 1] == section;
    assert IsIdent(section[0]) && IsIdent(section[|section| - 1]);
    TrimOfTrimmed(section);
  }

  lemma PlainHasNoComment(s: Bytes)
    requires forall i | 0 <= i < |s| :: IsPlain(s[i])
    ensures s[..CommentStart(s, 0)] == s
  {
    hide ModeAt;
    forall k | 0 <= k < |s| ensures !CommentAt(s, k) {
      assert IsPlain(s[k]);
    }
    CommentIs(s, 0, |s|);
  }

  lemma EmptyLine()
    ensures IsLine("\n") && HeaderName("\n") == None && ItemOf(ScanLine("\n")) == Nothing
  {
    TrimOfTrimmed([]);
  }
}
