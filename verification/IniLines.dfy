/**
 How the renderer and the reader of enb.conf see the same line.
 */
module IniLines {
  import opened Lexer
  import opened Splice
  import opened Text
  import opened Ini

  /** The line ends in a line feed and holds no other. */
  predicate IsLine(line: Bytes) {
    line != [] && line[|line| - 1] == '\n' && forall i | 0 <= i < |line| - 1 :: line[i] != '\n'
  }

  function Body(line: Bytes): Bytes {
    SplitEol(line).body
  }

  /** The reader drops a carriage return that the renderer keeps when no line feed follows it. */
  lemma ScanBody(line: Bytes)
    ensures ScanLine(line) <= Body(line) && (Body(line) == ScanLine(line) || Body(line) == ScanLine(line) + "\r")
  {}

  lemma {:induction false} CommentIs(s: Bytes, i: nat, e: nat)
    requires i <= e <= |s| && (e < |s| ==> Open(ModeAt(s, 0, e)) && CommentAt(s, e))
    requires forall k | i <= k < e :: !(Open(ModeAt(s, 0, k)) && CommentAt(s, k))
    ensures CommentStart(s, i) == e
    decreases e - i
  {
    if i < e {
      CommentIs(s, i + 1, e);
    }
  }

  // ----- a line that starts with a key

  /** After blanks up to `a`, the name `w` stands in `s` and is followed by blanks and '=' at `q`. */
  predicate KeyStands(s: Bytes, a: nat, w: Bytes, q: nat) {
    && a + |w| <= q < |s| && Blank(s, 0, a) && IsName(w) && s[a..a + |w|] == w
    && Blank(s, a + |w|, q) && s[q] == '='
  }

  lemma KeyChars(s: Bytes, a: nat, w: Bytes, q: nat, k: nat)
    requires KeyStands(s, a, w, q) && a <= k < a + |w|
    ensures s[k] == w[k - a] && IsIdent(s[k]) && (k == a ==> IsIdentStart(s[k]))
  {
    assert s[k] == s[a..a + |w|][k - a];
    assert IsIdent(w[k - a]);
  }

  /** A name that stands in a text stands in any longer one. */
  lemma StandsLonger(s: Bytes, r: Bytes, a: nat, w: Bytes, q: nat)
    requires s <= r && q < |s|
    ensures KeyStands(s, a, w, q) <==> KeyStands(r, a, w, q)
  {
    hide IsName;
    assert forall k | 0 <= k < |s| :: s[k] == r[k];
    if a + |w| <= q {
      assert s[a..a + |w|] == r[a..a + |w|];
    }
  }

  /** A name that stands in the text of a line stands in what the reader scans, and the other way round. */
  lemma StandsInLine(line: Bytes, a: nat, w: Bytes, q: nat)
    ensures KeyStands(ScanLine(line), a, w, q) <==> KeyStands(Body(line), a, w, q)
  {
    hide IsName, ScanLine, Body;
    ScanBody(line);
    if q < |ScanLine(line)| {
      StandsLonger(ScanLine(line), Body(line), a, w, q);
    }
  }

  /** The renderer takes such a line for an assignment to its name. */
  lemma StandsHasKey(line: Bytes, a: nat, w: Bytes, q: nat, key: Bytes)
    requires KeyStands(Body(line), a, w, q) && Lower(w) == Lower(key)
    ensures HasKey(line, key) && HeaderName(line) == None && !IsCommentLine(line)
  {
    hide Lower, Trim, Index;
    var s := Body(line);
    KeyChars(s, a, w, q, a);
    var v := TrimFrom(s, a, q);
    KeyBeforeEqual(s, a, w, q, v);
    assert Trim(s)[0] == s[a];
    assert forall k | 0 <= k <= q :: line[k] == s[k];
    var v' := TrimFrom(line, a, q);
    assert Trim(line)[0] == s[a];
  }

  lemma KeyBeforeEqual(s: Bytes, a: nat, w: Bytes, q: nat, v: nat)
    requires KeyStands(s, a, w, q) && q < v <= |s|
    ensures Index(s[a..v], '=') == Some(q - a) && Trim(s[a..v][..q - a]) == w
  {
    hide Trim, Index, IsName;
    NameIsNotEmpty(w);
    var x := s[a..v];
    forall k | 0 <= k < q - a ensures x[k] != '=' {
      assert x[k] == s[a + k];
      if k < |w| {
        KeyChars(s, a, w, q, a + k);
      } else {
        assert IsBlank(s[a + k]);
      }
    }
    assert x[q - a] == '=';
    IndexIs(x, '=', q - a);
    var y := x[..q - a];
    assert forall k | 0 <= k < q - a :: y[k] == s[a + k];
    KeyChars(s, a, w, q, a);
    KeyChars(s, a, w, q, a + |w| - 1);
    assert y[..|w|] == w;
    TrimIs(y, 0, |w|);
  }

  lemma {:induction false} IndexIs(s: Bytes, c: char, k: nat)
    requires k < |s| && s[k] == c && forall i | 0 <= i < k :: s[i] != c
    ensures Index(s, c) == Some(k)
    decreases k
  {
    if k > 0 {
      assert s[0] != c;
      IndexIs(s[1..], c, k - 1);
    }
  }

  /** The name and the equal sign of the text [a, b) of `s`. */
  lemma LiftStands(s: Bytes, a: nat, b: nat, i: nat, j: nat)
    requires a <= b <= |s| && Blank(s, 0, a) && i <= j < b - a
    requires IsName(s[a..b][..i]) && Blank(s[a..b], i, j) && s[a..b][j] == '='
    ensures KeyStands(s, a, s[a..b][..i], a + j)
  {
    hide IsName;
    var x := s[a..b];
    assert forall k | a + i <= k < a + j :: s[k] == x[k - a];
    assert s[a..a + i] == x[..i];
  }

  lemma EntryShape(x: Bytes) returns (i: nat, j: nat)
    requires IsTrimmed(x) && AssignmentLine(x).Some?
    ensures i <= j < |x| && IsName(x[..i]) && Blank(x, i, j) && x[j] == '=' && AssignmentLine(x).value.0 == x[..i]
  {
    hide Trim, DropSemicolon;
    TrimOfTrimmed(x);
    i := WordEnd(x, 0);
    j := SkipSpace(x, i);
    WordRun(x, 0);
    SpaceRun(x, i);
  }

  lemma EntryIsAssignment(s: Bytes)
    requires ItemOf(s).Entry?
    ensures AssignmentLine(StripComment(s)).Some? && ItemOf(s).key == Lower(AssignmentLine(StripComment(s)).value.0)
  {}

  /** What the reader takes for an assignment is such a line. */
  lemma EntryStands(s: Bytes) returns (a: nat, w: Bytes, q: nat)
    requires ItemOf(s).Entry?
    ensures KeyStands(s, a, w, q) && Lower(w) == ItemOf(s).key
  {
    hide Lower, Trim, ItemOf, AssignmentLine, KeyStands, IsName;
    EntryIsAssignment(s);
    var t, b, j := s[..CommentStart(s, 0)], 0, 0;
    a, b := TrimShape(t);
    var i;
    i, j := EntryShape(Trim(t));
    assert t[a..b] == s[a..b];
    assert forall k | 0 <= k < a :: s[k] == t[k];
    LiftStands(s, a, b, i, j);
    w, q := s[a..b][..i], a + j;
  }

  /** What the renderer takes for an assignment to a key is such a line. */
  lemma HasKeyStands(line: Bytes, key: Bytes) returns (a: nat, w: Bytes, q: nat)
    requires HasKey(line, key) && IsName(key)
    ensures KeyStands(Body(line), a, w, q) && Lower(w) == Lower(key)
  {
    hide Trim, KeyStands, IsName, Index, Lower;
    var s, b := Body(line), 0;
    a, b := TrimShape(s);
    var x := Trim(s);
    var i := EqualPlace(x);
    var c, e := TrimShape(x[..i]);
    w, q := Trim(x[..i]), a + i;
    SameLowerIsKey(w, key);
    assert w != [] by { assert IsName(w); NameIsNotEmpty(w); }
    assert c == 0 by {
      assert x[..i][0] == x[0] == s[a];
    }
    assert forall k | e <= k < i :: x[k] == x[..i][k];
    assert x[..e] == w;
    LiftStands(s, a, b, e, i);
  }

  lemma NameIsNotEmpty(w: Bytes)
    requires IsName(w)
    ensures w != []
  {}

  lemma EqualPlace(x: Bytes) returns (i: nat)
    requires Index(x, '=').Some?
    ensures Index(x, '=') == Some(i) && i < |x| && x[i] == '='
  {
    i := Index(x, '=').value;
  }

  lemma SameLowerIsKey(w: Bytes, key: Bytes)
    requires Lower(w) == Lower(key) && IsName(key)
    ensures IsName(w)
  {
    assert |w| == |Lower(w)| == |key|;
    forall i | 0 <= i < |w| ensures IsIdent(w[i]) && (IsIdentStart(key[i]) ==> IsIdentStart(w[i])) {
      assert Lower(w)[i] == Lower(key)[i];
      assert IsIdent(key[i]);
    }
  }

  /** Such a line gives the reader an entry for the name, or nothing. */
  lemma StandsItem(s: Bytes, a: nat, w: Bytes, q: nat)
    requires KeyStands(s, a, w, q)
    ensures ItemOf(s).Nothing? || (ItemOf(s).Entry? && ItemOf(s).key == Lower(w))
  {
    hide Lower, Trim, Unquote, DropSemicolon;
    var cs := CommentStart(s, 0);
    if cs < a + |w| {
      assert cs >= a ==> IsIdent(s[cs]) by {
        if cs >= a {
          KeyChars(s, a, w, q, cs);
        }
      }
    }
    var t := s[..cs];
    KeyChars(s, a, w, q, a);
    KeyChars(s, a, w, q, a + |w| - 1);
    assert forall k | 0 <= k < cs :: t[k] == s[k];
    var b := TrimFrom(t, a, a + |w| - 1);
    var x := Trim(t);
    TrimOfTrimmed(x);
    assert x[0] == s[a];
    StandsWord(s, a, w, q, b);
    assert s[a..b] == t[a..b];
  }

  lemma StandsWord(s: Bytes, a: nat, w: Bytes, q: nat, b: nat)
    requires KeyStands(s, a, w, q) && a + |w| <= b <= |s|
    ensures WordEnd(s[a..b], 0) == |w| && s[a..b][..|w|] == w
  {
    var x := s[a..b];
    forall k | 0 <= k < |w| ensures IsIdent(x[k]) {
      KeyChars(s, a, w, q, a + k);
    }
    WordFrom(x, 0, |w|);
    if a + |w| < b {
      assert x[|w|] == s[a + |w|];
    }
  }
}
