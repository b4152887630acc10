/**
 rr.conf as its own reader reads it: line by line, one assignment to a line.
 */
module RrLines {
  import opened Lexer
  import opened Splice
  import opened Text
  import opened Ini
  import opened IniLines
  import opened IniValues
  import opened IniWriting

  /** What the reader takes from a line: the key in lower case and the value. */
  function RrEntry(line: Bytes): Option<(Bytes, Bytes)> {
    match AssignmentLine(StripComment(ScanLine(line)))
    case None => None
    case Some((key, value)) => Some((Lower(key), Unquote(value)))
  }

  // ----- an assignment that has its line to itself

  /** Blanks, the key at `a`, blanks, '=' at `q`, blanks. */
  predicate IsFront(p: Bytes, a: nat, q: nat, key: Bytes) {
    && KeyStands(p, a, key, q) && '\n' !in p
    && (forall k | a + |key| <= k < q :: IsSpace(p[k])) && (forall k | q < k < |p| :: IsSpace(p[k]))
  }

  /** Blanks, perhaps a ';' at `m`, and from `c` on a comment. */
  predicate IsRear(t: Bytes, m: nat, c: nat) {
    && m <= c <= |t| && '\n' !in t && (forall k | 0 <= k < c && k != m :: IsBlank(t[k])) && (m < c ==> t[m] == ';')
    && (c < |t| ==> c > 0 && CommentAt(t, c))
    && (t != [] ==> t[|t| - 1] != '\r')
  }

  /** A value that has the line to itself. */
  predicate IsLoneValue(v: Bytes) {
    SafeIni(v) && v != []
  }

  lemma FrontIsCode(p: Bytes, a: nat, q: nat, key: Bytes, rest: Bytes)
    requires IsFront(p, a, q, key)
    ensures ModeAt(p + rest, 0, |p|) == Code && forall k | 0 <= k < |p| :: !CommentAt(p + rest, k)
  {
    hide IsName;
    var s := p + rest;
    forall k | 0 <= k < |p| ensures s[k] == p[k] && IsPlain(s[k]) {
      if a <= k < a + |key| {
        KeyChars(p, a, key, q, k);
      }
    }
    PlainRun(s, 0, 0, |p| - 1);
    assert !IsIdent(s[|p| - 1]);
  }

  lemma RearFits(v: Bytes, t: Bytes, m: nat, c: nat)
    requires IsLoneValue(v) && IsRear(t, m, c)
    ensures Fits(v, t)
  {
    assert ModeAt(v, 0, 0) == Code;
  }

  lemma {:induction false} RearIsOpen(s: Bytes, i: nat, t: Bytes, m: nat, c: nat, k: nat)
    requires i <= |s| && s[i..] == t && IsRear(t, m, c) && Open(ModeAt(s, 0, i)) && k <= c
    ensures Open(ModeAt(s, 0, i + k)) && (k < c ==> !CommentAt(s, i + k))
    decreases k
  {
    hide CommentAt;
    assert k < |t| ==> s[i + k] == t[k];
    if k > 0 {
      assert s[i + (k - 1)] == t[k - 1];
      RearIsOpen(s, i, t, m, c, k - 1);
    }
    NoRemark(s, i + k);
  }

  lemma NoRemark(s: Bytes, k: nat)
    ensures k < |s| && IsPlain(s[k]) ==> !CommentAt(s, k)
  {}

  /** The comment of the line starts behind its value. */
  lemma LineComment(p: Bytes, a: nat, q: nat, key: Bytes, v: Bytes, t: Bytes, m: nat, c: nat)
    requires IsFront(p, a, q, key) && IsLoneValue(v) && IsRear(t, m, c)
    ensures CommentStart(p + v + t, 0) == |p| + |v| + c
  {
    hide IsFront, IsLoneValue, ModeAt, CommentAt, IsRear;
    var s, n := p + v + t, |p| + |v|;
    NoCommentYet(p, a, q, key, v, t, m, c);
    RearParts(t, m, c);
    assert s[n..] == t;
    forall k | n <= k < n + c ensures !CommentAt(s, k) {
      RearIsOpen(s, n, t, m, c, k - n);
    }
    RearIsOpen(s, n, t, m, c, c);
    CommentInPlace(s, n, t, c);
    CommentIs(s, 0, n + c);
  }

  lemma NoCommentYet(p: Bytes, a: nat, q: nat, key: Bytes, v: Bytes, t: Bytes, m: nat, c: nat)
    requires IsFront(p, a, q, key) && IsLoneValue(v) && IsRear(t, m, c)
    ensures var s := p + v + t;
            Open(ModeAt(s, 0, |p| + |v|)) && forall k | 0 <= k < |p| + |v| :: !(Open(ModeAt(s, 0, k)) && CommentAt(s, k))
  {
    hide IsFront, SafeIni, ModeAt, CommentAt, IsRear;
    var s := p + v + t;
    assert s == p + (v + t);
    FrontIsCode(p, a, q, key, v + t);
    RearFits(v, t, m, c);
    forall k | |p| <= k < |p| + |v| ensures !(Open(ModeAt(s, 0, k)) && CommentAt(s, k)) {
      ValueInPlace(p, v, t, k - |p|);
    }
    ValueInPlace(p, v, t, |v|);
  }

  lemma RearParts(t: Bytes, m: nat, c: nat)
    requires IsRear(t, m, c)
    ensures m <= c <= |t| && (c < |t| ==> c > 0 && CommentAt(t, c))
  {}

  lemma CommentInPlace(s: Bytes, i: nat, t: Bytes, c: nat)
    requires i <= |s| && s[i..] == t && c <= |t| && (c < |t| ==> c > 0 && CommentAt(t, c))
    ensures c < |t| ==> CommentAt(s, i + c)
  {
    if c < |t| {
      assert s[i + c] == t[c] && s[i + c - 1] == t[c - 1];
      assert c + 1 < |t| ==> s[i + c + 1] == t[c + 1];
    }
  }

  // ----- what the reader makes of the line

  /** Where the visible text of the line ends. */
  function VisibleEnd(n: nat, m: nat, c: nat): nat {
    n + (if m < c then m + 1 else 0)
  }

  /** Without its comment the line is the key, '=', the value, and perhaps a ';'. */
  lemma LineStripped(p: Bytes, a: nat, q: nat, key: Bytes, v: Bytes, t: Bytes, m: nat, c: nat)
    requires IsFront(p, a, q, key) && IsLoneValue(v) && IsRear(t, m, c)
    ensures VisibleEnd(|p| + |v|, m, c) <= |p + v + t| && StripComment(p + v + t) == (p + v + t)[a..VisibleEnd(|p| + |v|, m, c)]
  {
    hide IsName, Trim, ModeAt, CommentStart, CommentAt;
    var s, b := p + v + t, VisibleEnd(|p| + |v|, m, c);
    LineComment(p, a, q, key, v, t, m, c);
    var u := s[..|p| + |v| + c];
    assert forall k | 0 <= k < c :: u[|p| + |v| + k] == t[k];
    assert forall k | 0 <= k < |p| :: u[k] == p[k];
    KeyChars(p, a, key, q, a) by { NameIsNotEmpty(key); }
    assert u[b - 1] == if m < c then ';' else v[|v| - 1];
    TrimIs(u, a, b);
    assert u[a..b] == s[a..b];
  }

  /** The text after the '='. */
  lemma ValuePart(g: Bytes, v: Bytes, t: Bytes, m: nat, c: nat)
    requires (forall k | 0 <= k < |g| :: IsSpace(g[k])) && IsTrimmed(v) && v != [] && v[|v| - 1] != ';' && IsRear(t, m, c)
    ensures var y := g + v + t[..if m < c then m + 1 else 0]; DropSemicolon(Trim(y)) == v
  {
    hide Trim, CommentAt;
    var w := t[..if m < c then m + 1 else 0];
    var y := g + v + w;
    assert y[|g|] == v[0] && forall k | 0 <= k < |g| :: y[k] == g[k];
    assert y[|y| - 1] == if m < c then ';' else v[|v| - 1];
    TrimIs(y, |g|, |y|);
    assert y[|g|..|y|] == v + w;
    if m < c {
      DropsSemicolon(v, t, m, c);
    } else {
      assert v + w == v;
    }
  }

  lemma DropsSemicolon(v: Bytes, t: Bytes, m: nat, c: nat)
    requires IsTrimmed(v) && v != [] && IsRear(t, m, c) && m < c
    ensures DropSemicolon(v + t[..m + 1]) == v
  {
    hide Trim, CommentAt;
    var x := v + t[..m + 1];
    var z := x[..|x| - 1];
    assert z == v + t[..m];
    assert forall k | |v| <= k < |z| :: z[k] == t[k - |v|];
    assert z[0] == v[0] && z[|v| - 1] == v[|v| - 1];
    TrimIs(z, 0, |v|);
    assert z[0..|v|] == v;
  }

  lemma AfterName(x: Bytes, key: Bytes, j: nat)
    requires IsName(key) && |key| <= j < |x| && x[..|key|] == key && (forall k | |key| <= k < j :: IsSpace(x[k])) && x[j] == '='
    ensures x != [] && IsIdentStart(x[0]) && WordEnd(x, 0) == |key| && SkipSpace(x, |key|) == j
  {
    forall k | 0 <= k < |key| ensures IsIdent(x[k]) {
      assert x[..|key|][k] == x[k];
    }
    assert x[..|key|][0] == x[0];
    WordFrom(x, 0, |key|);
    SpaceFrom(x, |key|, j);
  }

  /** The line is read as the key and the value. */
  lemma LineIsEntry(p: Bytes, a: nat, q: nat, key: Bytes, v: Bytes, t: Bytes, m: nat, c: nat)
    requires IsFront(p, a, q, key) && IsLoneValue(v) && IsRear(t, m, c)
    ensures AssignmentLine(StripComment(p + v + t)) == Some((key, v))
  {
    hide IsName, Trim, ModeAt, CommentAt, StripComment, DropSemicolon, WordEnd, SkipSpace, SafeIni;
    var s, b := p + v + t, VisibleEnd(|p| + |v|, m, c);
    LineStripped(p, a, q, key, v, t, m, c);
    ValueEnds(v);
    var x := s[a..b];
    var g, w := p[q + 1..], t[..if m < c then m + 1 else 0];
    assert x[..|key|] == p[a..a + |key|];
    assert forall k | |key| <= k < q - a :: x[k] == p[a + k];
    assert x[q - a] == p[q];
    AfterName(x, key, q - a);
    assert x[|x| - 1] == if m < c then ';' else v[|v| - 1];
    TrimOfTrimmed(x);
    LetterIsVisible(x[0]);
    assert x[q - a + 1..] == g + v + w;
    ValuePart(g, v, t, m, c);
  }

  lemma ValueEnds(v: Bytes)
    requires IsLoneValue(v)
    ensures v != [] && IsTrimmed(v) && v[|v| - 1] != ';' && !IsBlank(v[|v| - 1])
  {}

  lemma LetterIsVisible(c: char)
    requires IsIdentStart(c)
    ensures !IsBlank(c)
  {}
}
