/**
 Texts without quotes and comments, written without blanks: everything in them is code, so words, values
 and brackets can be read off the characters.
 */
module PlainTexts {
  import opened Lexer
  import opened Splice
  import opened Numbers
  import opened Brackets

  predicate PlainText(d: Bytes) {
    forall i | 0 <= i < |d| :: IsPlain(d[i])
  }

  lemma PlainOpen(d: Bytes, k: nat)
    requires PlainText(d) && k <= |d|
    ensures OpenAt(d, k) && (k < |d| ==> !CommentAt(d, k) && (BracketAt(d, k) <==> IsBracket(d[k])))
  {
    PlainRun(d, 0, 0, k);
    if k < |d| {
      assert IsPlain(d[k]);
    }
  }

  // ----- words

  /** A word may start here. */
  predicate Starts(d: Bytes, s: nat) {
    s < |d| && IsIdentStart(d[s]) && (s == 0 || !IsIdentStart(d[s - 1]))
  }

  /** The word `w` is assigned at `s`, with its value right behind the '='. */
  predicate WordHere(d: Bytes, s: nat, w: Bytes) {
    && s + |w| + 1 < |d| && d[s..s + |w|] == w && IsLowerName(w) && (s == 0 || !IsIdent(d[s - 1]))
    && d[s + |w|] == '=' && !IsSpace(d[s + |w| + 1])
  }

  /** The words of the text: `words[i]` at `at[i]`, and no other. */
  ghost predicate Lexed(d: Bytes, at: seq<nat>, words: seq<Bytes>) {
    && PlainText(d) && |at| == |words|
    && (forall i | 0 <= i < |at| :: WordHere(d, at[i], words[i]))
    && (forall i, j | 0 <= i < j < |words| :: words[i] != words[j])
    && (forall s: nat | Starts(d, s) :: s in at)
  }

  lemma AssignStarts(d: Bytes, s: nat, g: Bytes, fold: bool)
    requires PlainText(d) && AssignAt(d, 0, s, g, fold)
    ensures Starts(d, s)
  {
    if s > 0 {
      PlainOpen(d, s - 1);
    }
  }

  lemma WordSpan(d: Bytes, s: nat, w: Bytes)
    requires WordHere(d, s, w)
    ensures IsIdentStart(d[s]) && WordEnd(d, s) == s + |w| && SkipSpace(d, s + |w|) == s + |w|
    ensures SpanAt(d, s) == Span(s, s + |w|, s + |w|, s + |w| + 1)
  {
    hide IsName;
    WordChars(d, s, w);
    WordFrom(d, s, s + |w|);
  }

  lemma WordChars(d: Bytes, s: nat, w: Bytes)
    requires WordHere(d, s, w)
    ensures IsIdentStart(d[s]) && forall n | s <= n < s + |w| :: IsIdent(d[n])
  {
    forall n | s <= n < s + |w| ensures IsIdent(d[n]) {
      assert w[n - s] == d[n];
    }
    assert w[0] == d[s];
  }

  lemma {:induction false} FoldIsExact(d: Bytes, s: nat, g: Bytes, k: nat)
    requires s + |g| <= |d| && (forall i | s <= i < s + |g| :: LowerChar(d[i]) == d[i]) && forall i | 0 <= i < |g| :: LowerChar(g[i]) == g[i]
    ensures Spells(d, s, g, true, k) == Spells(d, s, g, false, k)
    decreases |g| - k
  {
    if k < |g| {
      FoldIsExact(d, s, g, k + 1);
    }
  }

  /** A word is read as itself and as no other word. */
  lemma WordIs(d: Bytes, s: nat, w: Bytes, g: Bytes, fold: bool)
    requires WordHere(d, s, w) && IsLowerName(g)
    ensures TokenIs(d, s, s + |w|, g, fold) <==> g == w
  {
    ExactToken(d, s, s + |w|, g);
    if |g| == |w| {
      forall i | s <= i < s + |g| ensures LowerChar(d[i]) == d[i] {
        assert d[i] == w[i - s];
      }
      FoldIsExact(d, s, g, 0);
    }
  }

  lemma AssignedHere(d: Bytes, s: nat, w: Bytes, g: Bytes, fold: bool)
    requires PlainText(d) && WordHere(d, s, w) && IsLowerName(g)
    ensures AssignAt(d, 0, s, g, fold) <==> g == w
  {
    hide TokenIs, IsLowerName;
    WordSpan(d, s, w);
    WordIs(d, s, w, g, fold);
    if s > 0 {
      PlainOpen(d, s - 1);
    }
    assert ModeAt(d, 0, s) == Code;
  }

  /** Each word is found where it stands, by either scanner. */
  lemma WordFound(d: Bytes, at: seq<nat>, words: seq<Bytes>, i: nat, fold: bool)
    requires Lexed(d, at, words) && i < |at|
    ensures var s, e := at[i], at[i] + |words[i]|;
            e < |d| && Assignment(d, words[i], 0, fold) == Some(Span(s, e, e, e + 1))
  {
    hide WordHere, PlainText, AssignAt, SpanAt, Starts;
    var s, w := at[i], words[i];
    LowerOf(d, s, w);
    AssignedHere(d, s, w, w, fold);
    forall k: nat | k < s ensures !AssignAt(d, 0, k, w, fold) {
      if AssignAt(d, 0, k, w, fold) {
        AssignStarts(d, k, w, fold);
        var j :| 0 <= j < |at| && at[j] == k;
        AssignedHere(d, k, words[j], w, fold);
      }
    }
    AssignmentIsUnique(d, w, 0, fold, s);
    WordSpan(d, s, w);
  }

  lemma LowerOf(d: Bytes, s: nat, w: Bytes)
    requires WordHere(d, s, w)
    ensures IsLowerName(w) && s + |w| < |d|
  {}

  /** Nothing else is found. */
  lemma NoOtherWord(d: Bytes, at: seq<nat>, words: seq<Bytes>, g: Bytes, fold: bool)
    requires Lexed(d, at, words) && g !in words && IsLowerName(g)
    ensures Assignment(d, g, 0, fold) == None
  {
    hide WordHere, PlainText, AssignAt, SpanAt, Starts, IsLowerName;
    if Assignment(d, g, 0, fold).Some? {
      var k := Assignment(d, g, 0, fold).value.keyStart;
      AssignStarts(d, k, g, fold);
      var j :| 0 <= j < |at| && at[j] == k;
      AssignedHere(d, k, words[j], g, fold);
    }
  }

  // ----- texts put together

  /** Inside the word no letter follows a digit. */
  predicate IsSmooth(w: Bytes) {
    IsLowerName(w) && forall i | 0 < i < |w| && IsIdentStart(w[i]) :: IsIdentStart(w[i - 1])
  }

  lemma LettersAreSmooth(w: Bytes)
    requires IsLowerName(w) && forall i | 0 <= i < |w| :: IsIdentStart(w[i])
    ensures IsSmooth(w)
  {}

  function Field(w: Bytes, v: Bytes): Bytes {
    w + "=" + v + ";"
  }

  function Opening(w: Bytes, c: char): Bytes {
    w + ['=', c]
  }

  /** A word, '=', and a text without letters. */
  lemma WordLexed(w: Bytes, r: Bytes)
    requires IsSmooth(w) && r != [] && !IsSpace(r[0]) && forall i | 0 <= i < |r| :: IsPlain(r[i]) && !IsIdentStart(r[i])
    ensures Lexed(w + "=" + r, [0], [w])
  {
    var d := w + "=" + r;
    forall i | 0 <= i < |d| ensures IsPlain(d[i]) && (i >= |w| ==> !IsIdentStart(d[i])) {
      if i < |w| {
        assert IsIdent(w[i]);
      } else if i > |w| {
        assert d[i] == r[i - |w| - 1];
      }
    }
    assert d[0..|w|] == w;
    forall s: nat | Starts(d, s) ensures s == 0 {}
  }

  lemma FieldLexed(w: Bytes, v: Bytes)
    requires IsSmooth(w) && IsNumberText(v)
    ensures Lexed(Field(w, v), [0], [w])
  {
    hide IsSmooth, Lexed;
    var r := v + ";";
    forall i | 0 <= i < |r| ensures IsPlain(r[i]) && !IsIdentStart(r[i]) && !IsSpace(r[i]) {
      if i < |v| {
        assert IsNumberChar(v[i]);
      }
    }
    WordLexed(w, r);
    assert w + "=" + r == Field(w, v);
  }

  lemma OpeningLexed(w: Bytes, c: char)
    requires IsSmooth(w) && IsBracket(c)
    ensures Lexed(Opening(w, c), [0], [w])
  {
    hide IsSmooth, Lexed;
    WordLexed(w, [c]);
    assert w + "=" + [c] == Opening(w, c);
  }

  lemma FieldParts(w: Bytes, v: Bytes)
    requires IsName(w) && IsNumberText(v)
    ensures var d := Field(w, v);
            && |d| == |w| + |v| + 2 && d[|w| + 1..|w| + 1 + |v|] == v && d[|w| + 1 + |v|] == ';'
            && forall k | 0 <= k < |d| :: !IsBracket(d[k])
  {
    var d := Field(w, v);
    forall k | 0 <= k < |d| ensures !IsBracket(d[k]) {
      if k < |w| {
        assert IsIdent(w[k]);
      } else if |w| < k <= |w| + |v| {
        assert d[k] == v[k - |w| - 1] && IsNumberChar(v[k - |w| - 1]);
      }
    }
  }

  lemma OpeningParts(w: Bytes, c: char)
    requires IsName(w)
    ensures var d := Opening(w, c);
            |d| == |w| + 2 && d[|w| + 1] == c && forall k | 0 <= k <= |w| :: !IsBracket(d[k])
  {
    var d := Opening(w, c);
    forall k | 0 <= k <= |w| ensures !IsBracket(d[k]) {
      if k < |w| {
        assert IsIdent(w[k]);
      }
    }
  }

  lemma BracketLexed(c: char)
    requires IsBracket(c)
    ensures Lexed([c], [], [])
  {}

  function MovedBy(at: seq<nat>, n: nat): seq<nat> {
    seq(|at|, i requires 0 <= i < |at| => at[i] + n)
  }

  /** The words of two texts, one after the other. */
  lemma LexedConcat(a: Bytes, at: seq<nat>, words: seq<Bytes>, b: Bytes, at': seq<nat>, words': seq<Bytes>)
    requires Lexed(a, at, words) && Lexed(b, at', words') && a != [] && !IsIdent(a[|a| - 1])
    requires forall w | w in words :: w !in words'
    ensures Lexed(a + b, at + MovedBy(at', |a|), words + words')
  {
    hide WordHere, Starts, PlainText, IsIdent;
    var d, n := a + b, |a|;
    var moved, all := MovedBy(at', n), words + words';
    PlainConcat(a, b);
    forall i | 0 <= i < |at + moved| ensures WordHere(d, (at + moved)[i], all[i]) {
      if i < |at| {
        WordStays(a, b, at[i], words[i]);
      } else {
        WordMoves(a, b, at'[i - |at|], words'[i - |at|]);
      }
    }
    forall i, j | 0 <= i < j < |all| ensures all[i] != all[j] {
      assert i < |words| <= j ==> all[i] in words && all[j] in words';
    }
    forall s: nat | Starts(d, s) ensures s in at + moved {
      StartsIn(a, b, s);
      if s >= n {
        var i :| 0 <= i < |at'| && at'[i] == s - n;
        assert moved[i] == s;
      }
    }
  }

  lemma PlainConcat(a: Bytes, b: Bytes)
    requires PlainText(a) && PlainText(b)
    ensures PlainText(a + b)
  {}

  lemma StartsIn(a: Bytes, b: Bytes, s: nat)
    requires Starts(a + b, s)
    ensures s < |a| ==> Starts(a, s)
    ensures s >= |a| ==> Starts(b, s - |a|)
  {}

  lemma WordStays(a: Bytes, b: Bytes, s: nat, w: Bytes)
    requires WordHere(a, s, w)
    ensures WordHere(a + b, s, w)
  {
    hide IsLowerName;
    assert (a + b)[s..s + |w|] == a[s..s + |w|];
  }

  lemma WordMoves(a: Bytes, b: Bytes, s: nat, w: Bytes)
    requires WordHere(b, s, w) && a != [] && !IsIdent(a[|a| - 1])
    ensures WordHere(a + b, |a| + s, w)
  {
    hide IsLowerName;
    assert (a + b)[|a| + s..|a| + s + |w|] == b[s..s + |w|];
  }

  // ----- values

  /** A number followed by ';' is read as that number. */
  lemma NumberHere(d: Bytes, s: nat, v: Bytes)
    requires s + |v| < |d| && d[s..s + |v|] == v && IsNumberText(v) && d[s + |v|] == ';'
    ensures ScalarText(d, s) == Some(v) && ValueStop(d, s) == s + |v| && !CommentAt(d, s)
  {
    var t := s + |v|;
    forall k | s <= k < t ensures IsPlain(d[k]) && !StopAt(d, s, k) && !IsSpace(d[k]) {
      assert d[s..t][k - s] == d[k] && IsNumberChar(v[k - s]);
    }
    PlainRun(d, s, s, t);
    StopIsUnique(d, s, t);
  }

  /** An opening bracket stops a scan at once. */
  lemma BracketHere(d: Bytes, s: nat)
    requires s < |d| && d[s] == '{'
    ensures ValueStop(d, s) == s && ScalarText(d, s) == None && !CommentAt(d, s)
  {
    StopIsUnique(d, s, s);
  }

  // ----- brackets

  lemma {:induction false} NestingFlat(d: Bytes, i: nat, j: nat, k: nat, open: char, close: char)
    requires i <= j <= k <= |d| && forall n | j <= n < k :: d[n] != open && d[n] != close
    ensures Nesting(d, i, k, open, close) == Nesting(d, i, j, open, close)
    decreases k
  {
    if j < k {
      NestingFlat(d, i, j, k - 1, open, close);
    }
  }

  /** A pair of brackets with no such bracket in between. */
  lemma PairCloses(d: Bytes, i: nat, p: nat, open: char, close: char)
    requires PlainText(d) && i < p < |d| && d[i] == open && d[p] == close && open != close && IsBracket(open) && IsBracket(close)
    requires forall n | i < n < p :: d[n] != open && d[n] != close
    ensures MatchingClose(d, i, open, close) == Some(p)
  {
    hide CloseAt, BracketAt, OpenAt, PlainText;
    PlainOpen(d, i);
    PlainOpen(d, p);
    forall k: nat | k <= p ensures CloseAt(d, i, k, open, close) <==> k == p {
      CloseIsStructural(d, i, k, open, close);
      if i < k {
        NestingFlat(d, i, i + 1, k, open, close);
      }
    }
    MatchIsUnique(d, i, open, close, Some(p));
  }

  /** A pair of braces around another one. */
  lemma OuterCloses(d: Bytes, i: nat, a: nat, b: nat, p: nat)
    requires PlainText(d) && i < a < b < p < |d| && d[i] == '{' && d[p] == '}' && d[a] == '{' && d[b] == '}'
    requires forall n | i < n < p && n != a && n != b :: d[n] != '{' && d[n] != '}'
    ensures MatchingClose(d, i, '{', '}') == Some(p)
  {
    hide CloseAt, BracketAt, OpenAt, PlainText;
    PlainOpen(d, i);
    PlainOpen(d, a);
    PlainOpen(d, b);
    PlainOpen(d, p);
    NestingFlat(d, i, i + 1, a, '{', '}');
    NestingFlat(d, i, a + 1, b, '{', '}');
    forall k: nat | k <= p ensures CloseAt(d, i, k, '{', '}') <==> k == p {
      CloseIsStructural(d, i, k, '{', '}');
      if b < k {
        NestingFlat(d, i, b + 1, k, '{', '}');
      }
    }
    MatchIsUnique(d, i, '{', '}', Some(p));
  }
}
