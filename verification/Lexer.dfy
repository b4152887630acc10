/**
 The lexical structure that every libconfig scanner of the element manager works on.

 A byte is modelled as the char with the same code; nothing here assumes codes below 256.

 One automaton, `Next`, gives each position of a text its mode: plain code, inside an
 identifier, inside a string, after a backslash in a string, or inside a line comment.
 A `#` or `//` opens a comment only at the start of the text or after whitespace.
 The scanners of `Renderer` and `TextParser` are loops with index jumps; they are specified
 here without jumps, by what holds at each position.
 */
module Lexer {

  datatype Option<+T> = None | Some(value: T)

  type Bytes = seq<char>

  // ----- characters

  predicate IsSpace(c: char) {
    c == ' ' || c == '\t' || c == '\r' || c == '\n'
  }

  predicate IsIdentStart(c: char) {
    'A' <= c <= 'Z' || 'a' <= c <= 'z' || c == '_'
  }

  predicate IsIdent(c: char) {
    IsIdentStart(c) || '0' <= c <= '9'
  }

  /** A whole identifier. */
  predicate IsName(s: Bytes) {
    s != [] && IsIdentStart(s[0]) && forall i | 0 <= i < |s| :: IsIdent(s[i])
  }

  function LowerChar(c: char): char {
    if 'A' <= c <= 'Z' then (c as int + 32) as char else c
  }

  /** A name in lower case. */
  predicate IsLowerName(s: Bytes) {
    IsName(s) && forall i | 0 <= i < |s| :: LowerChar(s[i]) == s[i]
  }

  /** Key comparison: exact in the renderer (`fold` false), without regard to ASCII case in the parser. */
  predicate SameChar(a: char, b: char, fold: bool) {
    a == b || (fold && LowerChar(a) == LowerChar(b))
  }

  /** From its `k`-th character on, `key` is spelled at `s`. */
  predicate Spells(d: Bytes, s: nat, key: Bytes, fold: bool, k: nat)
    requires s + |key| <= |d|
    decreases |key| - k
  {
    k >= |key| || (SameChar(d[s + k], key[k], fold) && Spells(d, s, key, fold, k + 1))
  }

  /** The token at [s, e) is `key`. */
  predicate TokenIs(d: Bytes, s: nat, e: nat, key: Bytes, fold: bool) {
    s <= e <= |d| && e - s == |key| && Spells(d, s, key, fold, 0)
  }

  lemma {:induction false} SpellsExactly(d: Bytes, s: nat, key: Bytes, k: nat)
    requires s + |key| <= |d|
    ensures Spells(d, s, key, false, k) <==> forall i | k <= i < |key| :: d[s + i] == key[i]
    decreases |key| - k
  {
    if k < |key| {
      SpellsExactly(d, s, key, k + 1);
    }
  }

  /** Exact comparison is comparison of the token. */
  lemma ExactToken(d: Bytes, s: nat, e: nat, key: Bytes)
    requires s <= e <= |d|
    ensures TokenIs(d, s, e, key, false) <==> d[s..e] == key
  {
    if e - s == |key| {
      SpellsExactly(d, s, key, 0);
      assert d[s..e] == key <==> forall i | 0 <= i < |key| :: d[s..e][i] == key[i];
    }
  }

  lemma {:induction false} SpellsSame(d: Bytes, s: nat, d': Bytes, s': nat, key: Bytes, fold: bool, k: nat)
    requires s + |key| <= |d| && s' + |key| <= |d'|
    requires forall i | s <= i < s + |key| :: d[i] == d'[i - s + s']
    ensures Spells(d, s, key, fold, k) == Spells(d', s', key, fold, k)
    decreases |key| - k
  {
    if k < |key| {
      SpellsSame(d, s, d', s', key, fold, k + 1);
    }
  }

  /** The same text at another place is the same token. */
  lemma SameToken(d: Bytes, s: nat, d': Bytes, s': nat, n: nat, key: Bytes, fold: bool)
    requires s + n <= |d| && s' + n <= |d'|
    requires forall i | s <= i < s + n :: d[i] == d'[i - s + s']
    ensures TokenIs(d, s, s + n, key, fold) == TokenIs(d', s', s' + n, key, fold)
  {
    if n == |key| {
      SpellsSame(d, s, d', s', key, fold, 0);
    }
  }

  lemma {:induction false} ExactSpellsFold(d: Bytes, s: nat, key: Bytes, k: nat)
    requires s + |key| <= |d| && Spells(d, s, key, false, k)
    ensures Spells(d, s, key, true, k)
    decreases |key| - k
  {
    if k < |key| {
      ExactSpellsFold(d, s, key, k + 1);
    }
  }

  predicate CommentAt(d: Bytes, i: nat) {
    && i < |d|
    && (d[i] == '#' || (d[i] == '/' && i + 1 < |d| && d[i + 1] == '/'))
    && (i == 0 || IsSpace(d[i - 1]))
  }

  // ----- runs of characters

  function SkipSpace(d: Bytes, i: nat): (r: nat)
    requires i <= |d|
    ensures i <= r <= |d|
    ensures r < |d| ==> !IsSpace(d[r])
    decreases |d| - i
  {
    if i < |d| && IsSpace(d[i]) then SkipSpace(d, i + 1) else i
  }

  function WordEnd(d: Bytes, i: nat): (r: nat)
    requires i <= |d|
    ensures i <= r <= |d|
    ensures r < |d| ==> !IsIdent(d[r])
    decreases |d| - i
  {
    if i < |d| && IsIdent(d[i]) then WordEnd(d, i + 1) else i
  }

  function LineEnd(d: Bytes, i: nat): (r: nat)
    requires i <= |d|
    ensures i <= r <= |d|
    ensures r < |d| ==> d[r] == '\n'
    decreases |d| - i
  {
    if i < |d| && d[i] != '\n' then LineEnd(d, i + 1) else i
  }

  function TrimRight(d: Bytes, start: nat, end: nat): (r: nat)
    requires start <= end <= |d|
    ensures start <= r <= end
    ensures r > start ==> !IsSpace(d[r - 1])
    decreases end
  {
    if end > start && IsSpace(d[end - 1]) then TrimRight(d, start, end - 1) else end
  }

  lemma {:induction false} SpaceRun(d: Bytes, i: nat)
    requires i <= |d|
    ensures forall k | i <= k < SkipSpace(d, i) :: IsSpace(d[k])
    decreases |d| - i
  {
    if i < |d| && IsSpace(d[i]) {
      SpaceRun(d, i + 1);
    }
  }

  lemma {:induction false} WordRun(d: Bytes, i: nat)
    requires i <= |d|
    ensures forall k | i <= k < WordEnd(d, i) :: IsIdent(d[k])
    decreases |d| - i
  {
    if i < |d| && IsIdent(d[i]) {
      WordRun(d, i + 1);
    }
  }

  lemma {:induction false} LineRun(d: Bytes, i: nat)
    requires i <= |d|
    ensures forall k | i <= k < LineEnd(d, i) :: d[k] != '\n'
    decreases |d| - i
  {
    if i < |d| && d[i] != '\n' {
      LineRun(d, i + 1);
    }
  }

  lemma {:induction false} TrimRun(d: Bytes, start: nat, end: nat)
    requires start <= end <= |d|
    ensures forall k | TrimRight(d, start, end) <= k < end :: IsSpace(d[k])
    decreases end
  {
    if end > start && IsSpace(d[end - 1]) {
      TrimRun(d, start, end - 1);
    }
  }

  // ----- modes

  datatype Mode = Code | Word | Text | Escape | Comment

  predicate Open(m: Mode) {
    m.Code? || m.Word?
  }

  function Next(d: Bytes, i: nat, m: Mode): Mode
    requires i < |d|
  {
    match m
    case Comment => if d[i] == '\n' then Code else Comment
    case Text => if d[i] == '\\' then Escape else if d[i] == '"' then Code else Text
    case Escape => Text
    case _ =>
      if CommentAt(d, i) then Comment
      else if d[i] == '"' then Text
      else if IsIdentStart(d[i]) || (m.Word? && IsIdent(d[i])) then Word
      else Code
  }

  /** The mode in which position `i` is read by a scan that starts in code at `from`. */
  function ModeAt(d: Bytes, from: nat, i: nat): Mode
    requires from <= i <= |d|
    decreases i
  {
    if i == from then Code else Next(d, i - 1, ModeAt(d, from, i - 1))
  }

  /** Position `i` holds an ordinary character of code: no string, no comment, no quote. */
  predicate CodeAt(d: Bytes, from: nat, i: nat) {
    from <= i < |d| && Open(ModeAt(d, from, i)) && !CommentAt(d, i) && d[i] != '"'
  }

  /** Scans that start at different points agree once one step leads both to the same mode. */
  lemma {:induction false} Rebase(d: Bytes, f: nat, g: nat, q: nat, k: nat)
    requires f <= q < k <= |d| && g <= q
    requires Next(d, q, ModeAt(d, f, q)) == Next(d, q, ModeAt(d, g, q))
    ensures ModeAt(d, f, k) == ModeAt(d, g, k)
  {
    if k > q + 1 {
      Rebase(d, f, g, q, k - 1);
    }
  }

  /** Two open scans agree on what is code from there on. */
  lemma {:induction false} OpenRebase(d: Bytes, f: nat, g: nat, q: nat, k: nat)
    requires f <= q <= k <= |d| && g <= q
    requires Open(ModeAt(d, f, q)) && Open(ModeAt(d, g, q))
    ensures Open(ModeAt(d, f, k)) == Open(ModeAt(d, g, k))
    ensures !Open(ModeAt(d, f, k)) ==> ModeAt(d, f, k) == ModeAt(d, g, k)
  {
    if k > q {
      OpenRebase(d, f, g, q, k - 1);
    }
  }

  // ----- the three index jumps

  lemma {:induction false} CommentJump(d: Bytes, f: nat, i: nat, k: nat)
    requires f <= i < |d| && i < k <= LineEnd(d, i) && Open(ModeAt(d, f, i)) && CommentAt(d, i)
    ensures ModeAt(d, f, k) == Comment
    decreases k
  {
    LineRun(d, i);
    if k > i + 1 {
      CommentJump(d, f, i, k - 1);
    }
  }

  lemma {:induction false} WordJump(d: Bytes, f: nat, s: nat, k: nat)
    requires f <= s < |d| && s < k <= WordEnd(d, s) && Open(ModeAt(d, f, s)) && IsIdentStart(d[s])
    ensures ModeAt(d, f, k) == Word
    decreases k
  {
    WordRun(d, s);
    if k > s + 1 {
      WordJump(d, f, s, k - 1);
    }
  }

  lemma {:induction false} SpaceJump(d: Bytes, f: nat, s: nat, k: nat)
    requires f <= s < |d| && s < k <= SkipSpace(d, s) && Open(ModeAt(d, f, s))
    ensures ModeAt(d, f, k) == Code
    decreases k
  {
    SpaceRun(d, s);
    if k > s + 1 {
      SpaceJump(d, f, s, k - 1);
    }
  }

  /** Position `k` is read inside a string. */
  predicate TextAt(d: Bytes, f: nat, k: nat) {
    f <= k <= |d| && (ModeAt(d, f, k).Text? || ModeAt(d, f, k).Escape?)
  }

  /** Where the string opened at `q` closes: the position of its closing quote. */
  function StringEnd(d: Bytes, q: nat, i: nat): (r: Option<nat>)
    requires q < i <= |d| && TextAt(d, q, i)
    ensures r.Some? ==>
              && i <= r.value < |d| && d[r.value] == '"'
              && (forall k | i <= k <= r.value :: TextAt(d, q, k))
              && ModeAt(d, q, r.value + 1) == Code
    ensures r.None? ==> forall k | i <= k <= |d| :: TextAt(d, q, k)
    decreases |d| - i
  {
    if i == |d| then None
    else if ModeAt(d, q, i).Text? && d[i] == '"' then Some(i)
    else StringEnd(d, q, i + 1)
  }

  // ----- assignments

  datatype Span = Span(keyStart: nat, keyEnd: nat, equal: nat, valueStart: nat)

  /** The token that starts at `s` is `key`, and `=` follows it. */
  predicate Bound(d: Bytes, s: nat, key: Bytes, fold: bool) {
    && s < |d|
    && TokenIs(d, s, WordEnd(d, s), key, fold)
    && var j := SkipSpace(d, WordEnd(d, s)); j < |d| && d[j] == '='
  }

  /** An assignment to `key` starts at `s`: a whole identifier token, read as code, then `=`. */
  predicate AssignAt(d: Bytes, from: nat, s: nat, key: Bytes, fold: bool) {
    && from <= s < |d|
    && ModeAt(d, from, s) == Code
    && IsIdentStart(d[s])
    && Bound(d, s, key, fold)
  }

  function SpanAt(d: Bytes, s: nat): (r: Span)
    requires s < |d| && IsIdentStart(d[s])
    requires SkipSpace(d, WordEnd(d, s)) < |d|
    ensures s == r.keyStart < r.keyEnd <= r.equal < r.valueStart <= |d|
  {
    var e := WordEnd(d, s);
    var j := SkipSpace(d, e);
    Span(s, e, j, SkipSpace(d, j + 1))
  }

  function FirstAssign(d: Bytes, from: nat, i: nat, key: Bytes, fold: bool): (r: Option<nat>)
    ensures r.Some? ==> i <= r.value && AssignAt(d, from, r.value, key, fold)
    decreases |d| - i
  {
    if i >= |d| then None
    else if AssignAt(d, from, i, key, fold) then Some(i)
    else FirstAssign(d, from, i + 1, key, fold)
  }

  /** The leftmost assignment to `key` in a scan from `from`. */
  function Assignment(d: Bytes, key: Bytes, from: nat, fold: bool): (r: Option<Span>)
    ensures r.Some? ==>
              && AssignAt(d, from, r.value.keyStart, key, fold)
              && r.value == SpanAt(d, r.value.keyStart)
              && r.value.keyStart < r.value.valueStart <= |d|
  {
    match FirstAssign(d, from, from, key, fold)
    case None => None
    case Some(s) => Some(SpanAt(d, s))
  }

  lemma {:induction false} FirstAssignIsFirst(d: Bytes, from: nat, i: nat, key: Bytes, fold: bool, s: nat)
    requires i <= s && AssignAt(d, from, s, key, fold)
    ensures FirstAssign(d, from, i, key, fold).Some? && FirstAssign(d, from, i, key, fold).value <= s
    decreases s - i
  {
    if i < s {
      FirstAssignIsFirst(d, from, i + 1, key, fold, s);
    }
  }

  /** `Assignment` is leftmost: no assignment starts before the one it returns. */
  lemma AssignmentIsFirst(d: Bytes, key: Bytes, from: nat, fold: bool, s: nat)
    requires AssignAt(d, from, s, key, fold)
    ensures Assignment(d, key, from, fold).Some? && Assignment(d, key, from, fold).value.keyStart <= s
  {
    FirstAssignIsFirst(d, from, from, key, fold, s);
  }

  lemma AssignmentIsUnique(d: Bytes, key: Bytes, from: nat, fold: bool, s: nat)
    requires AssignAt(d, from, s, key, fold)
    requires forall s': nat | s' < s :: !AssignAt(d, from, s', key, fold)
    ensures Assignment(d, key, from, fold) == Some(SpanAt(d, s))
  {
    AssignmentIsFirst(d, key, from, fold, s);
  }

  // ----- scalar values

  predicate IsEnder(c: char) {
    c == ';' || c == '\n' || c == '\r'
  }

  predicate IsBracket(c: char) {
    c == '{' || c == '}' || c == '(' || c == ')'
  }

  /** A scalar scan from `from` stops at `i`. */
  predicate StopAt(d: Bytes, from: nat, i: nat) {
    && from <= i < |d|
    && Open(ModeAt(d, from, i))
    && (CommentAt(d, i) || IsEnder(d[i]) || IsBracket(d[i]))
  }

  function FirstStop(d: Bytes, from: nat, i: nat): (r: nat)
    requires from <= i <= |d|
    ensures i <= r <= |d|
    ensures r < |d| ==> StopAt(d, from, r)
    decreases |d| - i
  {
    if i == |d| || StopAt(d, from, i) then i else FirstStop(d, from, i + 1)
  }

  function ValueStop(d: Bytes, from: nat): (r: nat)
    requires from <= |d|
    ensures from <= r <= |d|
    ensures r < |d| ==> StopAt(d, from, r)
  {
    FirstStop(d, from, from)
  }

  lemma {:induction false} FirstStopIsFirst(d: Bytes, from: nat, i: nat, k: nat)
    requires from <= i <= k <= |d| && StopAt(d, from, k)
    ensures FirstStop(d, from, i) <= k
    decreases k - i
  {
    if i < k {
      FirstStopIsFirst(d, from, i + 1, k);
    }
  }

  lemma NoStopBefore(d: Bytes, from: nat, k: nat)
    requires from <= |d| && k < ValueStop(d, from)
    ensures !StopAt(d, from, k)
  {
    if StopAt(d, from, k) {
      FirstStopIsFirst(d, from, from, k);
    }
  }

  /** Does the scan that stopped at `t` yield a scalar, rather than a bracket or an open string? */
  predicate Closes(d: Bytes, from: nat, t: nat)
    requires from <= t <= |d|
  {
    if t == |d| then Open(ModeAt(d, from, t)) else CommentAt(d, t) || IsEnder(d[t])
  }

  function ScalarEnd(d: Bytes, from: nat): (r: Option<nat>)
    requires from <= |d|
    ensures r.Some? ==> from <= r.value <= ValueStop(d, from)
  {
    var t := ValueStop(d, from);
    if Closes(d, from, t) then Some(TrimRight(d, from, t)) else None
  }

  lemma StopIsUnique(d: Bytes, from: nat, t: nat)
    requires from <= t <= |d|
    requires forall k | from <= k < t :: !StopAt(d, from, k)
    requires t < |d| ==> StopAt(d, from, t)
    ensures ValueStop(d, from) == t
  {
    if t < |d| {
      FirstStopIsFirst(d, from, from, t);
    }
  }

  /** Before its first stop a scalar scan is never inside a comment. */
  lemma {:induction false} NoCommentBeforeStop(d: Bytes, from: nat, k: nat)
    requires from <= |d| && from <= k <= ValueStop(d, from)
    ensures ModeAt(d, from, k) != Comment
    decreases k
  {
    if k > from {
      NoCommentBeforeStop(d, from, k - 1);
      NoStopBefore(d, from, k - 1);
    }
  }

  /** What a scalar scan from `f` reads. */
  function ScalarText(d: Bytes, f: nat): Option<Bytes>
    requires f <= |d|
  {
    match ScalarEnd(d, f) case None => None case Some(e) => Some(d[f..e])
  }

  /** The text of the first assignment to `key`, if it has a scalar value. */
  function ReadScalar(d: Bytes, key: Bytes, fold: bool): (r: Option<Bytes>)
  {
    match Assignment(d, key, 0, fold)
    case None => None
    case Some(sp) => ScalarText(d, sp.valueStart)
  }

  // ----- matching delimiters

  /** Nesting depth gained over [from, i), counting only code. */
  function Depth(d: Bytes, from: nat, i: nat, open: char, close: char): int
    requires from <= i <= |d|
    decreases i
  {
    if i == from then 0
    else Depth(d, from, i - 1, open, close) + DepthStep(d, from, i - 1, open, close)
  }

  function DepthStep(d: Bytes, from: nat, i: nat, open: char, close: char): int {
    if !CodeAt(d, from, i) then 0
    else if d[i] == open then 1
    else if d[i] == close then -1
    else 0
  }

  /** `p` closes the delimiter opened at `from`. */
  predicate CloseAt(d: Bytes, from: nat, p: nat, open: char, close: char) {
    && CodeAt(d, from, p)
    && d[p] != open && d[p] == close
    && Depth(d, from, p + 1, open, close) == 0
  }

  function FirstClose(d: Bytes, from: nat, i: nat, open: char, close: char): (r: Option<nat>)
    requires from <= i
    ensures r.Some? ==> i <= r.value && CloseAt(d, from, r.value, open, close)
    decreases |d| - i
  {
    if i >= |d| then None
    else if CloseAt(d, from, i, open, close) then Some(i)
    else FirstClose(d, from, i + 1, open, close)
  }

  /** The first position at which the depth opened at `from` is closed again. */
  function MatchingClose(d: Bytes, from: nat, open: char, close: char): (r: Option<nat>)
    ensures r.Some? ==> CloseAt(d, from, r.value, open, close)
  {
    FirstClose(d, from, from, open, close)
  }

  lemma {:induction false} FirstCloseIsFirst(d: Bytes, from: nat, i: nat, open: char, close: char, p: nat)
    requires from <= i <= p && CloseAt(d, from, p, open, close)
    ensures FirstClose(d, from, i, open, close).Some? && FirstClose(d, from, i, open, close).value <= p
    decreases p - i
  {
    if i < p {
      FirstCloseIsFirst(d, from, i + 1, open, close, p);
    }
  }

  /** The match is unique: the first close, or none at all. */
  lemma MatchIsUnique(d: Bytes, from: nat, open: char, close: char, r: Option<nat>)
    requires r.Some? ==> CloseAt(d, from, r.value, open, close)
    requires forall p: nat | p < (if r.Some? then r.value else |d|) :: !CloseAt(d, from, p, open, close)
    ensures MatchingClose(d, from, open, close) == r
  {
    if r.Some? {
      FirstCloseIsFirst(d, from, from, open, close, r.value);
    }
  }

  /** Positions that are not code leave the depth alone. */
  lemma {:induction false} DepthFlat(d: Bytes, from: nat, i: nat, j: nat, open: char, close: char)
    requires from <= i <= j <= |d|
    requires forall k | i <= k < j :: !CodeAt(d, from, k)
    ensures Depth(d, from, j, open, close) == Depth(d, from, i, open, close)
    decreases j
  {
    if j > i {
      DepthFlat(d, from, i, j - 1, open, close);
    }
  }
}
