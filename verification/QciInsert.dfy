/**
 Inserting a new assignment line before the closing brace of a container.
 */
module QciInsert {
  import opened Lexer
  import opened Splice
  import opened Cutting
  import opened Overlay
  import opened Batch
  import opened Numbers
  import opened Config
  import opened Brackets
  import opened Twins
  import opened Qci
  import opened QciFile
  import opened QciPatch

  // ----- the new line

  /** A line of blanks `w`, the field, and its number stands at `m`. */
  ghost predicate LineAt(d: Bytes, m: nat, w: nat, field: Bytes, value: Bytes) {
    var fs, fe := m + w, m + w + |field|;
    var vs := fe + 3;
    && w > 0 && IsName(field) && IsNumberText(value) && vs + |value| + 2 <= |d|
    && (forall i | m <= i < fs :: IsSpace(d[i]))
    && (forall i | fs <= i < fe :: d[i] == field[i - fs])
    && d[fe] == ' ' && d[fe + 1] == '=' && d[fe + 2] == ' '
    && (forall i | vs <= i < vs + |value| :: d[i] == value[i - vs])
    && d[vs + |value|] == ';' && d[vs + |value| + 1] == '\n'
  }

  function LineLength(w: nat, field: Bytes, value: Bytes): nat {
    w + |field| + |value| + 5
  }

  /** Characters that neither open a string nor a comment, nor are brackets. */
  predicate IsDull(c: char) {
    IsPlain(c) && !IsBracket(c)
  }

  lemma LineIsDull(d: Bytes, m: nat, w: nat, field: Bytes, value: Bytes, k: nat)
    requires LineAt(d, m, w, field, value) && m <= k < m + LineLength(w, field, value)
    ensures k < |d| && IsDull(d[k])
  {
    var fs, fe := m + w, m + w + |field|;
    if fs <= k < fe {
      assert IsIdent(field[k - fs]);
    } else if fe + 3 <= k < fe + 3 + |value| {
      assert IsNumberChar(value[k - fe - 3]);
    }
  }

  lemma LineFits(d: Bytes, m: nat, w: nat, field: Bytes, value: Bytes)
    requires LineAt(d, m, w, field, value)
    ensures m + LineLength(w, field, value) <= |d|
  {}

  /** The scan stays in code over the line, and the line holds no bracket. */
  lemma LineIsOpen(d: Bytes, m: nat, w: nat, field: Bytes, value: Bytes, k: nat)
    requires LineAt(d, m, w, field, value) && OpenAt(d, m) && m <= k <= m + LineLength(w, field, value)
    ensures OpenAt(d, k) && (k < m + LineLength(w, field, value) ==> !BracketAt(d, k))
  {
    hide LineAt;
    forall i | m <= i < m + LineLength(w, field, value) ensures i < |d| && IsDull(d[i]) {
      LineIsDull(d, m, w, field, value, i);
    }
    LineFits(d, m, w, field, value);
    PlainRun(d, 0, m, k);
  }

  lemma LineSpan(d: Bytes, m: nat, w: nat, field: Bytes, value: Bytes)
    requires LineAt(d, m, w, field, value)
    ensures var fs, fe := m + w, m + w + |field|;
            && fs < |d| && IsIdentStart(d[fs]) && WordEnd(d, fs) == fe && SkipSpace(d, fe) == fe + 1
            && SpanAt(d, fs) == Span(fs, fe, fe + 1, fe + 3)
  {
    var fs, fe := m + w, m + w + |field|;
    assert d[fs] == field[0];
    forall i | fs <= i < fe ensures IsIdent(d[i]) {
      assert d[i] == field[i - fs];
    }
    WordFrom(d, fs, fe);
    assert d[fe + 3] == value[0] && IsNumberChar(value[0]);
    SpaceFrom(d, fe + 2, fe + 3);
  }

  /** The field is assigned on the line. */
  lemma LineAssigns(d: Bytes, m: nat, w: nat, field: Bytes, value: Bytes, fold: bool)
    requires LineAt(d, m, w, field, value) && OpenAt(d, m)
    ensures AssignAt(d, 0, m + w, field, fold)
  {
    LineSpan(d, m, w, field, value);
    LineIsOpen(d, m, w, field, value, m + w - 1);
    assert IsSpace(d[m + w - 1]);
    assert ModeAt(d, 0, m + w) == Code;
    var fs, fe := m + w, m + w + |field|;
    assert d[fs..fe] == field;
    ExactToken(d, fs, fe, field);
    if fold {
      ExactSpellsFold(d, fs, field, 0);
    }
  }

  /** Nothing else is assigned on the line. */
  lemma LineIsQuiet(d: Bytes, m: nat, w: nat, field: Bytes, value: Bytes, s: nat, g: Bytes, fold: bool)
    requires LineAt(d, m, w, field, value) && OpenAt(d, m) && m <= s < m + LineLength(w, field, value)
    requires AssignAt(d, 0, s, g, fold)
    ensures s == m + w && TokenIs(d, m + w, m + w + |field|, g, fold)
  {
    var fs, fe := m + w, m + w + |field|;
    LineSpan(d, m, w, field, value);
    if fs < s < fe {
      LineIsOpen(d, m, w, field, value, fs);
      WordJump(d, 0, fs, s);
    }
  }

  /** The line is read as the number. */
  lemma LineReads(d: Bytes, m: nat, w: nat, field: Bytes, value: Bytes)
    requires LineAt(d, m, w, field, value)
    ensures m + w + |field| + 3 <= |d| && ScalarText(d, m + w + |field| + 3) == Some(value)
    ensures ValueStop(d, m + w + |field| + 3) == m + w + |field| + 3 + |value| && !CommentAt(d, m + w + |field| + 3)
  {
    var vs := m + w + |field| + 3;
    var t := vs + |value|;
    forall k | vs <= k < t ensures IsDull(d[k]) && !StopAt(d, vs, k) {
      assert IsNumberChar(value[k - vs]);
    }
    PlainRun(d, vs, vs, t);
    StopIsUnique(d, vs, t);
    assert d[t - 1] == value[|value| - 1] && IsNumberChar(value[|value| - 1]);
    assert d[vs..t] == value;
  }

  // ----- the inserted text

  lemma IndentIsBlank(b: Bytes, i: nat, pos: nat, k: nat)
    requires i <= pos <= |b| && i <= k < IndentEnd(b, i, pos)
    ensures IsIndent(b[k])
    decreases pos - i
  {}

  lemma NewLineParts(b: Bytes, close: nat, field: Bytes, value: Bytes, p: Bytes, r: Bytes)
    requires close <= |b| && IsName(field) && IsNumberText(value)
    ensures var w := |ClosingIndent(b, close)| + 2;
            && LineAt(p + NewLine(b, close, field, value) + r, |p|, w, field, value)
            && |NewLine(b, close, field, value)| == LineLength(w, field, value)
            && IsSpace(NewLine(b, close, field, value)[0])
  {
    var indent := ClosingIndent(b, close);
    forall i | 0 <= i < |indent| ensures IsSpace(indent[i]) {
      IndentIsBlank(b, LineStart(b, close), close, LineStart(b, close) + i);
    }
    LineParts(indent, field, value, p, r);
  }

  lemma LineParts(indent: Bytes, field: Bytes, value: Bytes, p: Bytes, r: Bytes)
    requires IsName(field) && IsNumberText(value) && forall i | 0 <= i < |indent| :: IsSpace(indent[i])
    ensures var v := indent + "  " + (field + " = " + value + ";") + "\n";
            && LineAt(p + v + r, |p|, |indent| + 2, field, value) && |v| == LineLength(|indent| + 2, field, value)
            && IsSpace(v[0])
  {
    hide IsName, IsNumberText, LineAt;
    var v, w := indent + "  " + (field + " = " + value + ";") + "\n", indent + "  ";
    var tail := " = " + (value + ";\n");
    assert v == w + (field + tail);
    assert p + v + r == (p + w) + (field + (tail + r));
    assert forall i | |p| <= i < |p| + |w| :: (p + w)[i] == w[i - |p|];
    TailParts(field, value, tail + r, r);
    LineFromParts(p + w, field + (tail + r), |p|, |w|, field, value);
  }

  /** The line after its blanks. */
  ghost predicate TailAt(y: Bytes, field: Bytes, value: Bytes) {
    && |field| + 3 + |value| + 2 <= |y|
    && (forall i | 0 <= i < |field| :: y[i] == field[i])
    && y[|field|] == ' ' && y[|field| + 1] == '=' && y[|field| + 2] == ' '
    && (forall i | 0 <= i < |value| :: y[|field| + 3 + i] == value[i])
    && y[|field| + 3 + |value|] == ';' && y[|field| + 3 + |value| + 1] == '\n'
  }

  lemma TailParts(field: Bytes, value: Bytes, t: Bytes, r: Bytes)
    requires t == " = " + (value + ";\n") + r
    ensures TailAt(field + t, field, value)
  {
    var y := field + t;
    assert t == " = " + (value + (";\n" + r));
    assert forall i | 0 <= i < |t| :: y[|field| + i] == t[i];
    assert y[|field|] == t[0] && y[|field| + 1] == t[1] && y[|field| + 2] == t[2];
    assert forall i | 0 <= i < |value| :: t[3 + i] == value[i];
    assert t[3 + |value|] == ';' && t[3 + |value| + 1] == '\n';
    assert y[|field| + 3 + |value|] == t[3 + |value|] && y[|field| + 3 + |value| + 1] == t[3 + |value| + 1];
  }

  lemma LineFromParts(u: Bytes, y: Bytes, m: nat, w: nat, field: Bytes, value: Bytes)
    requires m + w == |u| && w > 0 && IsName(field) && IsNumberText(value) && TailAt(y, field, value)
    requires forall i | m <= i < m + w :: IsSpace(u[i])
    ensures LineAt(u + y, m, w, field, value)
  {
    hide IsName, IsNumberText;
    assert forall i | 0 <= i < |y| :: (u + y)[|u| + i] == y[i];
    var fe := |u| + |field|;
    assert forall i | |u| <= i < fe :: (u + y)[i] == y[i - |u|];
    assert forall i | fe + 3 <= i < fe + 3 + |value| :: (u + y)[i] == y[|field| + 3 + (i - fe - 3)];
    assert (u + y)[fe] == y[|field|] && (u + y)[fe + 1] == y[|field| + 1] && (u + y)[fe + 2] == y[|field| + 2];
  }

  // ----- inserting before a closing brace

  function Inserted(b: Bytes, close: nat, v: Bytes): Bytes
    requires close <= |b|
  {
    b[..close] + v + b[close..]
  }

  /** A new line for the field stands before the closing brace at `close`. */
  ghost predicate Insertion(b: Bytes, close: nat, v: Bytes, w: nat, field: Bytes, value: Bytes) {
    && close < |b| && BracketAt(b, close) && b[close] == '}' && v != [] && IsSpace(v[0])
    && |v| == LineLength(w, field, value) && LineAt(Inserted(b, close, v), close, w, field, value)
  }

  lemma Rejoin(b: Bytes, close: nat, v: Bytes)
    requires close <= |b|
    ensures b[..close] + [] + b[close..] == b && b[..close] + b[close..] == b && b[..close] + [] == b[..close]
    ensures Inserted(b, close, v) == b[..close] + (v + b[close..])
  {}

  lemma InsertionOpens(b: Bytes, close: nat, v: Bytes, w: nat, field: Bytes, value: Bytes)
    requires Insertion(b, close, v, w, field, value)
    ensures OpenAt(b, close) && OpenAt(Inserted(b, close, v), close) && OpenAt(Inserted(b, close, v), close + |v|)
  {
    hide LineAt;
    Rejoin(b, close, v);
    PrefixModes(b[..close], b[close..], v + b[close..], 0, close);
    LineIsOpen(Inserted(b, close, v), close, w, field, value, close + |v|);
  }

  lemma InsertionSeam(b: Bytes, close: nat, v: Bytes, w: nat, field: Bytes, value: Bytes)
    requires Insertion(b, close, v, w, field, value)
    ensures Seam(b[..close], b[close..], v + b[close..]) && Tail(b[close..]) && Tail(v + b[close..])
  {
    hide BracketAt;
    var r := b[close..];
    var y, fs := v + r, w;
    Rejoin(b, close, v);
    assert forall i | 0 <= i < |y| :: y[i] == Inserted(b, close, v)[close + i];
    LineFits(Inserted(b, close, v), close, w, field, value);
    assert y[fs] == field[0];
    SpaceFrom(y, 0, fs);
  }

  lemma InsertionMeets(b: Bytes, close: nat, v: Bytes, w: nat, field: Bytes, value: Bytes)
    requires Insertion(b, close, v, w, field, value)
    ensures Meet(b[..close], b[..close] + v, b[close..], 0, 0)
  {
    hide LineAt, BracketAt;
    Rejoin(b, close, v);
    InsertionOpens(b, close, v, w, field, value);
    OpenMeet(b[..close], b[..close] + v, b[close..], 0, 0);
  }

  lemma InsertionIsCut(b: Bytes, close: nat, v: Bytes, w: nat, field: Bytes, value: Bytes)
    requires Insertion(b, close, v, w, field, value)
    ensures Cut(b[..close], [], v, b[close..])
  {
    hide LineAt, BracketAt, Meet, Seam, Tail, Firm;
    Rejoin(b, close, v);
    assert [] + b[close..] == b[close..];
    InsertionSeam(b, close, v, w, field, value);
    InsertionMeets(b, close, v, w, field, value);
  }

  lemma InsertionIsTwin(b: Bytes, close: nat, v: Bytes, w: nat, field: Bytes, value: Bytes)
    requires Insertion(b, close, v, w, field, value)
    ensures Twin(b, Inserted(b, close, v), close, 0, |v|)
  {
    hide LineAt, BracketAt, Meet, Seam, Tail, Twin, OpenAt;
    Rejoin(b, close, v);
    assert [] + b[close..] == b[close..];
    InsertionSeam(b, close, v, w, field, value);
    InsertionMeets(b, close, v, w, field, value);
    InsertionOpens(b, close, v, w, field, value);
    forall k | close <= k < close + |v| ensures !BracketAt(Inserted(b, close, v), k) {
      LineIsOpen(Inserted(b, close, v), close, w, field, value, k);
    }
    CutIsTwin(b[..close], [], v, b[close..]);
  }

  /** Keys that the scanners never confuse, in any case. */
  ghost predicate Distinct(field: Bytes, g: Bytes) {
    |field| != |g| || exists i :: 0 <= i < |g| && LowerChar(field[i]) != LowerChar(g[i])
  }

  lemma {:induction false} SpellsApart(d: Bytes, s: nat, g: Bytes, fold: bool, k: nat, i: nat)
    requires s + |g| <= |d| && k <= i < |g| && LowerChar(d[s + i]) != LowerChar(g[i])
    ensures !Spells(d, s, g, fold, k)
    decreases i - k
  {
    if k < i {
      SpellsApart(d, s, g, fold, k + 1, i);
    }
  }

  lemma InsertionIsQuiet(b: Bytes, close: nat, v: Bytes, w: nat, field: Bytes, value: Bytes, g: Bytes, fold: bool)
    requires Insertion(b, close, v, w, field, value) && Distinct(field, g)
    ensures Quiet(b[..close], v, b[close..], g, fold)
  {
    hide LineAt, BracketAt, AssignAt, OpenAt;
    var d := Inserted(b, close, v);
    InsertionOpens(b, close, v, w, field, value);
    forall s | close <= s < close + |v| ensures !AssignAt(d, 0, s, g, fold) {
      if AssignAt(d, 0, s, g, fold) {
        LineIsQuiet(d, close, w, field, value, s, g, fold);
        TokenIsField(d, close, w, field, value, g, fold);
      }
    }
  }

  lemma TokenIsField(d: Bytes, m: nat, w: nat, field: Bytes, value: Bytes, g: Bytes, fold: bool)
    requires LineAt(d, m, w, field, value) && Distinct(field, g)
    ensures !TokenIs(d, m + w, m + w + |field|, g, fold)
  {
    if |field| == |g| {
      var i :| 0 <= i < |g| && LowerChar(field[i]) != LowerChar(g[i]);
      assert d[m + w + i] == field[i];
      SpellsApart(d, m + w, g, fold, 0, i);
    }
  }

  /** A readable key has its value on one side of the brace. */
  lemma InsertionIsApart(b: Bytes, close: nat, g: Bytes, fold: bool)
    requires BracketAt(b, close) && close <= |b| && PlainKey(b, g)
    ensures Apart(b[..close], [], b[close..], g, fold)
  {
    hide BracketAt, AssignAt, SpanAt, Assignment;
    Rejoin(b, close, []);
    assert fold || !fold;
    var a := Assignment(b, g, 0, false);
    if a.Some? && a.value.keyStart < close {
      FirstIsSpan(b, g, a.value);
      ValueBeforeBracket(b, g, false, a.value, close);
    }
  }

  lemma FirstIsSpan(b: Bytes, g: Bytes, sp: Span)
    requires Assignment(b, g, 0, false) == Some(sp)
    ensures IsSpan(b, g, false, sp)
  {}

  /** A name whose value stands on one side of the brace is found again. */
  lemma InsertionFinds(b: Bytes, close: nat, v: Bytes, w: nat, field: Bytes, value: Bytes, g: Bytes, fold: bool)
    requires Insertion(b, close, v, w, field, value) && Distinct(field, g) && Apart(b[..close], [], b[close..], g, fold)
    ensures FoundAgain(b, Inserted(b, close, v), close, |v|, g, fold)
  {
    hide LineAt, BracketAt, Cut, Quiet, Apart, FoundAgain;
    Rejoin(b, close, v);
    InsertionIsCut(b, close, v, w, field, value);
    InsertionIsQuiet(b, close, v, w, field, value, g, fold);
    CutKeepsKey(b[..close], [], v, b[close..], g, fold);
  }

  lemma InsertionLeavesOthers(b: Bytes, close: nat, v: Bytes, w: nat, field: Bytes, value: Bytes, g: Bytes, fold: bool)
    requires Insertion(b, close, v, w, field, value) && Distinct(field, g) && PlainKey(b, g)
    ensures ReadScalar(Inserted(b, close, v), g, fold) == ReadScalar(b, g, fold)
  {
    hide LineAt, BracketAt, Apart, FoundAgain, PlainKey, ReadScalar;
    InsertionIsApart(b, close, g, fold);
    InsertionFinds(b, close, v, w, field, value, g, fold);
    FoundReads(b, Inserted(b, close, v), close, |v|, g, fold);
  }

  /** The inserted field is found on its line and read. */
  lemma InsertionReads(b: Bytes, close: nat, v: Bytes, w: nat, field: Bytes, value: Bytes, fold: bool)
    requires Insertion(b, close, v, w, field, value) && Assignment(b, field, 0, fold) == None
    ensures ReadScalar(Inserted(b, close, v), field, fold) == Some(value)
    ensures var fe := close + w + |field|;
            Assignment(Inserted(b, close, v), field, 0, fold) == Some(Span(close + w, fe, fe + 1, fe + 3))
  {
    hide LineAt, BracketAt, AssignAt, OpenAt, Assignment, ScalarText, SpanAt, Cut, CommentAt;
    var d, s := Inserted(b, close, v), close + w;
    Rejoin(b, close, v);
    InsertionOpens(b, close, v, w, field, value);
    InsertionIsCut(b, close, v, w, field, value);
    LineAssigns(d, close, w, field, value, fold);
    forall k: nat | k < s ensures !AssignAt(d, 0, k, field, fold) {
      if AssignAt(d, 0, k, field, fold) {
        if k < close {
          CutPrefix(b[..close], [], v, b[close..], k, field, fold);
          AssignmentIsFirst(b, field, 0, fold, k);
        } else {
          LineIsQuiet(d, close, w, field, value, k, field, fold);
        }
      }
    }
    AssignmentIsUnique(d, field, 0, fold, s);
    LineSpan(d, close, w, field, value);
    LineReads(d, close, w, field, value);
  }
}
