/**
 The line that the renderer writes is read back as the value.
 */
module IniValues {
  import opened Lexer
  import opened Splice
  import opened Text
  import opened Ini
  import opened IniLines

  /** A value the reader takes as it stands: trimmed, one line, not quoted, quotes closed, no comment, no final semicolon. */
  predicate SafeIni(v: Bytes) {
    && IsTrimmed(v) && '\n' !in v && (v == [] || v[|v| - 1] != ';')
    && !(|v| >= 2 && v[0] == '"' && v[|v| - 1] == '"')
    && Open(ModeAt(v, 0, |v|))
    && forall k | 0 <= k < |v| :: !(Open(ModeAt(v, 0, k)) && CommentAt(v, k))
  }

  /** Text without quotes, comments and a final semicolon is safe. */
  lemma PlainIsSafe(v: Bytes)
    requires IsTrimmed(v) && '\n' !in v && (v == [] || v[|v| - 1] != ';') && forall i | 0 <= i < |v| :: IsPlain(v[i])
    ensures SafeIni(v)
  {
    assert v != [] ==> IsPlain(v[0]);
    PlainRun(v, 0, 0, |v|);
    forall k | 0 <= k < |v| ensures !CommentAt(v, k) {
      assert IsPlain(v[k]);
    }
  }

  /** Blanks in front of a key. */
  predicate IsLead(s: Bytes) {
    forall i | 0 <= i < |s| :: IsBlank(s[i]) && s[i] != '\n'
  }

  /** A remark is absent, or a '#' after a space. */
  predicate IsRemarkText(r: Bytes) {
    r == [] || (|r| >= 2 && r[0] == ' ' && r[1] == '#')
  }

  function Prefix(lead: Bytes, key: Bytes): Bytes {
    lead + key + " = "
  }

  function Written(lead: Bytes, key: Bytes, value: Bytes, remark: Bytes): Bytes {
    Prefix(lead, key) + value + remark
  }

  lemma PrefixChars(lead: Bytes, key: Bytes, k: nat)
    requires IsLead(lead) && IsName(key) && k < |Prefix(lead, key)|
    ensures var p := Prefix(lead, key);
            && IsPlain(p[k])
            && (k < |lead| ==> p[k] == lead[k] && IsBlank(p[k]))
            && (|lead| <= k < |lead| + |key| ==> p[k] == key[k - |lead|] && IsIdent(p[k]))
            && (k == |lead| + |key| ==> p[k] == ' ')
            && (k == |lead| + |key| + 1 ==> p[k] == '=')
            && (k == |lead| + |key| + 2 ==> p[k] == ' ')
  {
    var p := Prefix(lead, key);
    assert p == lead + (key + " = ");
    if k < |lead| {
      assert p[k] == lead[k];
    } else {
      assert p[k] == (key + " = ")[k - |lead|];
    }
  }

  lemma PrefixStands(lead: Bytes, key: Bytes, rest: Bytes)
    requires IsLead(lead) && IsName(key)
    ensures KeyStands(Prefix(lead, key) + rest, |lead|, key, |lead| + |key| + 1)
  {
    hide IsLead, IsName, Prefix;
    PrefixLength(lead, key);
    var p, s := Prefix(lead, key), Prefix(lead, key) + rest;
    forall k | 0 <= k < |p|
      ensures s[k] == p[k]
      ensures k < |lead| ==> IsBlank(p[k])
      ensures |lead| <= k < |lead| + |key| ==> p[k] == key[k - |lead|]
    {
      PrefixChars(lead, key, k);
    }
    PrefixChars(lead, key, |lead| + |key|);
    PrefixChars(lead, key, |lead| + |key| + 1);
    assert s[|lead|..|lead| + |key|] == key;
  }

  lemma PrefixLength(lead: Bytes, key: Bytes)
    ensures |Prefix(lead, key)| == |lead| + |key| + 3
  {}

  /** Up to the value, the line is code without comments. */
  lemma PrefixIsCode(lead: Bytes, key: Bytes, rest: Bytes)
    requires IsLead(lead) && IsName(key)
    ensures var p := Prefix(lead, key);
            && ModeAt(p + rest, 0, |p|) == Code
            && forall k | 0 <= k < |p| :: !CommentAt(p + rest, k)
  {
    hide IsLead, IsName, Prefix;
    PrefixLength(lead, key);
    var p, s := Prefix(lead, key), Prefix(lead, key) + rest;
    forall k | 0 <= k < |p| ensures s[k] == p[k] && IsPlain(s[k]) {
      PrefixChars(lead, key, k);
    }
    PlainRun(s, 0, 0, |p| - 1);
    PrefixChars(lead, key, |p| - 1);
  }

  lemma ValueFits(value: Bytes, remark: Bytes)
    requires SafeIni(value) && IsRemarkText(remark)
    ensures Fits(value, remark)
  {
    assert value != [] ==> ModeAt(value, 0, 0) == Code;
  }

  /** Where the comment of the written line starts. */
  lemma WrittenComment(lead: Bytes, key: Bytes, value: Bytes, remark: Bytes)
    requires IsLead(lead) && IsName(key) && SafeIni(value) && IsRemarkText(remark)
    ensures var s := Written(lead, key, value, remark);
            CommentStart(s, 0) == |Prefix(lead, key)| + |value| + (if remark == [] then 0 else 1)
  {
    hide IsLead, IsName, Prefix, SafeIni, ModeAt, CommentAt;
    var p, s := Prefix(lead, key), Written(lead, key, value, remark);
    assert s == p + (value + remark);
    PrefixIsCode(lead, key, value + remark);
    ValueFits(value, remark);
    forall k | |p| <= k < |p| + |value| ensures !(Open(ModeAt(s, 0, k)) && CommentAt(s, k)) {
      ValueInPlace(p, value, remark, k - |p|);
    }
    ValueInPlace(p, value, remark, |value|);
    RemarkInPlace(s, |p| + |value|, remark);
    CommentIs(s, 0, |p| + |value| + (if remark == [] then 0 else 1));
  }

  /** A safe value is read in place as it is on its own. */
  lemma ValueInPlace(p: Bytes, value: Bytes, remark: Bytes, k: nat)
    requires SafeIni(value) && Fits(value, remark) && k <= |value| && ModeAt(p + value + remark, 0, |p|) == Code
    ensures k == |value| ==> Open(ModeAt(p + value + remark, 0, |p| + k))
    ensures k < |value| ==> !(Open(ModeAt(p + value + remark, 0, |p| + k)) && CommentAt(p + value + remark, |p| + k))
  {
    MiddleModes(p, value, remark, 0, k);
    if k < |value| {
      MiddleComment(p, value, remark, k);
    }
  }

  /** The remark is a comment, right after its space. */
  lemma RemarkInPlace(s: Bytes, i: nat, remark: Bytes)
    requires IsRemarkText(remark) && i + |remark| == |s| && s[i..] == remark && Open(ModeAt(s, 0, i))
    ensures remark != [] ==> !CommentAt(s, i) && Open(ModeAt(s, 0, i + 1)) && CommentAt(s, i + 1)
  {
    if remark != [] {
      assert s[i] == s[i..][0] == ' ' && s[i + 1] == s[i..][1] == '#';
    }
  }

  /** What is left of the written line without its comment. */
  lemma WrittenTrimmed(lead: Bytes, key: Bytes, value: Bytes, remark: Bytes)
    requires IsLead(lead) && IsName(key) && SafeIni(value) && IsRemarkText(remark)
    ensures StripComment(Written(lead, key, value, remark)) == (if value == [] then key + " =" else key + " = " + value)
  {
    hide IsLead, IsName, Prefix, Trim, ModeAt, CommentStart, CommentAt;
    var p, s := Prefix(lead, key), Written(lead, key, value, remark);
    WrittenComment(lead, key, value, remark);
    PrefixLength(lead, key);
    var tail: Bytes := if remark == [] then [] else [' '];
    var t := s[..CommentStart(s, 0)];
    assert t == p + (value + tail);
    PrefixStands(lead, key, value + tail);
    StrippedText(t, lead, key, value, tail);
  }

  lemma StrippedText(t: Bytes, lead: Bytes, key: Bytes, value: Bytes, tail: Bytes)
    requires IsLead(lead) && IsName(key) && IsTrimmed(value) && (tail == [] || tail == [' '])
    requires t == Prefix(lead, key) + (value + tail) && KeyStands(t, |lead|, key, |lead| + |key| + 1)
    ensures Trim(t) == (if value == [] then key + " =" else key + " = " + value)
  {
    hide IsName, Trim, KeyStands, IsLead;
    var a, b := |lead|, if value == [] then |lead| + |key| + 2 else |lead| + |key| + 3 + |value|;
    NameIsNotEmpty(key);
    KeyChars(t, a, key, a + |key| + 1, a);
    StandsFacts(t, a, key, a + |key| + 1);
    StrippedEnds(t, lead, key, value, tail);
    TrimIs(t, a, b);
  }

  lemma StandsFacts(s: Bytes, a: nat, w: Bytes, q: nat)
    requires KeyStands(s, a, w, q)
    ensures q < |s| && Blank(s, 0, a)
  {}

  lemma StrippedEnds(t: Bytes, lead: Bytes, key: Bytes, value: Bytes, tail: Bytes)
    requires IsTrimmed(value) && (tail == [] || tail == [' ']) && t == Prefix(lead, key) + (value + tail)
    ensures var a, b := |lead|, if value == [] then |lead| + |key| + 2 else |lead| + |key| + 3 + |value|;
            && b <= |t| && Blank(t, b, |t|) && !IsBlank(t[b - 1])
            && t[a..b] == (if value == [] then key + " =" else key + " = " + value)
  {
    if value == [] {
      var b := |lead| + |key| + 2;
      assert t == lead + (key + " =") + (" " + tail);
      assert t[b - 1] == '=';
    } else {
      var b := |lead| + |key| + 3 + |value|;
      assert t == lead + (key + " = " + value) + tail;
      assert t[b - 1] == value[|value| - 1];
    }
  }

  /** The written line is read as the value. */
  lemma WrittenItem(lead: Bytes, key: Bytes, value: Bytes, remark: Bytes)
    requires IsLead(lead) && IsName(key) && SafeIni(value) && IsRemarkText(remark)
    ensures ItemOf(Written(lead, key, value, remark)) == Entry(Lower(key), value)
  {
    hide IsLead, Prefix, Trim, ModeAt, StripComment, AssignmentLine, Lower, Unquote, Written;
    var s := Written(lead, key, value, remark);
    WrittenTrimmed(lead, key, value, remark);
    var x := if value == [] then key + " =" else key + " = " + value;
    assert x[0] == key[0];
    TrimOfTrimmed(x);
    assert IsTrimmed(x);
    EntryText(x, key, value);
    SafeUnquotes(value);
  }

  lemma AfterKey(key: Bytes, y: Bytes)
    requires IsName(key) && |y| >= 2 && y[0] == ' ' && y[1] == '='
    ensures var x := key + y;
            && x[0] == key[0] && WordEnd(x, 0) == |key| && SkipSpace(x, |key|) == |key| + 1 && x[|key| + 1] == '='
            && x[..|key|] == key && x[|key| + 2..] == y[2..]
  {
    var x := key + y;
    WordFrom(x, 0, |key|);
  }

  lemma EntryText(x: Bytes, key: Bytes, value: Bytes)
    requires IsName(key) && IsTrimmed(value) && (value == [] || value[|value| - 1] != ';')
    requires x == if value == [] then key + " =" else key + " = " + value
    ensures AssignmentLine(x) == Some((key, value))
  {
    hide Trim, WordEnd, SkipSpace;
    var y := if value == [] then " =" else " = " + value;
    assert x == key + y;
    AfterKey(key, y);
    TrimOfTrimmed(x);
    assert x[|x| - 1] == y[|y| - 1];
    var rest := y[2..];
    if value == [] {
      assert rest == [];
      TrimOfTrimmed(rest);
    } else {
      assert rest == " " + value;
      assert rest[1..|rest|] == value;
      TrimIs(rest, 1, |rest|);
    }
  }

  lemma SafeUnquotes(value: Bytes)
    requires SafeIni(value)
    ensures Unquote(value) == value
  {
    TrimOfTrimmed(value);
  }
}
