/**
 The second scanner family, used by the readers of sib.conf and rb.conf. It was written apart
 from `Renderer`: keys match without regard to case, and delimiter matching jumps over strings
 instead of keeping flags. The character-run helpers are the same loops as in `Renderer`.
 */
module TextParser {
  import opened Lexer
  import opened Scanning
  import R = Renderer

  method SkipTextString(src: Bytes, quote: nat) returns (next: nat, ok: bool)
    ensures quote >= |src| || src[quote] != '"' ==> !ok && next == quote
    ensures quote < |src| && src[quote] == '"' ==>
              match StringEnd(src, quote, quote + 1)
              case Some(e) => ok && next == e
              case None => !ok && next == 0
  {
    if quote >= |src| || src[quote] != '"' {
      return quote, false;
    }
    var escaped := false;
    var i := quote + 1;
    while i < |src|
      invariant quote < i <= |src|
      invariant ModeAt(src, quote, i) == if escaped then Escape else Text
      invariant StringEnd(src, quote, i) == StringEnd(src, quote, quote + 1)
    {
      if escaped {
        escaped := false;
      } else if src[i] == '\\' {
        escaped := true;
      } else if src[i] == '"' {
        return i, true;
      }
      i := i + 1;
    }
    return 0, false;
  }

  /** strings.EqualFold of the token at [s, e) and the key. */
  method EqualFold(d: Bytes, s: nat, e: nat, key: Bytes) returns (r: bool)
    requires s <= e <= |d|
    ensures r == TokenIs(d, s, e, key, true)
  {
    if e - s != |key| {
      return false;
    }
    for i := 0 to |key|
      invariant Spells(d, s, key, true, i) == Spells(d, s, key, true, 0)
    {
      if LowerChar(d[s + i]) != LowerChar(key[i]) {
        return false;
      }
    }
    return true;
  }

  method FindAssignmentInText(src: Bytes, key: Bytes, start: int) returns (r: Option<nat>)
    ensures r == match Assignment(src, key, if start < 0 then 0 else start, true)
                 case None => None
                 case Some(sp) => Some(sp.valueStart)
  {
    var from: nat := if start < 0 then 0 else start;
    var i: nat := from;
    while i < |src|
      invariant Passed(src, from, i, key, true)
      decreases |src| - i
    {
      if CommentAt(src, i) {
        CommentStep(src, from, i, key, true);
        i := R.SkipLine(src, i);
      } else if src[i] == '"' {
        var next, ok := SkipTextString(src, i);
        if !ok {
          OpenString(src, from, i, key, true);
          return None;
        }
        StringStep(src, from, i, next, key, true);
        i := next;
      } else if IsIdentStart(src[i]) {
        var begin := i;
        i := R.SkipWord(src, i);
        var j := R.SkipASCIIWhitespace(src, i);
        var same := EqualFold(src, begin, i, key);
        if same && j < |src| && src[j] == '=' {
          var valueStart := R.SkipASCIIWhitespace(src, j + 1);
          WordFound(src, from, begin, key, true);
          return Some(valueStart);
        }
        WordStep(src, from, begin, key, true);
        i := i - 1;
      } else {
        CodeStep(src, from, i, key, true);
      }
      i := i + 1;
    }
    Absent(src, from, key, true);
    return None;
  }

  method FindTextScalarValueEnd(src: Bytes, from: nat) returns (r: Option<nat>)
    requires from <= |src|
    ensures r == ScalarEnd(src, from)
  {
    var i := from;
    while i < |src|
      invariant from <= i <= |src| && Open(ModeAt(src, from, i))
      invariant forall k | from <= k < i :: !StopAt(src, from, k)
    {
      if CommentAt(src, i) {
        StopIsUnique(src, from, i);
        var e := R.TrimRightASCII(src, from, i);
        return Some(e);
      }
      if src[i] == '"' {
        var next, ok := SkipTextString(src, i);
        forall k | i <= k <= (if ok then next else |src|) ensures !StopAt(src, from, k) {
          StringHasNoStop(src, from, i, k);
        }
        if !ok {
          StringHasNoStop(src, from, i, |src|);
          StopIsUnique(src, from, |src|);
          return None;
        }
        StringJump(src, from, i);
        i := next;
      } else if IsEnder(src[i]) {
        StopIsUnique(src, from, i);
        var e := R.TrimRightASCII(src, from, i);
        return Some(e);
      } else if IsBracket(src[i]) {
        StopIsUnique(src, from, i);
        return None;
      }
      i := i + 1;
    }
    StopIsUnique(src, from, |src|);
    var e := R.TrimRightASCII(src, from, |src|);
    return Some(e);
  }

  /** Delimiter matching that jumps over strings. */
  method FindMatchingDelimiter(src: Bytes, open: nat, openCh: char, closeCh: char) returns (r: Option<nat>)
    ensures r == MatchingClose(src, open, openCh, closeCh)
  {
    var depth := 0;
    var i := open;
    while i < |src|
      invariant open <= i
      invariant i <= |src| ==> depth == Depth(src, open, i, openCh, closeCh) && Open(ModeAt(src, open, i))
      invariant forall p | open <= p < i && p < |src| :: !CloseAt(src, open, p, openCh, closeCh)
      decreases |src| - i
    {
      if CommentAt(src, i) {
        CommentFlat(src, open, i, openCh, closeCh);
        i := R.SkipLine(src, i);
      } else if src[i] == '"' {
        StringFlat(src, open, i, openCh, closeCh);
        var next, ok := SkipTextString(src, i);
        if !ok {
          MatchIsUnique(src, open, openCh, closeCh, None);
          return None;
        }
        i := next;
      } else if src[i] == openCh {
        depth := depth + 1;
      } else if src[i] == closeCh {
        depth := depth - 1;
        if depth == 0 {
          MatchIsUnique(src, open, openCh, closeCh, Some(i));
          return Some(i);
        }
      }
      i := i + 1;
    }
    MatchIsUnique(src, open, openCh, closeCh, None);
    return None;
  }

  /**
   The two assignment scanners return the same span on a text exactly when the leftmost
   assignment that matches without regard to case is spelled as the key is.
   */
  lemma AssignmentScannersAgree(d: Bytes, key: Bytes, from: nat)
    ensures Assignment(d, key, from, false) == Assignment(d, key, from, true)
            <==> match Assignment(d, key, from, true)
                 case None => true
                 case Some(sp) => d[sp.keyStart..sp.keyEnd] == key
  {
    var exact, folded := Assignment(d, key, from, false), Assignment(d, key, from, true);
    if exact.Some? {
      ExactSpellsFold(d, exact.value.keyStart, key, 0);
      ExactToken(d, exact.value.keyStart, exact.value.keyEnd, key);
      AssignmentIsFirst(d, key, from, true, exact.value.keyStart);
    }
    if folded.Some? && d[folded.value.keyStart..folded.value.keyEnd] == key {
      ExactToken(d, folded.value.keyStart, folded.value.keyEnd, key);
      AssignmentIsFirst(d, key, from, false, folded.value.keyStart);
    }
  }

  /** Flag-based and jump-based brace matching return the same position on every text. */
  method BraceMatchersAgree(d: Bytes, open: nat) returns (flags: Option<nat>, jumps: Option<nat>)
    ensures flags == jumps == MatchingClose(d, open, '{', '}')
  {
    flags := R.FindMatchingBrace(d, open);
    jumps := FindMatchingDelimiter(d, open, '{', '}');
  }
}
