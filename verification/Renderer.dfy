/**
 The scanners of the overlay renderer: index loops that jump over comments, strings and
 identifiers. Each is proved to compute what `Lexer` defines position by position.
 */
module Renderer {
  import opened Lexer
  import opened Scanning

  method SkipASCIIWhitespace(data: Bytes, start: nat) returns (i: nat)
    requires start <= |data|
    ensures i == SkipSpace(data, start)
  {
    i := start;
    while i < |data| && IsSpace(data[i])
      invariant start <= i <= |data| && SkipSpace(data, i) == SkipSpace(data, start)
    {
      i := i + 1;
    }
  }

  /** The identifier loop inside findAssignment. */
  method SkipWord(data: Bytes, start: nat) returns (i: nat)
    requires start <= |data|
    ensures i == WordEnd(data, start)
  {
    i := start;
    while i < |data| && IsIdent(data[i])
      invariant start <= i <= |data| && WordEnd(data, i) == WordEnd(data, start)
    {
      i := i + 1;
    }
  }

  method TrimRightASCII(data: Bytes, start: nat, stop: nat) returns (end: nat)
    requires start <= stop <= |data|
    ensures end == TrimRight(data, start, stop)
  {
    end := stop;
    while end > start && IsSpace(data[end - 1])
      invariant start <= end <= stop && TrimRight(data, start, end) == TrimRight(data, start, stop)
    {
      end := end - 1;
    }
  }

  method SkipLine(data: Bytes, start: nat) returns (i: nat)
    requires start <= |data|
    ensures i == LineEnd(data, start)
  {
    i := start;
    while i < |data| && data[i] != '\n'
      invariant start <= i <= |data| && LineEnd(data, i) == LineEnd(data, start)
    {
      i := i + 1;
    }
  }

  method SkipString(data: Bytes, quote: nat) returns (r: Option<nat>)
    requires quote < |data| && data[quote] == '"'
    ensures r == StringEnd(data, quote, quote + 1)
  {
    var escaped := false;
    var i := quote + 1;
    while i < |data|
      invariant quote < i <= |data|
      invariant ModeAt(data, quote, i) == if escaped then Escape else Text
      invariant StringEnd(data, quote, i) == StringEnd(data, quote, quote + 1)
    {
      if escaped {
        escaped := false;
      } else if data[i] == '\\' {
        escaped := true;
      } else if data[i] == '"' {
        return Some(i);
      }
      i := i + 1;
    }
    return None;
  }

  method FindAssignment(data: Bytes, key: Bytes, start: int) returns (r: Option<Span>)
    ensures r == Assignment(data, key, if start < 0 then 0 else start, false)
  {
    var from: nat := if start < 0 then 0 else start;
    var i: nat := from;
    while i < |data|
      invariant Passed(data, from, i, key, false)
      decreases |data| - i
    {
      if CommentAt(data, i) {
        CommentStep(data, from, i, key, false);
        i := SkipLine(data, i);
      } else if data[i] == '"' {
        var next := SkipString(data, i);
        if next.None? {
          OpenString(data, from, i, key, false);
          return None;
        }
        StringStep(data, from, i, next.value, key, false);
        i := next.value;
      } else if IsIdentStart(data[i]) {
        var begin := i;
        i := SkipWord(data, i);
        var token := data[begin..i];
        var j := SkipASCIIWhitespace(data, i);
        ExactToken(data, begin, i, key);
        if token == key && j < |data| && data[j] == '=' {
          var valueStart := SkipASCIIWhitespace(data, j + 1);
          WordFound(data, from, begin, key, false);
          return Some(Span(begin, i, j, valueStart));
        }
        WordStep(data, from, begin, key, false);
        i := i - 1;
      } else {
        CodeStep(data, from, i, key, false);
      }
      i := i + 1;
    }
    Absent(data, from, key, false);
    return None;
  }

  method FindScalarValueEnd(data: Bytes, from: nat) returns (r: Option<nat>)
    requires from <= |data|
    ensures r == ScalarEnd(data, from)
  {
    var i := from;
    while i < |data|
      invariant from <= i <= |data| && Open(ModeAt(data, from, i))
      invariant forall k | from <= k < i :: !StopAt(data, from, k)
    {
      if CommentAt(data, i) {
        StopIsUnique(data, from, i);
        var e := TrimRightASCII(data, from, i);
        return Some(e);
      }
      if data[i] == '"' {
        var next := SkipString(data, i);
        forall k | i <= k <= (if next.Some? then next.value else |data|) ensures !StopAt(data, from, k) {
          StringHasNoStop(data, from, i, k);
        }
        if next.None? {
          StringHasNoStop(data, from, i, |data|);
          StopIsUnique(data, from, |data|);
          return None;
        }
        StringJump(data, from, i);
        i := next.value;
      } else if IsEnder(data[i]) {
        StopIsUnique(data, from, i);
        var e := TrimRightASCII(data, from, i);
        return Some(e);
      } else if IsBracket(data[i]) {
        StopIsUnique(data, from, i);
        return None;
      }
      i := i + 1;
    }
    StopIsUnique(data, from, |data|);
    var e := TrimRightASCII(data, from, |data|);
    return Some(e);
  }

  /** Brace matching with two flags instead of a jump over strings. */
  method FindMatchingBrace(data: Bytes, open: nat) returns (r: Option<nat>)
    ensures r == MatchingClose(data, open, '{', '}')
  {
    var depth := 0;
    var inString := false;
    var escaped := false;
    var i := open;
    while i < |data|
      invariant open <= i
      invariant escaped ==> inString
      invariant i <= |data| ==>
                  && depth == Depth(data, open, i, '{', '}')
                  && (if inString then ModeAt(data, open, i) == (if escaped then Escape else Text)
                      else Open(ModeAt(data, open, i)))
      invariant forall p | open <= p < i && p < |data| :: !CloseAt(data, open, p, '{', '}')
      decreases |data| - i
    {
      if !inString && CommentAt(data, i) {
        var e := SkipLine(data, i);
        CommentFlat(data, open, i, '{', '}');
        i := e;
      } else if inString {
        if escaped {
          escaped := false;
        } else if data[i] == '\\' {
          escaped := true;
        } else if data[i] == '"' {
          inString := false;
        }
      } else if data[i] == '"' {
        inString := true;
      } else if data[i] == '{' {
        depth := depth + 1;
      } else if data[i] == '}' {
        depth := depth - 1;
        if depth == 0 {
          MatchIsUnique(data, open, '{', '}', Some(i));
          return Some(i);
        }
      }
      i := i + 1;
    }
    MatchIsUnique(data, open, '{', '}', None);
    return None;
  }
}
