/**
 End-of-message framing (section 4.3 of RFC 6242) as the NETCONF server reads and writes it.
 The reader collects chunks that end in `>` until its buffer contains the marker `]]>]]>`.
 */
module Framing {
  import opened Lexer

  const END_MARKER: string := "]]>]]>"

  /** The buffered stream: the bytes not yet consumed. */
  class Reader {
    var rest: string

    constructor (stream: string)
      ensures rest == stream
    {
      rest := stream;
    }

    /** bufio.Reader.ReadBytes: through the first `delim`, or to the end of the stream with an error. */
    method ReadBytes(delim: char) returns (chunk: string, ok: bool)
      modifies this
      ensures old(rest) == chunk + rest
      ensures ok ==> chunk != [] && chunk[|chunk| - 1] == delim && delim !in chunk[..|chunk| - 1]
      ensures !ok ==> rest == [] && delim !in chunk
    {
      var i := 0;
      while i < |rest| && rest[i] != delim
        invariant 0 <= i <= |rest| && delim !in rest[..i]
      {
        i := i + 1;
      }
      if i == |rest| {
        chunk, rest, ok := rest, [], false;
      } else {
        chunk, rest, ok := rest[..i + 1], rest[i + 1..], true;
      }
    }
  }

  predicate MarkerAt(b: string, i: nat) {
    i + 6 <= |b| && b[i..i + 6] == END_MARKER
  }

  /** bytes.Index of the marker, from `i` on. */
  function FirstMarker(b: string, i: nat): (r: Option<nat>)
    ensures r.Some? ==> i <= r.value && MarkerAt(b, r.value) && forall k | i <= k < r.value :: !MarkerAt(b, k)
    ensures r.None? ==> forall k | i <= k :: !MarkerAt(b, k)
    decreases |b| - i
  {
    if i >= |b| then None
    else if MarkerAt(b, i) then Some(i)
    else FirstMarker(b, i + 1)
  }

  /** One message off a stream: what stands before the first marker, and what follows it. */
  function Split(stream: string): Option<(string, string)> {
    match FirstMarker(stream, 0)
    case None => None
    case Some(i) => Some((stream[..i], stream[i + 6..]))
  }

  lemma MarkerEndsInClose(b: string, i: nat)
    requires MarkerAt(b, i)
    ensures b[i + 5] == '>' && b[i] == ']'
  {
    assert b[i..i + 6][5] == '>' && b[i..i + 6][0] == ']';
  }

  lemma MarkerInPrefix(b: string, rest: string, i: nat)
    requires i + 6 <= |b|
    ensures MarkerAt(b, i) == MarkerAt(b + rest, i)
  {
    assert (b + rest)[i..i + 6] == b[i..i + 6];
  }

  /**
   readNetconf: whatever the chunks are, one call yields the message before the first marker of
   the stream and consumes the stream exactly through that marker; it fails exactly when the
   stream holds no marker.
   */
  method ReadNetconf(r: Reader) returns (msg: Option<string>)
    modifies r
    ensures match Split(old(r.rest))
            case None => msg == None && r.rest == []
            case Some((m, rest)) => msg == Some(m) && r.rest == rest
  {
    var buf := [];
    while true
      invariant old(r.rest) == buf + r.rest
      invariant forall i: nat :: !MarkerAt(buf, i)
      decreases |r.rest|
    {
      var chunk, ok := r.ReadBytes('>');
      ghost var before := buf;
      buf := buf + chunk;
      if !ok {
        forall i: nat ensures !MarkerAt(buf, i) {
          NoMarkerWithoutClose(before, chunk, i);
        }
        assert old(r.rest) == buf;
        return None;
      }
      ghost var last := |buf| - 6;
      forall i: nat | i != last ensures !MarkerAt(buf, i) {
        MarkerOnlyAtEnd(before, chunk, i);
      }
      var found := FirstMarker(buf, 0);
      if found.Some? {
        FoundInBuffer(buf, r.rest, found.value);
        return Some(buf[..found.value]);
      }
    }
  }

  /** A marker at the end of the buffer splits the stream there. */
  lemma FoundInBuffer(buf: string, rest: string, i: nat)
    requires FirstMarker(buf, 0) == Some(i) && i + 6 == |buf|
    ensures Split(buf + rest) == Some((buf[..i], rest))
  {
    MarkerInPrefix(buf, rest, i);
    forall k: nat | k < i ensures !MarkerAt(buf + rest, k) {
      MarkerInPrefix(buf, rest, k);
    }
    assert FirstMarker(buf + rest, 0) == Some(i);
    assert (buf + rest)[..i] == buf[..i] && (buf + rest)[i + 6..] == rest;
  }

  lemma NoMarkerWithoutClose(before: string, chunk: string, i: nat)
    requires '>' !in chunk && forall k: nat :: !MarkerAt(before, k)
    ensures !MarkerAt(before + chunk, i)
  {
    if MarkerAt(before + chunk, i) {
      MarkerEndsInClose(before + chunk, i);
      MarkerInPrefix(before, chunk, i);
    }
  }

  lemma MarkerOnlyAtEnd(before: string, chunk: string, i: nat)
    requires chunk != [] && '>' !in chunk[..|chunk| - 1] && forall k: nat :: !MarkerAt(before, k)
    requires i != |before + chunk| - 6
    ensures !MarkerAt(before + chunk, i)
  {
    if MarkerAt(before + chunk, i) {
      MarkerEndsInClose(before + chunk, i);
      if i + 6 <= |before| {
        MarkerInPrefix(before, chunk, i);
      }
    }
  }

  /** writeNetconf, on the bytes written so far. */
  function Write(written: string, msg: string): string {
    written + msg + END_MARKER
  }

  function WriteAll(written: string, msgs: seq<string>): string
    decreases |msgs|
  {
    if msgs == [] then written else WriteAll(Write(written, msgs[0]), msgs[1..])
  }

  /** The stream that carries `msgs`. */
  function Stream(msgs: seq<string>): string {
    if msgs == [] then [] else msgs[0] + END_MARKER + Stream(msgs[1..])
  }

  lemma {:induction false} WriteAllIsStream(written: string, msgs: seq<string>)
    ensures WriteAll(written, msgs) == written + Stream(msgs)
    decreases |msgs|
  {
    if msgs != [] {
      WriteAllIsStream(Write(written, msgs[0]), msgs[1..]);
      assert written + msgs[0] + END_MARKER + Stream(msgs[1..])
          == written + (msgs[0] + END_MARKER + Stream(msgs[1..]));
    }
  }

  /** `n` messages read in turn, and the rest of the stream. */
  function ReadAll(stream: string, n: nat): Option<(seq<string>, string)> {
    if n == 0 then Some(([], stream))
    else
      match Split(stream)
      case None => None
      case Some((m, rest)) =>
        match ReadAll(rest, n - 1)
        case None => None
        case Some((ms, end)) => Some(([m] + ms, end))
  }

  predicate EndsInHalfMarker(m: string) {
    |m| >= 3 && m[|m| - 3..] == "]]>"
  }

  /** A message that framing can carry. */
  ghost predicate Clean(m: string) {
    !EndsInHalfMarker(m) && forall i: nat :: !MarkerAt(m, i)
  }

  /** The only way the marker overlaps the end of a message is by half. */
  lemma Overlap(m: string, rest: string, i: nat)
    requires i < |m| < i + 6
    ensures MarkerAt(m + END_MARKER + rest, i) <==> i + 3 == |m| && EndsInHalfMarker(m)
  {
    hide MarkerAt, EndsInHalfMarker;
    var b, n := m + END_MARKER + rest, |m|;
    MarkerChars(b, i);
    HalfMarkerChars(m);
    FramedChars(m, rest);
    assert forall k | i <= k < n :: b[k] == m[k];
  }

  predicate Spelled(b: string, i: nat) {
    i + 6 <= |b| && b[i] == ']' && b[i + 1] == ']' && b[i + 2] == '>' && b[i + 3] == ']' && b[i + 4] == ']' && b[i + 5] == '>'
  }

  lemma MarkerChars(b: string, i: nat)
    ensures MarkerAt(b, i) <==> Spelled(b, i)
  {
    if i + 6 <= |b| {
      var s := b[i..i + 6];
      assert s == END_MARKER <==> s[0] == ']' && s[1] == ']' && s[2] == '>' && s[3] == ']' && s[4] == ']' && s[5] == '>';
    }
  }

  lemma HalfMarkerChars(m: string)
    ensures EndsInHalfMarker(m) <==> |m| >= 3 && m[|m| - 3] == ']' && m[|m| - 2] == ']' && m[|m| - 1] == '>'
  {
    if |m| >= 3 {
      var s := m[|m| - 3..];
      assert s == "]]>" <==> s[0] == ']' && s[1] == ']' && s[2] == '>';
    }
  }

  lemma FramedChars(m: string, rest: string)
    ensures var b := m + END_MARKER + rest; Spelled(b, |m|) && forall k | 0 <= k < |m| :: b[k] == m[k]
  {
    var b, n := m + END_MARKER + rest, |m|;
    assert forall k | 0 <= k < 6 :: b[n + k] == END_MARKER[k];
    assert b[n] == END_MARKER[0] && b[n + 1] == END_MARKER[1] && b[n + 2] == END_MARKER[2];
    assert b[n + 3] == END_MARKER[3] && b[n + 4] == END_MARKER[4] && b[n + 5] == END_MARKER[5];
  }

  /** A framed message is read back, with the stream left right after it, exactly when it is clean. */
  lemma MessageRoundTrip(m: string, rest: string)
    ensures Clean(m) ==> Split(m + END_MARKER + rest) == Some((m, rest))
    ensures !Clean(m) ==> Split(m + END_MARKER + rest).Some? && Split(m + END_MARKER + rest).value.0 != m
  {
    var b := m + END_MARKER + rest;
    assert b[|m|..|m| + 6] == END_MARKER;
    assert MarkerAt(b, |m|);
    forall i: nat | i < |m| ensures MarkerAt(b, i) ==> !Clean(m) {
      if i + 6 <= |m| {
        assert b == m + (END_MARKER + rest);
        MarkerInPrefix(m, END_MARKER + rest, i);
      } else {
        Overlap(m, rest, i);
      }
    }
    if EndsInHalfMarker(m) {
      Overlap(m, rest, |m| - 3);
    } else if !Clean(m) {
      var i: nat :| MarkerAt(m, i);
      assert b == m + (END_MARKER + rest);
      MarkerInPrefix(m, END_MARKER + rest, i);
    }
  }

  /**
   Framing round trip over streams: writing any list of messages and reading that many gives
   the same list with the stream consumed to its end if and only if every message is clean.
   */
  lemma {:induction false} StreamRoundTrip(msgs: seq<string>)
    ensures ReadAll(WriteAll([], msgs), |msgs|) == Some((msgs, [])) <==> forall m | m in msgs :: Clean(m)
  {
    WriteAllIsStream([], msgs);
    assert [] + Stream(msgs) == Stream(msgs);
    StreamReads(msgs);
  }

  lemma {:induction false} StreamReads(msgs: seq<string>)
    ensures ReadAll(Stream(msgs), |msgs|) == Some((msgs, [])) <==> forall m | m in msgs :: Clean(m)
    decreases |msgs|
  {
    if msgs != [] {
      var m, ms := msgs[0], msgs[1..];
      assert msgs == [m] + ms;
      MessageRoundTrip(m, Stream(ms));
      if Clean(m) {
        StreamReads(ms);
        match ReadAll(Stream(ms), |ms|) {
          case None =>
          case Some((read, end)) => assert ([m] + read)[1..] == read;
        }
      } else {
        var rest := Split(Stream(msgs)).value.1;
        match ReadAll(rest, |ms|) {
          case None =>
          case Some((read, end)) => assert ([Split(Stream(msgs)).value.0] + read)[0] != msgs[0];
        }
      }
    }
  }
}
