/**
 rb.conf: the renderer's patch of one field of one QCI profile, and the reader of all profiles.
 */
module Qci {
  import opened Lexer
  import opened Scanning
  import opened Text
  import opened Numbers
  import opened Config
  import opened Overlay
  import opened Brackets
  import R = Renderer
  import P = TextParser

  // ----- the renderer: locating a profile

  /** qciBlockHasKey. */
  predicate HasQci(block: Bytes, qci: int) {
    match ReadScalar(block, "qci", false)
    case None => false
    case Some(text) => Trim(text) == FormatInt(qci)
  }

  method QciBlockHasKey(block: Bytes, qci: int) returns (r: bool)
    ensures r == HasQci(block, qci)
  {
    var asn := R.FindAssignment(block, "qci", 0);
    if asn.None? {
      return false;
    }
    var end := R.FindScalarValueEnd(block, asn.value.valueStart);
    if end.None? {
      return false;
    }
    return Trim(block[asn.value.valueStart..end.value]) == FormatInt(qci);
  }

  /** The first of the blocks that carries the profile number. */
  function FirstWith(d: Bytes, bs: seq<Block>, qci: int): (r: Option<nat>)
    ensures r.Some? ==> r.value < |bs|
  {
    if bs == [] then None
    else if HasQci(SliceAt(d, bs[0]), qci) then Some(0)
    else match FirstWith(d, bs[1..], qci) case None => None case Some(j) => Some(j + 1)
  }

  /** The block found carries the number, and no earlier one does. */
  lemma {:induction false} FirstWithIsFirst(d: Bytes, bs: seq<Block>, qci: int, j: nat)
    requires j < |bs|
    ensures FirstWith(d, bs, qci) == Some(j) ==> HasQci(SliceAt(d, bs[j]), qci)
    ensures FirstWith(d, bs, qci).None? || j < FirstWith(d, bs, qci).value ==> !HasQci(SliceAt(d, bs[j]), qci)
    decreases |bs|
  {
    hide HasQci, SliceAt;
    if j > 0 && !HasQci(SliceAt(d, bs[0]), qci) {
      FirstWithIsFirst(d, bs[1..], qci, j - 1);
    }
  }

  /** The blocks findQCIBlock looks at: the top-level blocks from the value of qci_config to the end of the file. */
  function Candidates(d: Bytes): seq<Block> {
    match Assignment(d, "qci_config", 0, false)
    case None => []
    case Some(sp) => TopBlocks(d, sp.valueStart)
  }

  function QciBlock(d: Bytes, qci: int): Option<Block> {
    match FirstWith(d, Candidates(d), qci)
    case None => None
    case Some(j) => Some(Candidates(d)[j])
  }

  function SearchFrom(d: Bytes, i: nat, qci: int): Option<Block> {
    match FirstWith(d, TopBlocks(d, i), qci) case None => None case Some(j) => Some(TopBlocks(d, i)[j])
  }

  method FindQciBlock(data: Bytes, qci: int) returns (r: Option<Block>)
    ensures r == QciBlock(data, qci)
  {
    hide TopBlocks, FirstWith, HasQci, OpenAt, BracketAt, MatchingClose, StringEnd, ModeAt, Assignment, AssignAt, SpanAt;
    var anchor := R.FindAssignment(data, "qci_config", 0);
    if anchor.None? {
      NothingFound(data, qci);
      return None;
    }
    var i := anchor.value.valueStart;
    ValueIsOpen(data, "qci_config", anchor.value);
    while i < |data|
      invariant i < |data| ==> OpenAt(data, i)
      invariant SearchFrom(data, i, qci) == QciBlock(data, qci)
      decreases |data| - i
    {
      if CommentAt(data, i) {
        CommentBlocks(data, i);
        i := R.SkipLine(data, i);
      } else if data[i] == '"' {
        var next := R.SkipString(data, i);
        if next.None? {
          OpenStringBlocks(data, i, qci);
          return None;
        }
        StringBlocks(data, i, next.value);
        i := next.value;
      } else if data[i] == '{' {
        var end := R.FindMatchingBrace(data, i);
        if end.None? {
          UnclosedBrace(data, i, qci);
          return None;
        }
        BlockStep(data, i, end.value, qci);
        var found := QciBlockHasKey(data[i..end.value + 1], qci);
        if found {
          return Some(Block(i, end.value + 1));
        }
        i := end.value;
      } else {
        PlainStep(data, i);
      }
      i := i + 1;
    }
    NoBlocksAtEnd(data, i, qci);
    return None;
  }

  lemma ValueIsOpen(d: Bytes, key: Bytes, sp: Span)
    requires Assignment(d, key, 0, false) == Some(sp)
    ensures OpenAt(d, sp.valueStart)
  {
    AtValue(d, key, false, sp);
  }

  lemma NothingFound(d: Bytes, qci: int)
    requires Candidates(d) == []
    ensures QciBlock(d, qci) == None
  {}

  lemma StartIsOpen(d: Bytes)
    ensures OpenAt(d, 0)
  {}

  lemma NoBlocksAtEnd(d: Bytes, i: nat, qci: int)
    requires i >= |d|
    ensures TopBlocks(d, i) == [] && SearchFrom(d, i, qci) == None
  {}

  /** A comment is passed over. */
  lemma CommentBlocks(d: Bytes, i: nat)
    requires i < |d| && OpenAt(d, i) && CommentAt(d, i)
    ensures TopBlocks(d, i) == TopBlocks(d, LineEnd(d, i) + 1)
    ensures LineEnd(d, i) + 1 < |d| ==> OpenAt(d, LineEnd(d, i) + 1)
  {
    CommentFlat(d, 0, i, '{', '}');
    TopBlocksSkip(d, i, LineEnd(d, i) + 1);
  }

  /** A string is passed over. */
  lemma StringBlocks(d: Bytes, i: nat, e: nat)
    requires i < |d| && OpenAt(d, i) && d[i] == '"' && StringEnd(d, i, i + 1) == Some(e)
    ensures TopBlocks(d, i) == TopBlocks(d, e + 1) && i < e < |d| && OpenAt(d, e + 1)
  {
    StringFlat(d, 0, i, '{', '}');
    TopBlocksSkip(d, i, e + 1);
  }

  /** An unterminated string ends the search. */
  lemma OpenStringBlocks(d: Bytes, i: nat, qci: int)
    requires i < |d| && OpenAt(d, i) && d[i] == '"' && StringEnd(d, i, i + 1) == None
    ensures TopBlocks(d, i) == [] && SearchFrom(d, i, qci) == None
  {
    StringFlat(d, 0, i, '{', '}');
    TopBlocksSkip(d, i, |d|);
  }

  /** An opening brace that is never closed ends the search. */
  lemma UnclosedBrace(d: Bytes, i: nat, qci: int)
    requires i < |d| && OpenAt(d, i) && !CommentAt(d, i) && d[i] == '{' && MatchingClose(d, i, '{', '}') == None
    ensures TopBlocks(d, i) == [] && SearchFrom(d, i, qci) == None
  {
    assert NextBrace(d, i) == Some(i);
  }

  /** A character that is no opening brace is passed over. */
  lemma PlainStep(d: Bytes, i: nat)
    requires i < |d| && OpenAt(d, i) && !CommentAt(d, i) && d[i] != '"' && d[i] != '{'
    ensures OpenAt(d, i + 1) && TopBlocks(d, i) == TopBlocks(d, i + 1)
  {
    assert NextBrace(d, i) == NextBrace(d, i + 1);
  }

  /** A block without the number is passed over; a block with it is the result. */
  lemma BlockStep(d: Bytes, i: nat, e: nat, qci: int)
    requires i < |d| && OpenAt(d, i) && !CommentAt(d, i) && d[i] == '{' && MatchingClose(d, i, '{', '}') == Some(e)
    ensures i < e < |d| && OpenAt(d, e + 1)
    ensures SearchFrom(d, i, qci) ==
            if HasQci(d[i..e + 1], qci) then Some(Block(i, e + 1)) else SearchFrom(d, e + 1, qci)
  {
    hide HasQci, TopBlocks, MatchingClose, OpenAt;
    FirstBlock(d, i, e);
    var rest := TopBlocks(d, e + 1);
    assert ([Block(i, e + 1)] + rest)[1..] == rest;
  }

  lemma FirstBlock(d: Bytes, i: nat, e: nat)
    requires i < |d| && OpenAt(d, i) && !CommentAt(d, i) && d[i] == '{' && MatchingClose(d, i, '{', '}') == Some(e)
    ensures i < e < |d| && OpenAt(d, e + 1) && TopBlocks(d, i) == [Block(i, e + 1)] + TopBlocks(d, e + 1)
  {
    assert BracketAt(d, i) && NextBrace(d, i) == Some(i);
    CloseIsInside(d, i, '{', '}');
    CloseIsStructural(d, i, e, '{', '}');
    BracketIsOpen(d, e);
  }

  // ----- the renderer: inserting an absent field

  /** findLibconfigContainer: the first assignment to `name` whose value is a block. */
  function Container(b: Bytes, name: Bytes, from: nat): Option<Block>
    decreases |b| - from
  {
    match Assignment(b, name, from, false)
    case None => None
    case Some(sp) =>
      var open := SkipSpace(b, sp.valueStart);
      if open >= |b| || b[open] != '{' then Container(b, name, sp.valueStart + 1)
      else match MatchingClose(b, open, '{', '}') case None => None case Some(c) => Some(Block(open, c))
  }

  method FindLibconfigContainer(data: Bytes, name: Bytes) returns (r: Option<Block>)
    ensures r == Container(data, name, 0)
  {
    var searchFrom := 0;
    while true
      invariant 0 <= searchFrom && Container(data, name, searchFrom) == Container(data, name, 0)
      decreases |data| - searchFrom
    {
      var asn := R.FindAssignment(data, name, searchFrom);
      if asn.None? {
        return None;
      }
      var open := R.SkipASCIIWhitespace(data, asn.value.valueStart);
      if open >= |data| || data[open] != '{' {
        searchFrom := asn.value.valueStart + 1;
        continue;
      }
      var close := R.FindMatchingBrace(data, open);
      if close.None? {
        return None;
      }
      return Some(Block(open, close.value));
    }
  }

  function LineStart(b: Bytes, pos: nat): (r: nat)
    requires pos <= |b|
    ensures r <= pos
  {
    if pos == 0 || b[pos - 1] == '\n' then pos else LineStart(b, pos - 1)
  }

  predicate IsIndent(c: char) {
    c == ' ' || c == '\t'
  }

  function IndentEnd(b: Bytes, i: nat, pos: nat): (r: nat)
    requires i <= pos <= |b|
    ensures i <= r <= pos
    decreases pos - i
  {
    if i < pos && IsIndent(b[i]) then IndentEnd(b, i + 1, pos) else i
  }

  /** closingIndent: the blanks at the start of the line that holds the closing brace. */
  function ClosingIndent(b: Bytes, pos: nat): Bytes
    requires pos <= |b|
  {
    b[LineStart(b, pos)..IndentEnd(b, LineStart(b, pos), pos)]
  }

  function NewLine(b: Bytes, close: nat, field: Bytes, value: Bytes): Bytes
    requires close <= |b|
  {
    ClosingIndent(b, close) + "  " + (field + " = " + value + ";") + "\n"
  }

  /** insertQCIAssignment: before the closing brace of the first container that is there. */
  function Insert(b: Bytes, containers: seq<Bytes>, field: Bytes, value: Bytes): Option<Bytes> {
    if containers == [] then None
    else
      match Container(b, containers[0], 0)
      case None => Insert(b, containers[1..], field, value)
      case Some(c) => if c.end <= |b| then Some(b[..c.end] + NewLine(b, c.end, field, value) + b[c.end..]) else None
  }

  method InsertQciAssignment(block: Bytes, containers: seq<Bytes>, field: Bytes, value: Bytes) returns (r: Option<Bytes>)
    ensures r == Insert(block, containers, field, value)
  {
    var i := 0;
    while i < |containers|
      invariant 0 <= i <= |containers| && Insert(block, containers[i..], field, value) == Insert(block, containers, field, value)
    {
      assert containers[i..][1..] == containers[i + 1..];
      var c := FindLibconfigContainer(block, containers[i]);
      if c.Some? {
        ContainerInside(block, containers[i], 0);
        return Some(block[..c.value.end] + NewLine(block, c.value.end, field, value) + block[c.value.end..]);
      }
      i := i + 1;
    }
    return None;
  }

  lemma {:induction false} ContainerInside(b: Bytes, name: Bytes, from: nat)
    ensures Container(b, name, from).Some? ==> Container(b, name, from).value.end < |b|
    decreases |b| - from
  {
    match Assignment(b, name, from, false)
    case None =>
    case Some(sp) =>
      var open := SkipSpace(b, sp.valueStart);
      if open >= |b| || b[open] != '{' {
        ContainerInside(b, name, sp.valueStart + 1);
      } else {
        CloseIsInside(b, open, '{', '}');
      }
  }

  /** qciPatch: the containers into which a field may be inserted. */
  function Containers(field: string): seq<Bytes> {
    if field == "discard_timer" || field == "pdcp_sn_size" then ["pdcp_config"]
    else if field == "t_poll_retx" then ["ul_am", "ul_um"]
    else if field == "max_retx_thresh" then ["ul_am"]
    else if field == "t_reordering" then ["dl_am", "dl_um"]
    else if field == "priority" then ["logical_channel_config"]
    else []
  }

  /** What becomes of the profile's block: the field is patched, or else inserted. */
  function EditBlock(b: Bytes, field: string, n: int): Option<Bytes> {
    match Patch(b, field, FormatInt(n))
    case Some(b') => Some(b')
    case None => Insert(b, Containers(field), field, FormatInt(n))
  }

  /** patchQCIProfile for a profile field that the candidate holds. */
  function PatchProfile(d: Bytes, qci: int, field: string, n: int): Option<Bytes> {
    match QciBlock(d, qci)
    case None => None
    case Some(b) =>
      match EditBlock(SliceAt(d, b), field, n)
      case None => None
      case Some(b') => if b.start <= b.end <= |d| then Some(d[..b.start] + b' + d[b.end..]) else None
  }

  method PatchQciProfile(data: Bytes, qci: int, field: string, n: int) returns (r: Option<Bytes>)
    ensures r == PatchProfile(data, qci, field, n)
  {
    var b := FindQciBlock(data, qci);
    if b.None? {
      return None;
    }
    BlockInRange(data, qci);
    var start, end := b.value.start, b.value.end;
    var block := data[start..end];
    var patched, changed := PatchLibconfigScalarOptional(block, field, FormatInt(n));
    if changed {
      return Some(data[..start] + patched + data[end..]);
    }
    var inserted := InsertQciAssignment(block, Containers(field), field, FormatInt(n));
    if inserted.None? {
      return None;
    }
    return Some(data[..start] + inserted.value + data[end..]);
  }

  lemma BlockInRange(d: Bytes, qci: int)
    requires QciBlock(d, qci).Some?
    ensures var b := QciBlock(d, qci).value; b.start < b.end <= |d|
  {
    var sp := Assignment(d, "qci_config", 0, false).value;
    var j := FirstWith(d, Candidates(d), qci).value;
    TopBlocksOrdered(d, sp.valueStart, j, j);
  }

  // ----- the reader

  /** extractParenSectionAfter: the parenthesised value of the first qci_config, in any case. */
  function Section(d: Bytes): Option<Block> {
    match Assignment(d, "qci_config", 0, true)
    case None => None
    case Some(sp) =>
      var p := SkipSpace(d, sp.valueStart);
      if p >= |d| || d[p] != '(' then None
      else match MatchingClose(d, p, '(', ')') case None => None case Some(e) => Some(Block(p, e + 1))
  }

  function Texts(d: Bytes, bs: seq<Block>): (r: seq<Bytes>)
    ensures |r| == |bs|
  {
    seq(|bs|, i requires 0 <= i < |bs| => SliceAt(d, bs[i]))
  }

  method ExtractTopLevelBraceObjects(section: Bytes) returns (out: seq<Bytes>)
    ensures out == Texts(section, TopBlocks(section, 0))
  {
    hide TopBlocks, OpenAt, BracketAt, MatchingClose, StringEnd, ModeAt, Texts, SliceAt;
    NoTexts(section);
    out := [];
    var i: nat := 0;
    StartIsOpen(section);
    while i < |section|
      invariant i < |section| ==> OpenAt(section, i)
      invariant out + Texts(section, TopBlocks(section, i)) == Texts(section, TopBlocks(section, 0))
      decreases |section| - i
    {
      if CommentAt(section, i) {
        CommentBlocks(section, i);
        i := R.SkipLine(section, i);
      } else if section[i] == '"' {
        var next, ok := P.SkipTextString(section, i);
        if !ok {
          OpenStringBlocks(section, i, 0);
          return;
        }
        StringBlocks(section, i, next);
        i := next;
      } else if section[i] == '{' {
        var end := P.FindMatchingDelimiter(section, i, '{', '}');
        if end.None? {
          UnclosedBrace(section, i, 0);
          return;
        }
        FirstBlock(section, i, end.value);
        TextsStep(section, i, end.value);
        var text := SliceAt(section, Block(i, end.value + 1));
        assert out + ([text] + Texts(section, TopBlocks(section, end.value + 1))) == (out + [text]) + Texts(section, TopBlocks(section, end.value + 1));
        out := out + [text];
        i := end.value;
      } else {
        PlainStep(section, i);
      }
      i := i + 1;
    }
    NoBlocksAtEnd(section, i, 0);
  }

  lemma NoTexts(d: Bytes)
    ensures Texts(d, []) == []
  {}

  lemma TextsStep(d: Bytes, i: nat, e: nat)
    requires i < |d| && OpenAt(d, i) && !CommentAt(d, i) && d[i] == '{' && MatchingClose(d, i, '{', '}') == Some(e) && i < e < |d|
    ensures Texts(d, TopBlocks(d, i)) == [SliceAt(d, Block(i, e + 1))] + Texts(d, TopBlocks(d, e + 1))
  {
    hide TopBlocks, MatchingClose, OpenAt;
    FirstBlock(d, i, e);
  }

  /** findInt32InBlock with its success flag ignored. */
  function IntIn(obj: Bytes, key: string): int {
    match ReadScalar(obj, key, true)
    case None => 0
    case Some(t) => ReadInt32(Unquote(t))
  }

  function ProfileOf(obj: Bytes): Profile {
    Profile(IntIn(obj, "qci"), map f | f in QCI_FIELDS :: IntIn(obj, f))
  }

  function ProfilesOf(objs: seq<Bytes>): (r: seq<Profile>)
    ensures |r| == |objs|
  {
    seq(|objs|, i requires 0 <= i < |objs| => ProfileOf(objs[i]))
  }

  /** The profiles of the file before those without a number are dropped. */
  function RawProfiles(d: Bytes): Option<seq<Profile>> {
    match Section(d)
    case None => None
    case Some(s) =>
      var text := SliceAt(d, s);
      Some(ProfilesOf(Texts(text, TopBlocks(text, 0))))
  }

  /** Profiles without a number are dropped. */
  function Kept(ps: seq<Profile>): seq<Profile> {
    if ps == [] then [] else (if ps[0].qci == 0 then [] else [ps[0]]) + Kept(ps[1..])
  }

  /** ParseRB: fails without a section, without blocks, or without a numbered profile. */
  function ReadProfiles(d: Bytes): Option<seq<Profile>> {
    match RawProfiles(d)
    case None => None
    case Some(ps) => if Kept(ps) == [] then None else Some(Kept(ps))
  }

  method FindInt32InBlock(block: Bytes, key: string) returns (n: int)
    ensures n == IntIn(block, key)
  {
    var valueStart := P.FindAssignmentInText(block, key, 0);
    if valueStart.None? {
      return 0;
    }
    var valueEnd := P.FindTextScalarValueEnd(block, valueStart.value);
    if valueEnd.None? {
      return 0;
    }
    return ReadInt32(Unquote(block[valueStart.value..valueEnd.value]));
  }

  method ExtractParenSection(src: Bytes) returns (r: Option<Bytes>)
    ensures r == match Section(src) case None => None case Some(s) => Some(SliceAt(src, s))
  {
    var valueStart := P.FindAssignmentInText(src, "qci_config", 0);
    if valueStart.None? {
      return None;
    }
    var p := R.SkipASCIIWhitespace(src, valueStart.value);
    if p >= |src| || src[p] != '(' {
      return None;
    }
    var end := P.FindMatchingDelimiter(src, p, '(', ')');
    if end.None? {
      return None;
    }
    CloseIsInside(src, p, '(', ')');
    return Some(src[p..end.value + 1]);
  }

  lemma KeptCons(p: Profile, ps: seq<Profile>)
    ensures Kept([p] + ps) == (if p.qci == 0 then [] else [p]) + Kept(ps)
  {
    assert ([p] + ps)[1..] == ps;
  }

  lemma {:induction false} KeptConcat(a: seq<Profile>, b: seq<Profile>)
    ensures Kept(a + b) == Kept(a) + Kept(b)
  {
    if a == [] {
      assert a + b == b;
    } else {
      KeptConcat(a[1..], b);
      KeptCons(a[0], a[1..]);
      KeptCons(a[0], a[1..] + b);
      assert a == [a[0]] + a[1..] && a + b == [a[0]] + (a[1..] + b);
    }
  }

  lemma KeptStep(objs: seq<Bytes>, i: nat, p: Profile)
    requires i < |objs| && p == ProfileOf(objs[i])
    ensures Kept(ProfilesOf(objs[..i + 1])) == Kept(ProfilesOf(objs[..i])) + (if p.qci == 0 then [] else [p])
  {
    hide ProfileOf;
    assert ProfilesOf(objs[..i + 1]) == ProfilesOf(objs[..i]) + [p];
    KeptConcat(ProfilesOf(objs[..i]), [p]);
    assert Kept([p]) == if p.qci == 0 then [] else [p];
  }

  method ParseRB(src: Bytes) returns (r: Option<seq<Profile>>)
    ensures r == ReadProfiles(src)
  {
    hide Section, TopBlocks, ProfileOf, SliceAt;
    var section := ExtractParenSection(src);
    if section.None? {
      return None;
    }
    var objs := ExtractTopLevelBraceObjects(section.value);
    var out: seq<Profile> := [];
    var i := 0;
    while i < |objs|
      invariant 0 <= i <= |objs| && out == Kept(ProfilesOf(objs[..i]))
    {
      var p := ParseProfile(objs[i]);
      KeptStep(objs, i, p);
      if p.qci != 0 {
        out := out + [p];
      }
      i := i + 1;
    }
    assert objs[..|objs|] == objs;
    return if out == [] then None else Some(out);
  }

  method ParseProfile(obj: Bytes) returns (p: Profile)
    ensures p == ProfileOf(obj)
  {
    hide IntIn;
    var qci := FindInt32InBlock(obj, "qci");
    var discardTimer := FindInt32InBlock(obj, "discard_timer");
    var pdcpSnSize := FindInt32InBlock(obj, "pdcp_sn_size");
    var tPollRetx := FindInt32InBlock(obj, "t_poll_retx");
    var maxRetxThresh := FindInt32InBlock(obj, "max_retx_thresh");
    var tReordering := FindInt32InBlock(obj, "t_reordering");
    var priority := FindInt32InBlock(obj, "priority");
    p := Profile(qci, map["discard_timer" := discardTimer, "pdcp_sn_size" := pdcpSnSize, "t_poll_retx" := tPollRetx,
                          "max_retx_thresh" := maxRetxThresh, "t_reordering" := tReordering, "priority" := priority]);
  }
}
