/**
 Greedy wildcard matching of PM measurement keys, against the meaning of a glob.
 */
module Wildcard {
  import opened Lexer
  import opened Text

  /** What a pattern means: `*` stands for any text, every other character for itself. */
  ghost predicate Glob(pattern: string, value: string)
    decreases |pattern|
  {
    if pattern == [] then value == []
    else if pattern[0] == '*' then exists k | 0 <= k <= |value| :: Glob(pattern[1..], value[k..])
    else value != [] && value[0] == pattern[0] && Glob(pattern[1..], value[1..])
  }

  /** strings.Split(pattern, "*"). */
  function Split(pattern: string): (parts: seq<string>)
    ensures parts != []
  {
    if pattern == [] then [[]]
    else if pattern[0] == '*' then [[]] + Split(pattern[1..])
    else
      var rest := Split(pattern[1..]);
      [[pattern[0]] + rest[0]] + rest[1..]
  }

  /** strings.Index(value[i:], part) as a position in `value`. */
  function Index(value: string, part: string, i: nat): (r: Option<nat>)
    ensures r.Some? ==> i <= r.value && OccursAt(value, part, r.value) && forall k | i <= k < r.value :: !OccursAt(value, part, k)
    ensures r.None? ==> forall k | i <= k :: !OccursAt(value, part, k)
    decreases |value| - i
  {
    if OccursAt(value, part, i) then Some(i)
    else if i >= |value| then None
    else Index(value, part, i + 1)
  }

  predicate HasSuffix(value: string, part: string) {
    |part| <= |value| && value[|value| - |part|..] == part
  }

  /** `value` is parts[0], anything, parts[1], anything, ..., and ends in the last part. */
  ghost predicate Anchored(parts: seq<string>, value: string)
    requires parts != []
    decreases |parts|, 0
  {
    if |parts| == 1 then value == parts[0]
    else parts[0] <= value && Floating(parts[1..], value, |parts[0]|)
  }

  /** Some rest of `value` from `pos` on is Anchored. */
  ghost predicate Floating(parts: seq<string>, value: string, pos: nat)
    requires parts != []
    decreases |parts|, 1
  {
    exists k | pos <= k <= |value| :: Anchored(parts, value[k..])
  }

  lemma {:induction false} GlobIsAnchored(pattern: string, value: string)
    ensures Glob(pattern, value) == Anchored(Split(pattern), value)
    decreases |pattern|
  {
    if pattern == [] {
    } else if pattern[0] == '*' {
      var parts := Split(pattern);
      assert parts[1..] == Split(pattern[1..]);
      forall k | 0 <= k <= |value| ensures Glob(pattern[1..], value[k..]) == Anchored(parts[1..], value[k..]) {
        GlobIsAnchored(pattern[1..], value[k..]);
      }
    } else {
      CharIsAnchored(pattern, value);
    }
  }

  lemma CharIsAnchored(pattern: string, value: string)
    requires pattern != [] && pattern[0] != '*'
    ensures Glob(pattern, value) == Anchored(Split(pattern), value)
    decreases |pattern|, 0
  {
    var parts, rest := Split(pattern), Split(pattern[1..]);
    assert parts[1..] == rest[1..] && parts[0] == [pattern[0]] + rest[0];
    if value != [] && value[0] == pattern[0] {
      var tail := value[1..];
      GlobIsAnchored(pattern[1..], tail);
      assert value == [pattern[0]] + tail;
      assert parts[0] == value <==> rest[0] == tail;
      assert parts[0] <= value <==> rest[0] <= tail;
      if |rest| > 1 {
        forall k | |rest[0]| <= k <= |tail| ensures tail[k..] == value[k + 1..] {
        }
        ShiftFloating(rest[1..], value, tail, |rest[0]|);
      }
    }
  }

  lemma ShiftFloating(parts: seq<string>, value: string, tail: string, pos: nat)
    requires parts != [] && value != [] && tail == value[1..]
    ensures Floating(parts, tail, pos) == Floating(parts, value, pos + 1)
  {
    if Floating(parts, tail, pos) {
      var k :| pos <= k <= |tail| && Anchored(parts, tail[k..]);
      assert tail[k..] == value[k + 1..];
    }
    if Floating(parts, value, pos + 1) {
      var k :| pos + 1 <= k <= |value| && Anchored(parts, value[k..]);
      assert tail[k - 1..] == value[k..];
    }
  }

  /** An empty part between two stars changes nothing. */
  lemma EmptyPart(parts: seq<string>, value: string, pos: nat)
    requires |parts| > 1 && parts[0] == [] && pos <= |value|
    ensures Floating(parts, value, pos) == Floating(parts[1..], value, pos)
  {
    if Floating(parts, value, pos) {
      var k :| pos <= k <= |value| && Anchored(parts, value[k..]);
      assert Floating(parts[1..], value[k..], 0);
      var j :| 0 <= j <= |value[k..]| && Anchored(parts[1..], value[k..][j..]);
      assert value[k..][j..] == value[k + j..];
    }
    if Floating(parts[1..], value, pos) {
      var k :| pos <= k <= |value| && Anchored(parts[1..], value[k..]);
      assert value[pos..][k - pos..] == value[k..];
      assert Anchored(parts, value[pos..]);
    }
  }

  /** Taking the leftmost occurrence of a middle part loses no match. */
  lemma GreedyPart(parts: seq<string>, value: string, pos: nat)
    requires |parts| > 1 && pos <= |value|
    ensures Floating(parts, value, pos)
            == match Index(value, parts[0], pos)
               case None => false
               case Some(i) => Floating(parts[1..], value, i + |parts[0]|)
  {
    hide Floating, Index;
    if Floating(parts, value, pos) {
      GreedyLosesNothing(parts, value, pos);
    }
    var r := Index(value, parts[0], pos);
    if r.Some? && Floating(parts[1..], value, r.value + |parts[0]|) {
      GreedyIsSound(parts, value, pos, r.value);
    }
  }

  lemma GreedyLosesNothing(parts: seq<string>, value: string, pos: nat)
    requires |parts| > 1 && pos <= |value| && Floating(parts, value, pos)
    ensures var r := Index(value, parts[0], pos); r.Some? && Floating(parts[1..], value, r.value + |parts[0]|)
  {
    var part := parts[0];
    var k :| pos <= k <= |value| && Anchored(parts, value[k..]);
    assert value[k..k + |part|] == value[k..][..|part|] == part;
    assert OccursAt(value, part, k);
    assert Floating(parts[1..], value[k..], |part|);
    var j :| |part| <= j <= |value[k..]| && Anchored(parts[1..], value[k..][j..]);
    assert value[k..][j..] == value[k + j..];
  }

  lemma GreedyIsSound(parts: seq<string>, value: string, pos: nat, i: nat)
    requires |parts| > 1 && pos <= |value| && Index(value, parts[0], pos) == Some(i) && Floating(parts[1..], value, i + |parts[0]|)
    ensures Floating(parts, value, pos)
  {
    var part := parts[0];
    var k :| i + |part| <= k <= |value| && Anchored(parts[1..], value[k..]);
    assert OccursAt(value, part, i);
    assert value[i..][..|part|] == value[i..i + |part|];
    assert part <= value[i..];
    assert value[i..][k - i..] == value[k..];
    assert Anchored(parts, value[i..]);
  }

  lemma SuffixOccurs(value: string, last: string, k: nat, pos: nat)
    requires pos <= k <= |value| && value[k..] == last
    ensures Index(value, last, pos).Some? && HasSuffix(value, last)
  {
    assert OccursAt(value, last, k);
  }

  lemma IndexLeavesRoom(value: string, last: string, pos: nat)
    requires pos <= |value| && Index(value, last, pos).Some?
    ensures pos + |last| <= |value|
  {}

  /** The last part: found somewhere from `pos` on, and a suffix of the value. */
  lemma LastPart(last: string, value: string, pos: nat)
    requires pos <= |value|
    ensures Floating([last], value, pos) == (Index(value, last, pos).Some? && HasSuffix(value, last))
  {
    hide Index, OccursAt;
    if Floating([last], value, pos) {
      var k :| pos <= k <= |value| && Anchored([last], value[k..]);
      assert value[k..] == last;
      SuffixOccurs(value, last, k, pos);
    }
    if Index(value, last, pos).Some? && HasSuffix(value, last) {
      IndexLeavesRoom(value, last, pos);
      assert Anchored([last], value[|value| - |last|..]);
    }
  }

  /** wildcardMatch decides the glob, for every pattern and value. */
  method WildcardMatch(pattern: string, value: string) returns (r: bool)
    ensures r == Glob(pattern, value)
  {
    var parts := Split(pattern);
    GlobIsAnchored(pattern, value);
    if |parts| == 1 {
      StarFree(pattern);
      return pattern == value;
    }
    var pos: nat := 0;
    if parts[0] != [] {
      if !(parts[0] <= value) {
        return false;
      }
      pos := |parts[0]|;
    }
    var i := 1;
    var last := parts[|parts| - 1];
    while i < |parts|
      invariant 1 <= i <= |parts| && pos <= |value|
      invariant i < |parts| ==> Glob(pattern, value) == Floating(parts[i..], value, pos)
      invariant i == |parts| ==> Glob(pattern, value) == (last == [] || HasSuffix(value, last))
    {
      var part := parts[i];
      assert i + 1 < |parts| ==> parts[i..][1..] == parts[i + 1..];
      if part == [] {
        if i + 1 < |parts| {
          EmptyPart(parts[i..], value, pos);
        } else {
          assert parts[i..] == [[]] && Anchored([[]], value[|value|..]);
        }
      } else {
        if i + 1 < |parts| {
          GreedyPart(parts[i..], value, pos);
        } else {
          assert parts[i..] == [last];
          LastPart(last, value, pos);
        }
        var idx := Index(value, part, pos);
        if idx.None? {
          return false;
        }
        pos := idx.value + |part|;
      }
      i := i + 1;
    }
    return last == [] || HasSuffix(value, last);
  }

  lemma {:induction false} StarFree(pattern: string)
    requires |Split(pattern)| == 1
    ensures Split(pattern) == [pattern]
    decreases |pattern|
  {
    if pattern != [] {
      StarFree(pattern[1..]);
      assert pattern == [pattern[0]] + pattern[1..];
    }
  }
}
