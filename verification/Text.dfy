/**
 The string functions of the Go standard library that the models share, over ASCII whitespace.
 */
module Text {
  import opened Lexer

  predicate IsBlank(c: char) {
    c == ' ' || c == '\t' || c == '\n' || c == 11 as char || c == 12 as char || c == '\r'
  }

  /** The first visible character from `i` on. */
  function TrimFront(s: string, i: nat): (r: nat)
    requires i <= |s|
    ensures i <= r <= |s| && (r < |s| ==> !IsBlank(s[r]))
    decreases |s| - i
  {
    if i < |s| && IsBlank(s[i]) then TrimFront(s, i + 1) else i
  }

  /** The end of the last visible character between `i` and `j`. */
  function TrimBack(s: string, i: nat, j: nat): (r: nat)
    requires i <= j <= |s|
    ensures i <= r <= j && (i < r ==> !IsBlank(s[r - 1]))
    decreases j - i
  {
    if i < j && IsBlank(s[j - 1]) then TrimBack(s, i, j - 1) else j
  }

  /** strings.TrimSpace. */
  function Trim(s: string): (r: string)
    ensures IsTrimmed(r)
  {
    s[TrimFront(s, 0)..TrimBack(s, TrimFront(s, 0), |s|)]
  }

  predicate IsTrimmed(s: string) {
    s == [] || (!IsBlank(s[0]) && !IsBlank(s[|s| - 1]))
  }

  lemma TrimOfTrimmed(s: string)
    ensures Trim(s) == s <==> IsTrimmed(s)
  {
    if IsTrimmed(s) {
      assert TrimFront(s, 0) == 0 && TrimBack(s, 0, |s|) == |s|;
      assert s[0..|s|] == s;
    }
  }

  predicate Blank(s: string, i: nat, j: nat)
    requires j <= |s|
  {
    forall k | i <= k < j :: IsBlank(s[k])
  }

  lemma {:induction false} TrimFrontIs(s: string, i: nat, a: nat)
    requires i <= a <= |s| && Blank(s, i, a) && (a < |s| ==> !IsBlank(s[a]))
    ensures TrimFront(s, i) == a
    decreases a - i
  {
    if i < a {
      assert IsBlank(s[i]);
      TrimFrontIs(s, i + 1, a);
    }
  }

  lemma {:induction false} TrimBackIs(s: string, i: nat, b: nat, j: nat)
    requires i < b <= j <= |s| && Blank(s, b, j) && !IsBlank(s[b - 1])
    ensures TrimBack(s, i, j) == b
    decreases j - b
  {
    if b < j {
      assert IsBlank(s[j - 1]);
      TrimBackIs(s, i, b, j - 1);
    }
  }

  /** Trimming keeps what stands between the blanks. */
  lemma TrimIs(s: string, a: nat, b: nat)
    requires a < b <= |s| && Blank(s, 0, a) && Blank(s, b, |s|) && !IsBlank(s[a]) && !IsBlank(s[b - 1])
    ensures Trim(s) == s[a..b]
  {
    TrimFrontIs(s, 0, a);
    TrimBackIs(s, a, b, |s|);
  }

  lemma {:induction false} TrimFrontDrops(s: string, i: nat)
    requires i <= |s|
    ensures Blank(s, i, TrimFront(s, i))
    decreases |s| - i
  {
    if i < |s| && IsBlank(s[i]) {
      TrimFrontDrops(s, i + 1);
    }
  }

  lemma {:induction false} TrimBackDrops(s: string, i: nat, j: nat)
    requires i <= j <= |s|
    ensures Blank(s, TrimBack(s, i, j), j)
    decreases j - i
  {
    if i < j && IsBlank(s[j - 1]) {
      TrimBackDrops(s, i, j - 1);
    }
  }

  /** What trimming leaves, as a stretch of the text. */
  lemma TrimShape(s: string) returns (a: nat, b: nat)
    ensures a <= b <= |s| && Trim(s) == s[a..b] && Blank(s, 0, a) && Blank(s, b, |s|)
    ensures a < b ==> !IsBlank(s[a]) && !IsBlank(s[b - 1])
  {
    a := TrimFront(s, 0);
    b := TrimBack(s, a, |s|);
    TrimFrontDrops(s, 0);
    TrimBackDrops(s, a, |s|);
  }

  /** Trimming a text whose first visible character is at `a` and which has a visible one at `q`. */
  lemma TrimFrom(s: string, a: nat, q: nat) returns (b: nat)
    requires a <= q < |s| && Blank(s, 0, a) && !IsBlank(s[a]) && !IsBlank(s[q])
    ensures q < b <= |s| && Trim(s) == s[a..b] && Blank(s, b, |s|) && !IsBlank(s[b - 1])
  {
    hide Trim;
    var c;
    c, b := TrimShape(s);
    assert q < b && c == a;
  }

  /** The first `c` in `s`. */
  function Index(s: string, c: char): (r: Option<nat>)
    ensures r.Some? ==> r.value < |s| && s[r.value] == c && c !in s[..r.value]
    ensures r.None? ==> c !in s
  {
    if s == [] then None
    else if s[0] == c then Some(0)
    else
      match Index(s[1..], c)
      case None => None
      case Some(i) => assert s[..i + 1] == [s[0]] + s[1..][..i]; Some(i + 1)
  }

  predicate OccursAt(s: string, part: string, i: nat) {
    i + |part| <= |s| && s[i..i + |part|] == part
  }

  /** strings.ToLower. */
  function Lower(s: string): (r: string)
    ensures |r| == |s|
  {
    seq(|s|, i requires 0 <= i < |s| => LowerChar(s[i]))
  }

  /** unquoteScalar for texts whose quotes enclose no escape. */
  function Unquote(t: string): string {
    var v := Trim(t);
    if |v| >= 2 && v[0] == '"' && v[|v| - 1] == '"' then v[1..|v| - 1] else v
  }
}
