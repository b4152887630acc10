/**
 Decimal texts as strconv writes and reads them, and why the scanners take them as one scalar.
 */
module Numbers {
  import opened Lexer
  import opened Splice
  import opened Overlay

  predicate IsDigit(c: char) {
    '0' <= c <= '9'
  }

  function Digit(n: nat): char
    requires n < 10
  {
    ('0' as int + n) as char
  }

  function FormatNat(n: nat): (r: Bytes)
    ensures r != [] && forall i | 0 <= i < |r| :: IsDigit(r[i])
  {
    if n < 10 then [Digit(n)] else FormatNat(n / 10) + [Digit(n % 10)]
  }

  /** strconv.FormatInt(n, 10). */
  function FormatInt(n: int): (r: Bytes)
    ensures r != []
  {
    if n < 0 then ['-'] + FormatNat(-n) else FormatNat(n)
  }

  function ParseNat(s: Bytes): Option<nat> {
    if s == [] then None
    else if !IsDigit(s[|s| - 1]) then None
    else
      var d := s[|s| - 1] as int - '0' as int;
      if |s| == 1 then Some(d)
      else
        match ParseNat(s[..|s| - 1])
        case None => None
        case Some(n) => Some(10 * n + d)
  }

  const MIN_INT32: int := -0x8000_0000
  const MAX_INT32: int := 0x7fff_ffff
  const MAX_UINT32: int := 0xffff_ffff

  predicate IsInt32(n: int) {
    MIN_INT32 <= n <= MAX_INT32
  }

  /** strconv.ParseInt(s, 10, 32): an optional sign, then digits. */
  function ParseInt32(s: Bytes): Option<int> {
    var negative := s != [] && s[0] == '-';
    var digits := if s != [] && (s[0] == '-' || s[0] == '+') then s[1..] else s;
    match ParseNat(digits)
    case None => None
    case Some(n) =>
      var m: int := n;
      var v := if negative then -m else m;
      if IsInt32(v) then Some(v) else None
  }

  /** ParseInt with its error ignored: zero for bad syntax, the nearest bound when out of range. */
  function ReadInt32(s: Bytes): int {
    var negative := s != [] && s[0] == '-';
    var digits := if s != [] && (s[0] == '-' || s[0] == '+') then s[1..] else s;
    match ParseNat(digits)
    case None => 0
    case Some(n) =>
      var m: int := n;
      var v := if negative then -m else m;
      if v < MIN_INT32 then MIN_INT32 else if v > MAX_INT32 then MAX_INT32 else v
  }

  lemma {:induction false} ParseFormatNat(n: nat)
    ensures ParseNat(FormatNat(n)) == Some(n)
  {
    if n >= 10 {
      ParseFormatNat(n / 10);
      assert FormatNat(n)[..|FormatNat(n)| - 1] == FormatNat(n / 10);
    }
  }

  /** A printed 32-bit integer reads back as itself. */
  lemma IntRoundTrip(n: int)
    requires IsInt32(n)
    ensures ParseInt32(FormatInt(n)) == Some(n) && ReadInt32(FormatInt(n)) == n
  {
    hide FormatNat, ParseNat;
    if n < 0 {
      ParseFormatNat(-n);
      assert FormatInt(n)[1..] == FormatNat(-n);
    } else {
      ParseFormatNat(n);
      assert IsDigit(FormatNat(n)[0]);
    }
  }

  /** Different numbers are printed differently. */
  lemma FormatIsInjective(m: int, n: int)
    requires FormatInt(m) == FormatInt(n)
    ensures m == n
  {
    hide FormatNat, ParseNat;
    ParseFormatNat(if m < 0 then -m else m);
    ParseFormatNat(if n < 0 then -n else n);
    var a, b := FormatNat(if m < 0 then -m else m), FormatNat(if n < 0 then -n else n);
    assert IsDigit(a[0]) && IsDigit(b[0]);
    assert m < 0 ==> FormatInt(m)[0] == '-' && FormatInt(m)[1..] == a;
    assert n < 0 ==> FormatInt(n)[0] == '-' && FormatInt(n)[1..] == b;
  }

  /** trimFloat of a number of thousandths: at most three decimals, trailing zeros and point removed. */
  function FormatMilli(m: int): (r: Bytes)
    ensures r != []
  {
    if m < 0 then ['-'] + FormatMilliNat(-m) else FormatMilliNat(m)
  }

  function FormatMilliNat(m: nat): (r: Bytes)
    ensures r != [] && forall i | 0 <= i < |r| :: IsNumberChar(r[i])
  {
    var whole, part := FormatNat(m / 1000), m % 1000;
    if part == 0 then whole
    else if part % 100 == 0 then whole + ['.', Digit(part / 100)]
    else if part % 10 == 0 then whole + ['.', Digit(part / 100), Digit(part / 10 % 10)]
    else whole + ['.', Digit(part / 100), Digit(part / 10 % 10), Digit(part % 10)]
  }

  predicate IsNumberChar(c: char) {
    IsDigit(c) || c == '-' || c == '.'
  }

  ghost predicate IsNumberText(v: Bytes) {
    v != [] && forall i | 0 <= i < |v| :: IsNumberChar(v[i])
  }

  lemma {:induction false} NumberMode(v: Bytes, k: nat)
    requires IsNumberText(v) && k <= |v|
    ensures ModeAt(v, 0, k) == Code
  {
    if k > 0 {
      NumberMode(v, k - 1);
      assert IsNumberChar(v[k - 1]);
    }
  }

  /** A number is read as one scalar and contains no identifier. */
  lemma NumberIsSafe(v: Bytes, key: Bytes, fold: bool)
    requires IsNumberText(v)
    ensures SafeScalar(v) && NoWord(v, key, fold)
  {
    forall k | 0 <= k < |v| ensures !StopAt(v, 0, k) {
      assert IsNumberChar(v[k]);
    }
    StopIsUnique(v, 0, |v|);
    NumberMode(v, |v|);
    assert IsNumberChar(v[0]) && IsNumberChar(v[|v| - 1]);
    forall k: nat ensures !StartsWord(v, k) {
      if k < |v| {
        assert IsNumberChar(v[k]);
      }
    }
  }

  lemma PrintedNumbers(n: int)
    ensures IsNumberText(FormatInt(n)) && IsNumberText(FormatMilli(n))
  {}

  // ----- quoted strings

  /** One character of strconv.Quote; bytes from 0x80 on are kept as they are. */
  function QuoteChar(c: char): (r: Bytes)
    ensures r != []
  {
    if c == '"' || c == '\\' then ['\\', c]
    else if c == '\n' then ['\\', 'n']
    else if c == '\t' then ['\\', 't']
    else if c == '\r' then ['\\', 'r']
    else if c == 7 as char then ['\\', 'a']
    else if c == 8 as char then ['\\', 'b']
    else if c == 11 as char then ['\\', 'v']
    else if c == 12 as char then ['\\', 'f']
    else if c < ' ' || c == 127 as char then ['\\', 'x', Hex(c as int / 16 % 16), Hex(c as int % 16)]
    else [c]
  }

  function Hex(n: nat): char
    requires n < 16
  {
    if n < 10 then Digit(n) else ('a' as int + n - 10) as char
  }

  function QuoteBody(s: Bytes): Bytes {
    if s == [] then [] else QuoteBody(s[..|s| - 1]) + QuoteChar(s[|s| - 1])
  }

  function Quote(s: Bytes): Bytes {
    ['"'] + QuoteBody(s) + ['"']
  }

  lemma QuoteNothing(s: Bytes)
    ensures QuoteBody(s[..0]) == []
  {}

  lemma QuoteStep(s: Bytes, n: nat)
    requires 0 < n <= |s|
    ensures QuoteBody(s[..n]) == QuoteBody(s[..n - 1]) + QuoteChar(s[n - 1])
  {
    hide QuoteChar;
    assert s[..n][..n - 1] == s[..n - 1];
  }

  lemma {:induction false} QuotedMode(s: Bytes, n: nat, tail: Bytes)
    requires n <= |s|
    ensures var v := ['"'] + QuoteBody(s[..n]) + tail;
            && ModeAt(v, 0, 1 + |QuoteBody(s[..n])|) == Text
            && forall k | 1 <= k <= |QuoteBody(s[..n])| :: TextAt(v, 0, k)
    decreases n
  {
    hide QuoteBody, QuoteChar;
    var body := QuoteBody(s[..n]);
    var v := ['"'] + body + tail;
    if n == 0 {
      QuoteNothing(s);
      assert ModeAt(v, 0, 0) == Code && v[0] == '"';
    } else {
      var before, q := QuoteBody(s[..n - 1]), QuoteChar(s[n - 1]);
      QuoteStep(s, n);
      QuotedMode(s, n - 1, q + tail);
      var b := 1 + |before|;
      assert v == ['"'] + before + (q + tail);
      assert forall i | 0 <= i < |q| :: v[b + i] == q[i];
      EscapeMode(v, b, q, s[n - 1]);
    }
  }

  lemma EscapeMode(v: Bytes, b: nat, q: Bytes, c: char)
    requires b + |q| <= |v| && ModeAt(v, 0, b) == Text && q == QuoteChar(c)
    requires forall i | 0 <= i < |q| :: v[b + i] == q[i]
    ensures ModeAt(v, 0, b + |q|) == Text
    ensures forall k | b <= k < b + |q| :: TextAt(v, 0, k)
  {
    assert v[b] == q[0];
    if |q| > 1 {
      assert ModeAt(v, 0, b + 1) == Escape;
      assert ModeAt(v, 0, b + 2) == Text;
      if |q| == 4 {
        assert v[b + 2] == q[2] && v[b + 3] == q[3];
        assert ModeAt(v, 0, b + 3) == Text;
      }
    }
  }

  /** A quoted string is read as one scalar and contains no identifier token, whatever it quotes. */
  lemma QuoteIsSafe(s: Bytes, key: Bytes, fold: bool)
    ensures SafeScalar(Quote(s)) && NoWord(Quote(s), key, fold)
  {
    var v, n := Quote(s), |QuoteBody(s)|;
    assert s[..|s|] == s;
    QuotedMode(s, |s|, ['"']);
    assert v[n + 1] == '"' && ModeAt(v, 0, n + 2) == Code;
    forall k | 0 <= k < |v| ensures !StopAt(v, 0, k) {
      if 1 <= k <= n {
        assert TextAt(v, 0, k);
      }
    }
    StopIsUnique(v, 0, |v|);
    forall k: nat ensures !StartsWord(v, k) {
      if 1 <= k <= n {
        assert TextAt(v, 0, k);
      }
    }
  }
}
