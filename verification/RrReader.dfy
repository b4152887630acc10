/**
 ParseRR: the values that the reader of rr.conf ends up with.
 */
module RrReader {
  import opened Lexer
  import opened Text
  import opened Numbers
  import opened Ini
  import opened RrLines

  /** Of these keys the last acceptable value counts, of the others the first one. */
  const LAST_KEYS: set<string> := {"a3_offset", "time_to_trigger", "hysteresis"}

  predicate IsUint32(v: Bytes) {
    ParseNat(v).Some? && ParseNat(v).value <= MAX_UINT32
  }

  /** The reader accepts the text as a value of the key. */
  predicate Suits(key: Bytes, v: Bytes) {
    if key == "cell_id" || key == "tac" then v != []
    else if key == "dl_earfcn" || key == "pci" then IsUint32(v)
    else if key == "ho_active" then Lower(v) == "true" || Lower(v) == "false"
    else key in LAST_KEYS && ParseInt32(v).Some?
  }

  type Values = map<Bytes, Bytes>

  function Absorbed(out: Values, line: Bytes): Values {
    match RrEntry(line)
    case None => out
    case Some((key, v)) => if Suits(key, v) && (key in LAST_KEYS || key !in out) then out[key := v] else out
  }

  function RrValues(ls: seq<Bytes>): Values {
    if ls == [] then map[] else Absorbed(RrValues(ls[..|ls| - 1]), ls[|ls| - 1])
  }

  /** ParseRR with the accepted texts in place of the typed fields; it fails without frequency or cell identity. */
  method ParseRR(d: Bytes) returns (r: Option<Values>)
    ensures var values := RrValues(SplitLines(d));
            r == if "dl_earfcn" in values && "pci" in values then Some(values) else None
  {
    hide StripComment, AssignmentLine, ScanLine, Unquote, Lower, ParseInt32, ParseNat;
    var lines := SplitLines(d);
    var out: Values := map[];
    var gotEarfcn, gotPci, i := false, false, 0;
    assert lines[..0] == [];
    while i < |lines|
      invariant 0 <= i <= |lines| && out == RrValues(lines[..i])
      invariant gotEarfcn == ("dl_earfcn" in out) && gotPci == ("pci" in out)
    {
      assert lines[..i + 1][..i] == lines[..i];
      var e := RrEntry(lines[i]);
      i := i + 1;
      if e.None? {
        continue;
      }
      var (key, v) := e.value;
      if key == "cell_id" || key == "tac" {
        if key !in out && v != [] {
          out := out[key := v];
        }
      } else if key == "dl_earfcn" {
        if !gotEarfcn && IsUint32(v) {
          out, gotEarfcn := out[key := v], true;
        }
      } else if key == "pci" {
        if !gotPci && IsUint32(v) {
          out, gotPci := out[key := v], true;
        }
      } else if key == "ho_active" {
        if key !in out && (Lower(v) == "true" || Lower(v) == "false") {
          out := out[key := v];
        }
      } else if key in LAST_KEYS && ParseInt32(v).Some? {
        out := out[key := v];
      }
    }
    assert lines[..i] == lines;
    return if gotEarfcn && gotPci then Some(out) else None;
  }

  // ----- one line of a key

  predicate IsEntryOf(line: Bytes, k: Bytes) {
    RrEntry(line).Some? && RrEntry(line).value.0 == k
  }

  lemma {:induction false} NoEntry(ls: seq<Bytes>, k: Bytes)
    requires forall j | 0 <= j < |ls| :: !IsEntryOf(ls[j], k)
    ensures k !in RrValues(ls)
    decreases |ls|
  {
    hide RrEntry, Suits;
    if ls != [] {
      NoEntry(ls[..|ls| - 1], k);
    }
  }

  /** A key with one line has the value of that line, if it is acceptable. */
  lemma {:induction false} OnlyEntry(ls: seq<Bytes>, i: nat, k: Bytes, v: Bytes)
    requires i < |ls| && RrEntry(ls[i]) == Some((k, v)) && forall j | 0 <= j < |ls| && j != i :: !IsEntryOf(ls[j], k)
    ensures if Suits(k, v) then k in RrValues(ls) && RrValues(ls)[k] == v else k !in RrValues(ls)
    decreases |ls|
  {
    hide RrEntry, Suits;
    var n := |ls| - 1;
    var before := ls[..n];
    if i == n {
      NoEntry(before, k);
    } else {
      assert !IsEntryOf(ls[n], k);
      OnlyEntry(before, i, k, v);
    }
  }

  // ----- several lines of a key

  predicate SuitingLine(line: Bytes, k: Bytes) {
    RrEntry(line).Some? && RrEntry(line).value.0 == k && Suits(k, RrEntry(line).value.1)
  }

  /**
   Of the keys whose last value counts, a line that is replaced decides the value if and only if no
   acceptable line of the key follows; otherwise the value is what it was.
   */
  lemma {:induction false} LaterLineWins(ls: seq<Bytes>, i: nat, new': Bytes, k: Bytes, v: Bytes)
    requires i < |ls| && k in LAST_KEYS && RrEntry(new') == Some((k, v)) && Suits(k, v)
    ensures var values := RrValues(ls[i := new']);
            && k in values
            && if exists j | i < j < |ls| :: SuitingLine(ls[j], k) then k in RrValues(ls) && values[k] == RrValues(ls)[k] else values[k] == v
    decreases |ls|
  {
    hide RrEntry, Suits, LAST_KEYS;
    var n, ls' := |ls| - 1, ls[i := new'];
    if i == n {
      assert ls'[..n] == ls[..n];
    } else {
      assert ls'[..n] == ls[..n][i := new'] && ls'[n] == ls[n];
      LaterLineWins(ls[..n], i, new', k, v);
      if exists j | i < j < |ls| :: SuitingLine(ls[j], k) {
        var j :| i < j < |ls| && SuitingLine(ls[j], k);
        assert j < n ==> SuitingLine(ls[..n][j], k);
      }
      assert forall j | i < j < n :: SuitingLine(ls[..n][j], k) == SuitingLine(ls[j], k);
    }
  }
}
