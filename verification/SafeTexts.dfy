/**
 Which leaf values are safe to write: all numbers, flags and quoted strings are; only the two plain
 strings of rr.conf depend on what they contain.
 */
module SafeTexts {
  import opened Lexer
  import opened Text
  import opened Splice
  import opened Numbers
  import opened Overlay
  import opened Batch
  import opened Config
  import opened Routing
  import opened Rendering
  import opened Edits
  import opened Reduction

  /** The libconfig files whose leaves are plain assignments. */
  predicate IsPlainFile(f: File) {
    f.RR? || f.SIB?
  }

  function KeysOf(f: File): set<Bytes>
    requires IsPlainFile(f)
  {
    if f.RR? then RR_KEYS else SIB_KEYS
  }

  const PLAIN_STRINGS: set<string> := {"cell_id", "tac"}

  ghost predicate SafeString(cfg: Configuration, k: string) {
    k in cfg.leaves && cfg.leaves[k].Str? && SafeValue(cfg.leaves[k].s, RR_KEYS)
  }

  /** Every value has its type, the leaves of both files are there, and the plain strings are safe. */
  ghost predicate Sound(cfg: Configuration) {
    && Typed(cfg) && (forall k | k in RR_KEYS || k in SIB_KEYS :: k in cfg.leaves)
    && forall k | k in PLAIN_STRINGS :: SafeString(cfg, k)
  }

  // ----- words

  lemma {:induction false} WordMode(v: Bytes, k: nat)
    requires IsName(v) && 0 < k <= |v|
    ensures ModeAt(v, 0, k) == Word
    decreases k
  {
    assert IsIdent(v[k - 1]);
    if k > 1 {
      WordMode(v, k - 1);
    } else {
      assert ModeAt(v, 0, 0) == Code;
    }
  }

  /** An identifier is read as one scalar and is no other key. */
  lemma WordIsSafe(v: Bytes, keys: set<Bytes>)
    requires IsName(v) && v !in keys
    ensures SafeValue(v, keys)
  {
    hide NoWord, ModeAt;
    forall k | 0 <= k < |v| ensures !StopAt(v, 0, k) {
      assert IsIdent(v[k]);
    }
    StopIsUnique(v, 0, |v|);
    WordMode(v, |v|);
    assert IsIdent(v[|v| - 1]);
    forall b | b in keys ensures NoWord(v, b, false) {
      WordIsNoOther(v, b);
    }
  }

  lemma WordIsNoOther(v: Bytes, b: Bytes)
    requires IsName(v) && v != b
    ensures NoWord(v, b, false)
  {
    hide ModeAt;
    forall k: nat ensures StartsWord(v, k) ==> !TokenIs(v, k, WordEnd(v, k), b, false) {
      if 0 < k < |v| {
        WordMode(v, k);
      } else if k == 0 {
        WordFrom(v, 0, |v|);
        ExactToken(v, 0, |v|, b);
        assert v[0..|v|] == v;
      }
    }
  }

  lemma FlagsAreSafe(b: bool, f: File)
    requires IsPlainFile(f)
    ensures SafeValue(if b then "true" else "false", KeysOf(f))
  {
    hide SafeValue;
    var v := if b then "true" else "false";
    FlagIsNoKey();
    forall i | 0 <= i < |v| ensures IsIdent(v[i]) {}
    WordIsSafe(v, KeysOf(f));
  }

  lemma FlagIsNoKey()
    ensures "true" !in RR_KEYS && "true" !in SIB_KEYS && "false" !in RR_KEYS && "false" !in SIB_KEYS
  {}

  lemma NumbersAreSafe(v: Bytes, keys: set<Bytes>)
    requires IsNumberText(v)
    ensures SafeValue(v, keys)
  {
    hide SafeScalar, NoWord, IsNumberText;
    NumberIsSafe(v, v, false);
    forall b | b in keys ensures NoWord(v, b, false) {
      NumberIsSafe(v, b, false);
    }
  }

  lemma QuotesAreSafe(s: Bytes, keys: set<Bytes>)
    ensures SafeValue(Quote(s), keys)
  {
    hide SafeScalar, NoWord, Quote;
    QuoteIsSafe(s, s, false);
    forall b | b in keys ensures NoWord(Quote(s), b, false) {
      QuoteIsSafe(s, b, false);
    }
  }

  /** The string leaves of the two files. */
  lemma StringsOfFiles(f: File, k: string)
    requires IsPlainFile(f) && k in KeysOf(f) && k in STRING_LEAVES
    ensures k == "cell_barred" || (k in PLAIN_STRINGS && f.RR? && k != "cell_barred")
  {}

  /** Every value of a sound configuration is safe to write. */
  lemma SoundTexts(cfg: Configuration, f: File, k: string)
    requires Sound(cfg) && IsPlainFile(f) && k in KeysOf(f)
    ensures k in cfg.leaves && SafeValue(LeafText(cfg, k), KeysOf(f))
  {
    hide SafeValue, FormatInt, FormatMilli, Quote, STRING_LEAVES, PLAIN_STRINGS, IsNumberText, KeysOf;
    InFile(f, k);
    assert k in cfg.leaves;
    match cfg.leaves[k]
    case Str(s) =>
      TypedString(cfg, k);
      StringsOfFiles(f, k);
      if k == "cell_barred" {
        QuotesAreSafe(s, KeysOf(f));
      } else {
        assert SafeString(cfg, k);
        KeysOfRr();
      }
    case I32(n) =>
      PrintedNumbers(n);
      NumbersAreSafe(FormatInt(n), KeysOf(f));
    case U32(n) =>
      PrintedNumbers(n);
      NumbersAreSafe(FormatInt(n), KeysOf(f));
    case F64(m) =>
      PrintedNumbers(m);
      NumbersAreSafe(FormatMilli(m), KeysOf(f));
    case Flag(b) =>
      FlagsAreSafe(b, f);
  }

  lemma KeysOfRr()
    ensures KeysOf(RR) == RR_KEYS
  {}

  lemma InFile(f: File, k: string)
    requires IsPlainFile(f) && k in KeysOf(f)
    ensures k in RR_KEYS || k in SIB_KEYS
  {}

  lemma TypedString(cfg: Configuration, k: string)
    requires Typed(cfg) && k in cfg.leaves && cfg.leaves[k].Str?
    ensures k in STRING_LEAVES
  {}

  // ----- edits keep configurations sound

  /** A change gives a plain string leaf only safe text. */
  ghost predicate SafeChange(c: Change) {
    Trim(c.0) in PLAIN_STRINGS && c.1.AnyString? ==> SafeValue(Trim(c.1.s), RR_KEYS)
  }

  lemma ApplyKeepsSound(cfg: Configuration, c: Change)
    requires Sound(cfg) && SafeChange(c) && Apply(cfg, Trim(c.0), c.1).Good?
    ensures Sound(Apply(cfg, Trim(c.0), c.1).value)
  {
    hide Typed, SafeValue, Trim, ParseQciKey, PLAIN_STRINGS, RR_KEYS, SIB_KEYS, KindOf, Convert;
    ApplyKeepsTyped(cfg, Trim(c.0), c.1);
    var next := Apply(cfg, Trim(c.0), c.1).value;
    forall k | k in PLAIN_STRINGS ensures SafeString(next, k) {
      assert SafeString(cfg, k);
      if k == Trim(c.0) {
        PlainStringKind(k);
        StringConverts(c.1);
      }
    }
  }

  lemma PlainStringKind(k: string)
    requires k in PLAIN_STRINGS
    ensures KindOf(k) == Some(KString)
  {}

  lemma StringConverts(v: Any)
    ensures Convert(KString, v).Good? ==> v.AnyString? && Convert(KString, v).value == Str(Trim(v.s))
  {}

  lemma {:induction false} EditKeepsSound(cfg: Configuration, changes: seq<Change>)
    requires Sound(cfg) && (forall c | c in changes :: SafeChange(c)) && ApplyAll(cfg, changes).Good?
    ensures Sound(ApplyAll(cfg, changes).value)
    decreases |changes|
  {
    hide Sound, SafeChange, Apply, Trim;
    if changes != [] {
      ApplyKeepsSound(cfg, changes[0]);
      EditKeepsSound(Apply(cfg, Trim(changes[0].0), changes[0].1).value, changes[1..]);
    }
  }
}
