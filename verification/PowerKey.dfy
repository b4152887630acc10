/**
 reference_signal_power: the renderer writes it under its own name, the reader of sib.conf looks
 for rs_power. What that means for reading back the leaf.
 */
module PowerKey {
  import opened Lexer
  import opened Splice
  import opened Cutting
  import opened Overlay
  import opened Text
  import opened Numbers
  import opened Batch
  import opened Config
  import opened Routing
  import opened Rendering
  import opened Store
  import opened Commits
  import opened SafeTexts
  import opened Reduction
  import opened Brackets
  import opened QciInsert
  import opened SibShape
  import A = Agreement
  import Qci

  const POWER: string := "reference_signal_power"

  // ----- commits

  lemma SibHasNoFlags(k: string)
    requires k in SIB_KEYS
    ensures k !in BOOL_LEAVES
  {}

  /** No value of sib.conf contains a word. */
  lemma SibTextHasNoWord(cfg: Configuration, k: string, other: Bytes)
    requires Sound(cfg) && k in SIB_KEYS
    ensures NoWord(LeafText(cfg, k), other, true)
  {
    hide SafeValue, FormatInt, FormatMilli, Quote, STRING_LEAVES, PLAIN_STRINGS, IsNumberText, SIB_KEYS, NoWord, SafeScalar;
    assert k in cfg.leaves;
    match cfg.leaves[k]
    case Str(s) =>
      TypedString(cfg, k);
      StringOfSib(k);
      QuoteIsSafe(s, other, true);
    case I32(n) =>
      PrintedNumbers(n);
      NumberIsSafe(FormatInt(n), other, true);
    case U32(n) =>
      PrintedNumbers(n);
      NumberIsSafe(FormatInt(n), other, true);
    case F64(m) =>
      PrintedNumbers(m);
      NumberIsSafe(FormatMilli(m), other, true);
    case Flag(b) =>
      FlagOfSib(cfg, k);
  }

  lemma StringOfSib(k: string)
    requires k in SIB_KEYS && k in STRING_LEAVES
    ensures k == "cell_barred"
  {
    StringsOfFiles(SIB, k);
  }

  lemma FlagOfSib(cfg: Configuration, k: string)
    requires Typed(cfg) && k in cfg.leaves && k in SIB_KEYS
    ensures !cfg.leaves[k].Flag?
  {
    hide SIB_KEYS, STRING_LEAVES, INT32_LEAVES, UINT32_LEAVES, FLOAT_LEAVES, BOOL_LEAVES;
    SibHasNoFlags(k);
  }

  /** A commit does not change what the reader finds under a key of its own. */
  lemma CommitLeavesReader(s: Content, env: Env, isIP: string -> bool, other: Bytes)
    requires A.Inv(s) && Lists(env.order, s.dirtyKeys) && Committed(s, env, isIP).ok
    requires SIB in s.disk && ReaderApart(s.disk[SIB], SIB_KEYS, other)
    ensures var t := Committed(s, env, isIP).content;
            SIB in t.disk && ReadScalar(t.disk[SIB], other, true) == ReadScalar(s.disk[SIB], other, true)
  {
    hide Committed, Persists, ReadScalar, SIB_KEYS, Layout, NoWord, SafeValue, ReaderApart, Sound, A.Tracked, A.Marked, LeafText, Lists;
    CommitIsAtomic(s, env, isIP);
    if SIB in s.dirty {
      A.PersistedRenders(s, env, isIP, SIB);
      KeysOfSib();
      var d, values := s.disk[SIB], LeafTexts(s.cand, SIB_KEYS);
      A.RenderPlain(SIB, d, env.order, s.cand);
      assert A.FileAgrees(d, SIB, s.running) && values.Keys == SIB_KEYS;
      forall k | k in values ensures SafeValue(values[k], SIB_KEYS) && NoWord(values[k], other, true) {
        SoundTexts(s.cand, SIB, k);
        SibTextHasNoWord(s.cand, k, other);
      }
      BatchLeavesReader(d, env.order, values, other);
    }
  }

  lemma KeysOfSib()
    ensures KeysOf(SIB) == SIB_KEYS
  {}

  /**
   The leaf does not read back. After a commit of reference_signal_power that succeeds, over a file
   in which rs_power stands apart, the renderer's key holds the running number, and the number that
   the reader gives is the running one if and only if it already was before the commit.
   */
  lemma PowerIsNotReadBack(s: Content, env: Env, n: int, isIP: string -> bool)
    requires A.Inv(s) && Lists(env.order, s.dirtyKeys) && Committed(s, env, isIP).ok && POWER in s.dirtyKeys
    requires SIB in s.disk && ReaderApart(s.disk[SIB], SIB_KEYS, READER_POWER)
    requires POWER in s.cand.leaves && s.cand.leaves[POWER] == I32(n)
    ensures var t := Committed(s, env, isIP).content;
            && t.running.leaves[POWER] == I32(n) && SIB in t.disk
            && ReadScalar(t.disk[SIB], POWER, false) == Some(FormatInt(n))
            && (Qci.IntIn(t.disk[SIB], READER_POWER) == n <==> Qci.IntIn(s.disk[SIB], READER_POWER) == n)
  {
    hide A.Inv, Committed, Persists, ReadScalar, FormatInt, ReaderApart, Lists, FileOf, SIB_KEYS;
    CommitLeavesReader(s, env, isIP, READER_POWER);
    CommitIsAtomic(s, env, isIP);
    PowerIsHeld(s, env, isIP);
    A.CommitKeepsInv(s, env, isIP);
    PowerReads(Committed(s, env, isIP).content, n);
  }

  /** A commit of the leaf succeeds only if the file has the renderer's key, and keeps it. */
  lemma PowerIsHeld(s: Content, env: Env, isIP: string -> bool)
    requires A.Inv(s) && Lists(env.order, s.dirtyKeys) && Committed(s, env, isIP).ok && POWER in s.dirtyKeys && SIB in s.disk
    ensures ReadScalar(s.disk[SIB], POWER, false).Some? && SIB in Committed(s, env, isIP).content.disk
    ensures ReadScalar(Committed(s, env, isIP).content.disk[SIB], POWER, false).Some?
  {
    hide A.Inv, Committed, ReadScalar, RenderFor, Persists, Lists, FileOf;
    A.KeyOfSib();
    A.LeafOfFile(SIB, POWER);
    A.MarkedFile(s, POWER);
    CommitIsAtomic(s, env, isIP);
    A.PersistedRenders(s, env, isIP, SIB);
    A.RenderSucceeds(s, SIB, env.order);
    A.CommitKeepsInv(s, env, isIP);
    assert A.SameKeys(s.disk[SIB], Committed(s, env, isIP).content.disk[SIB], KeysOf(SIB));
  }

  lemma PowerReads(t: Content, n: int)
    requires A.Inv(t) && SIB in t.disk && POWER in t.running.leaves && t.running.leaves[POWER] == I32(n)
    requires ReadScalar(t.disk[SIB], POWER, false).Some?
    ensures ReadScalar(t.disk[SIB], POWER, false) == Some(FormatInt(n))
  {
    hide Sound, A.Tracked, A.Marked, Layout, ReadScalar, FormatInt, KeysOf;
    A.KeyOfSib();
    assert A.FileAgrees(t.disk[SIB], SIB, t.running);
    assert A.Matches(t.disk[SIB], POWER, t.running);
  }
}
