/**
 sib.conf as its own reader reads it, block by block, over every run.
 */
module SibAgreement {
  import opened Lexer
  import opened Splice
  import opened Batch
  import opened Config
  import opened Text
  import opened Numbers
  import opened QciProfiles
  import opened Routing
  import opened Rendering
  import opened Store
  import opened Commits
  import opened SafeTexts
  import opened SibBlocks
  import opened SibShape
  import opened PowerKey
  import opened Agreement

  ghost predicate SibInv(s: Content) {
    Inv(s) && (SIB in s.disk ==> Shape(s.disk[SIB]))
  }

  lemma SibTextIsNameless(cfg: Configuration, k: string)
    requires Sound(cfg) && k in SIB_KEYS
    ensures Nameless(LeafText(cfg, k))
  {
    hide Sound, LeafText, NoWord, SIB_KEYS, NAMES;
    forall g: Bytes ensures NoWord(LeafText(cfg, k), g, true) {
      SibTextHasNoWord(cfg, k, g);
    }
  }

  lemma CommitKeepsShape(s: Content, env: Env, isIP: string -> bool)
    requires SibInv(s) && Lists(env.order, s.dirtyKeys) && Committed(s, env, isIP).ok && SIB in s.disk
    ensures SIB in Committed(s, env, isIP).content.disk && Shape(Committed(s, env, isIP).content.disk[SIB])
  {
    hide Committed, Persists, SIB_KEYS, Shape, Nameless, SafeValue, Sound, Tracked, Marked, DiskAgrees, LeafText, Lists, RenderFor;
    CommitIsAtomic(s, env, isIP);
    if SIB in s.dirty {
      PersistedRenders(s, env, isIP, SIB);
      KeysOfSib();
      var values := LeafTexts(s.cand, SIB_KEYS);
      RenderPlain(SIB, s.disk[SIB], env.order, s.cand);
      assert values.Keys == SIB_KEYS;
      forall k | k in values ensures SafeValue(values[k], SIB_KEYS) && Nameless(values[k]) {
        SoundTexts(s.cand, SIB, k);
        SibTextIsNameless(s.cand, k);
      }
      RenderKeepsShape(s.disk[SIB], env.order, values);
    }
  }

  lemma StepKeepsSib(s: Content, step: Step, isIP: string -> bool)
    requires SibInv(s) && Proper(s, step)
    ensures SibInv(Do(s, step, isIP))
  {
    hide Inv, Committed, Shape, Preview, Marks, FilesOf, SafeChange;
    StepKeepsInv(s, step, isIP);
    match step
    case Edit(changes) =>
    case Discard =>
    case Commit(env) =>
      if Committed(s, env, isIP).ok {
        CommitIsAtomic(s, env, isIP);
        if SIB in s.disk {
          CommitKeepsShape(s, env, isIP);
        }
      } else {
        FailedCommit(s, env, isIP);
      }
  }

  /**
   sib.conf over every run, as ParseSIB reads it. Starting from agreement and a file whose keys lie in
   the blocks where the reader looks, after any sequence of edits (failed ones included), discards
   and commits, the keys still lie in those blocks.
   */
  lemma {:induction false} SibShapeOverRuns(s: Content, steps: seq<Step>, isIP: string -> bool)
    requires SibInv(s)
    requires forall k | 0 <= k < |steps| :: Proper(Run(s, steps[..k], isIP), steps[k])
    ensures SibInv(Run(s, steps, isIP))
    decreases |steps|
  {
    hide SibInv, Do, Proper;
    if steps != [] {
      var n := |steps| - 1;
      var before := steps[..n];
      forall k | 0 <= k < n ensures Proper(Run(s, before[..k], isIP), before[k]) {
        assert before[..k] == steps[..k];
      }
      SibShapeOverRuns(s, before, isIP);
      StepKeepsSib(Run(s, before, isIP), steps[n], isIP);
    }
  }

  /**
   So the reader gives the running value: whatever it finds for a leaf in its block is the text
   of the running value, over every run, and the number it makes of it is the running number.
   */
  lemma ReaderAgreesWithRunning(s: Content, steps: seq<Step>, k: string, isIP: string -> bool)
    requires SibInv(s) && k in SIB_KEYS && PathOf(k).Some?
    requires forall i | 0 <= i < |steps| :: Proper(Run(s, steps[..i], isIP), steps[i])
    ensures var t := Run(s, steps, isIP);
            SIB in t.disk ==>
              var r := ReaderText(t.disk[SIB], PathOf(k).value, k);
              && r == ReadScalar(t.disk[SIB], k, false) && (r.None? || r == Some(LeafText(t.running, k)))
              && (r.Some? && k in t.running.leaves && t.running.leaves[k].I32? && IsInt32(t.running.leaves[k].i) ==>
                  ReaderInt(t.disk[SIB], PathOf(k).value, k) == t.running.leaves[k].i)
  {
    hide Inv, Shape, Run, PathOf, SIB_KEYS, ReaderText, ReadScalar, LeafText, ReadInt32, Unquote;
    SibShapeOverRuns(s, steps, isIP);
    var t := Run(s, steps, isIP);
    if SIB in t.disk {
      KeyReads(t.disk[SIB], k);
      KeysOfSib();
      SibMatches(t, k);
      if k in t.running.leaves && t.running.leaves[k].I32? && IsInt32(t.running.leaves[k].i) {
        NumberText(t.running, k);
      }
    }
  }

  lemma KeyReads(d: Bytes, k: string)
    requires Shape(d) && k in SIB_KEYS && PathOf(k).Some?
    ensures ReaderText(d, PathOf(k).value, k) == ReadScalar(d, k, false)
  {
    hide Layout, InPlace, ReaderApart, PathOf, ReaderText, SIB_KEYS, NAMES, READER_POWER, Assignment;
    assert Agreeing(d, k) && InPlace(d, k);
    ShapeReads(d, k);
  }

  lemma NumberText(cfg: Configuration, k: string)
    requires k in cfg.leaves && cfg.leaves[k].I32? && IsInt32(cfg.leaves[k].i)
    ensures ReadInt32(Unquote(LeafText(cfg, k))) == cfg.leaves[k].i
  {
    hide FormatInt, ReadInt32, Unquote;
    NumberUnquoted(cfg.leaves[k].i);
    IntRoundTrip(cfg.leaves[k].i);
  }

  lemma SibMatches(t: Content, k: string)
    requires Inv(t) && SIB in t.disk && k in KeysOf(SIB)
    ensures Matches(t.disk[SIB], k, t.running)
  {
    hide Sound, Tracked, Marked, Layout, ReadScalar, LeafText, KeysOf;
    assert FileAgrees(t.disk[SIB], SIB, t.running);
  }

  /** Where ParseSIB looks for reference_signal_power. */
  const POWER_PATH: Path := Two("sib2", "pdsch_cnfg")

  /**
   The one leaf that ParseSIB does not read back. After a commit of reference_signal_power that
   succeeds, the renderer's key holds the running number, while the reader finds in its block
   what it found before, so that its number is the running one if and only if it already was.
   */
  lemma PowerInItsBlock(s: Content, env: Env, n: int, isIP: string -> bool)
    requires SibInv(s) && Lists(env.order, s.dirtyKeys) && Committed(s, env, isIP).ok && POWER in s.dirtyKeys && SIB in s.disk
    requires POWER in s.cand.leaves && s.cand.leaves[POWER] == I32(n)
    ensures var t := Committed(s, env, isIP).content;
            && t.running.leaves[POWER] == I32(n) && SIB in t.disk && ReadScalar(t.disk[SIB], POWER, false) == Some(FormatInt(n))
            && ReaderText(t.disk[SIB], POWER_PATH, READER_POWER) == ReaderText(s.disk[SIB], POWER_PATH, READER_POWER)
            && (ReaderInt(t.disk[SIB], POWER_PATH, READER_POWER) == n <==> ReaderInt(s.disk[SIB], POWER_PATH, READER_POWER) == n)
  {
    hide Inv, Shape, Committed, Lists, ReadScalar, ReaderText, FormatInt, POWER, READER_POWER, ReadInt32, Unquote, POWER_PATH;
    PowerApart(s.disk[SIB]);
    PowerIsNotReadBack(s, env, n, isIP);
    CommitLeavesReader(s, env, isIP, READER_POWER);
    CommitKeepsShape(s, env, isIP);
    PowerReadsInBlock(s.disk[SIB]);
    PowerReadsInBlock(Committed(s, env, isIP).content.disk[SIB]);
  }

  lemma PowerApart(d: Bytes)
    requires Shape(d)
    ensures ReaderApart(d, SIB_KEYS, READER_POWER)
  {
    hide Layout, InPlace, ReaderApart, SIB_KEYS, NAMES, READER_POWER, Agreeing;
    PowerIsName();
  }

  lemma PowerReadsInBlock(d: Bytes)
    requires Shape(d)
    ensures ReaderText(d, POWER_PATH, READER_POWER) == ReadScalar(d, READER_POWER, true)
  {
    hide Layout, InPlace, ReaderApart, SIB_KEYS, NAMES, READER_POWER, Agreeing, ReaderText, PathOf, ReadScalar;
    PowerIsName();
    ShapeReads(d, READER_POWER);
  }
}
