/**
 rr.conf as its own reader reads it, line by line, over every run.
 */
module RrAgreement {
  import opened Lexer
  import opened Text
  import opened Splice
  import opened Numbers
  import opened Overlay
  import opened Batch
  import opened Config
  import opened Routing
  import opened Rendering
  import opened Ini
  import opened IniValues
  import opened Store
  import opened Commits
  import opened SafeTexts
  import opened Agreement
  import opened EnbAgreement
  import Reduction
  import opened RrLines
  import opened RrReader
  import opened RrShape

  // ----- values that have their line to themselves

  ghost predicate LoneValues(cfg: Configuration) {
    forall k | k in RR_KEYS :: k in cfg.leaves && IsLoneValue(LeafText(cfg, k))
  }

  /** A change gives an rr.conf leaf only text that the reader takes as it stands. */
  ghost predicate LoneChange(c: Change) {
    Trim(c.0) in RR_KEYS && c.1.AnyString? ==> IsLoneValue(Trim(c.1.s))
  }

  lemma ConvertedIsLone(kind: Kind, v: Any, k: string)
    requires Convert(kind, v).Good? && k != "cell_barred" && (v.AnyString? ==> IsLoneValue(Trim(v.s)))
    ensures IsLoneValue(TextOf(Convert(kind, v).value, k))
  {
    hide SafeIni, FormatInt, FormatMilli, Trim;
    ConvertedIsSafe(kind, v, k);
    match Convert(kind, v).value
    case Str(s) =>
    case I32(n) =>
    case U32(n) =>
    case F64(m) => PrintedNumbers(m);
    case Flag(b) =>
  }

  lemma BarredIsNotHere()
    ensures "cell_barred" !in RR_KEYS
  {}

  lemma ApplyKeepsLone(cfg: Configuration, c: Change)
    requires LoneValues(cfg) && LoneChange(c) && Apply(cfg, Trim(c.0), c.1).Good?
    ensures LoneValues(Apply(cfg, Trim(c.0), c.1).value)
  {
    hide IsLoneValue, Trim, ParseQciKey, RR_KEYS, KindOf, Convert, TextOf;
    var next := Apply(cfg, Trim(c.0), c.1).value;
    BarredIsNotHere();
    forall k | k in RR_KEYS ensures k in next.leaves && IsLoneValue(LeafText(next, k)) {
      assert k in cfg.leaves && IsLoneValue(LeafText(cfg, k));
      if k == Trim(c.0) && KindOf(k).Some? {
        ConvertedIsLone(KindOf(k).value, c.1, k);
      }
    }
  }

  lemma {:induction false} EditKeepsLone(cfg: Configuration, changes: seq<Change>)
    requires LoneValues(cfg) && (forall c | c in changes :: LoneChange(c)) && ApplyAll(cfg, changes).Good?
    ensures LoneValues(ApplyAll(cfg, changes).value)
    decreases |changes|
  {
    hide LoneValues, LoneChange, Apply, Trim;
    if changes != [] {
      ApplyKeepsLone(cfg, changes[0]);
      EditKeepsLone(Apply(cfg, Trim(changes[0].0), changes[0].1).value, changes[1..]);
    }
  }

  // ----- runs

  ghost predicate RrInv(s: Content) {
    && Inv(s) && LoneValues(s.running) && LoneValues(s.cand)
    && (RR in s.disk ==> RrShape.Shape(s.disk[RR]))
  }

  ghost predicate LoneStep(step: Step) {
    step.Edit? ==> forall c | c in step.changes :: LoneChange(c)
  }

  lemma KeysOfRr()
    ensures KeysOf(RR) == RR_KEYS
  {}

  lemma CommitKeepsLines(s: Content, env: Env, isIP: string -> bool)
    requires RrInv(s) && Lists(env.order, s.dirtyKeys) && Committed(s, env, isIP).ok && RR in s.disk
    ensures RR in Committed(s, env, isIP).content.disk && RrShape.Shape(Committed(s, env, isIP).content.disk[RR])
  {
    hide Committed, Persists, RR_KEYS, RrShape.Shape, IsLoneValue, SafeValue, Sound, Tracked, Marked, DiskAgrees, LeafText, Lists, RenderFor;
    CommitIsAtomic(s, env, isIP);
    if RR in s.dirty {
      PersistedRenders(s, env, isIP, RR);
      KeysOfRr();
      var values := LeafTexts(s.cand, RR_KEYS);
      RenderPlain(RR, s.disk[RR], env.order, s.cand);
      assert values.Keys == RR_KEYS;
      forall k | k in values ensures SafeValue(values[k], RR_KEYS) && IsLoneValue(values[k]) {
        SoundTexts(s.cand, RR, k);
      }
      RenderKeepsShape(s.disk[RR], env.order, values);
    }
  }

  lemma StepKeepsRr(s: Content, step: Step, isIP: string -> bool)
    requires RrInv(s) && Proper(s, step) && LoneStep(step)
    ensures RrInv(Do(s, step, isIP))
  {
    hide Inv, Committed, RrShape.Shape, LoneValues, ApplyAll, Valid, Marks, FilesOf, SafeChange, LoneChange;
    StepKeepsInv(s, step, isIP);
    match step
    case Edit(changes) =>
      if Preview(s.cand, changes, isIP).Good? {
        EditKeepsLone(s.cand, changes);
      }
    case Discard =>
    case Commit(env) =>
      if Committed(s, env, isIP).ok {
        CommitIsAtomic(s, env, isIP);
        if RR in s.disk {
          CommitKeepsLines(s, env, isIP);
        }
      } else {
        FailedCommit(s, env, isIP);
      }
  }

  lemma {:induction false} RrShapeOverRuns(s: Content, steps: seq<Step>, isIP: string -> bool)
    requires RrInv(s)
    requires forall k | 0 <= k < |steps| :: Proper(Run(s, steps[..k], isIP), steps[k]) && LoneStep(steps[k])
    ensures RrInv(Run(s, steps, isIP))
    decreases |steps|
  {
    hide RrInv, Do, Proper, LoneStep;
    if steps != [] {
      var n := |steps| - 1;
      var before := steps[..n];
      forall k | 0 <= k < n ensures Proper(Run(s, before[..k], isIP), before[k]) && LoneStep(before[k]) {
        assert before[..k] == steps[..k];
      }
      RrShapeOverRuns(s, before, isIP);
      StepKeepsRr(Run(s, before, isIP), steps[n], isIP);
    }
  }

  /**
   rr.conf over every run, as ParseRR reads it. Starting from agreement and a file with one line for
   each managed key, after any sequence of edits (failed ones included), discards and commits, the
   reader has for each key that the file holds the text of the running value, if it accepts that,
   and for every other key nothing.
   */
  lemma LinesAgreeWithRunning(s: Content, steps: seq<Step>, k: string, isIP: string -> bool)
    requires RrInv(s) && k in RR_KEYS
    requires forall i | 0 <= i < |steps| :: Proper(Run(s, steps[..i], isIP), steps[i]) && LoneStep(steps[i])
    ensures var t := Run(s, steps, isIP);
            RR in t.disk ==>
              var values, text := RrValues(SplitLines(t.disk[RR])), LeafText(t.running, k);
              && (k in values <==> ReadScalar(t.disk[RR], k, false).Some? && Suits(k, text))
              && (k in values ==> values[k] == text)
  {
    hide Inv, RrShape.Shape, LoneValues, Run, RR_KEYS, ReadScalar, LeafText, RrValues, SplitLines, Suits, Proper, LoneStep;
    RrShapeOverRuns(s, steps, isIP);
    var t := Run(s, steps, isIP);
    if RR in t.disk {
      ShapeReads(t.disk[RR], k);
      KeysOfRr();
      RrMatches(t, k);
    }
  }

  lemma RrMatches(t: Content, k: string)
    requires Inv(t) && RR in t.disk && k in KeysOf(RR)
    ensures Matches(t.disk[RR], k, t.running)
  {
    hide Sound, Tracked, Marked, Layout, ReadScalar, LeafText, KeysOf;
    assert FileAgrees(t.disk[RR], RR, t.running);
  }

  // ----- which running values the reader accepts

  /** The numbers of the leaves are accepted as far as they fit their Go types, and so are flags. */
  lemma TypedIsAccepted(k: string, v: Value)
    requires k in RR_KEYS && KindOf(k).Some? && Reduction.HasKind(v, KindOf(k).value)
    ensures v.U32? && 0 <= v.u <= MAX_UINT32 ==> Suits(k, TextOf(v, k))
    ensures v.I32? && IsInt32(v.i) ==> Suits(k, TextOf(v, k))
    ensures v.Flag? ==> Suits(k, TextOf(v, k))
    ensures v.Str? && v.s != [] ==> Suits(k, TextOf(v, k))
  {
    hide RR_KEYS, LAST_KEYS, KindOf, ParseNat, ParseInt32, FormatInt, FormatMilli, Quote;
    RrKinds();
    RrKeyIs(k);
    FlagsAreLower();
    match v
    case Str(s) =>
    case I32(n) =>
      if IsInt32(n) {
        IntRoundTrip(n);
      }
    case U32(n) =>
      if 0 <= n {
        NatRoundTrip(n);
      }
    case F64(m) =>
    case Flag(b) =>
  }

  lemma RrKinds()
    ensures KindOf("cell_id") == KindOf("tac") == Some(KString) && KindOf("ho_active") == Some(KBool)
    ensures KindOf("dl_earfcn") == KindOf("pci") == Some(KUint32)
    ensures forall k | k in LAST_KEYS :: KindOf(k) == Some(KInt32)
  {}

  lemma RrKeyIs(k: string)
    requires k in RR_KEYS
    ensures k == "cell_id" || k == "tac" || k == "dl_earfcn" || k == "pci" || k == "ho_active" || k in LAST_KEYS
  {}

  lemma FlagsAreLower()
    ensures Lower("true") == "true" && Lower("false") == "false"
  {}

  lemma NatRoundTrip(n: nat)
    ensures ParseNat(FormatInt(n)) == Some(n)
  {
    ParseFormatNat(n);
  }
}
