/**
 enb.conf: rendering a batch of leaves, and its agreement with the running configuration over
 every run.
 */
module EnbAgreement {
  import opened Lexer
  import opened Splice
  import opened Text
  import opened Numbers
  import opened Config
  import opened Routing
  import opened Rendering
  import opened Ini
  import opened IniValues
  import opened IniTheorem
  import opened IniBatch
  import opened Edits
  import opened Store
  import opened Commits
  import opened Agreement

  // ----- the places of the leaves

  lemma EnbNames(k: string)
    requires k in ENB_SECTION || k in RF_SECTION
    ensures IsLowerName(k)
  {
    forall i | 0 <= i < |k| ensures IsIdent(k[i]) && LowerChar(k[i]) == k[i] {}
  }

  lemma SchedulerNames(k: string)
    requires k in SCHEDULER_SECTION
    ensures IsLowerName(k)
  {
    forall i | 0 <= i < |k| ensures IsIdent(k[i]) && LowerChar(k[i]) == k[i] {}
  }

  const COUNTER_KEYS: set<string> := {
    "enb_serial", "pusch_max_its", "nr_pusch_max_its", "pusch_8bit_decoder", "nof_phy_threads", "metrics_period_secs",
    "tx_amplitude", "rrc_inactivity_timer", "rlf_release_timer_ms" }

  const LIST_KEYS: set<string> := {
    "eea_pref_list", "eia_pref_list", "gtpu_tunnel_timeout", "s1_setup_max_retries", "s1_connect_timer", "rx_gain_offset",
    "use_cedron_f_est_alg", "rlf_min_ul_snr_estim", "max_mac_dl_kos", "max_mac_ul_kos" }

  lemma CounterNames(k: string)
    requires k in COUNTER_KEYS
    ensures IsLowerName(k)
  {
    forall i | 0 <= i < |k| ensures IsIdent(k[i]) && LowerChar(k[i]) == k[i] {}
  }

  lemma ListNames(k: string)
    requires k in LIST_KEYS
    ensures IsLowerName(k)
  {
    forall i | 0 <= i < |k| ensures IsIdent(k[i]) && LowerChar(k[i]) == k[i] {}
  }

  lemma ExpertNames(k: string)
    requires k in EXPERT_SECTION
    ensures IsLowerName(k)
  {
    hide IsLowerName;
    assert k in COUNTER_KEYS || k in LIST_KEYS;
    if k in COUNTER_KEYS {
      CounterNames(k);
    } else {
      ListNames(k);
    }
  }

  lemma SectionNames()
    ensures IsLowerName("enb") && IsLowerName("rf") && IsLowerName("scheduler") && IsLowerName("expert") && IsLowerName("policy")
  {}

  /** Section and key of every enb.conf leaf are lower-case names. */
  lemma PlaceNames(k: string)
    requires EnbPlace(k).Some?
    ensures IsLowerName(EnbPlace(k).value.0) && IsLowerName(EnbPlace(k).value.1)
  {
    hide IsLowerName, ENB_SECTION, RF_SECTION, SCHEDULER_SECTION, EXPERT_SECTION;
    SectionNames();
    if k in ENB_SECTION || k in RF_SECTION {
      EnbNames(k);
    } else if k in SCHEDULER_SECTION {
      SchedulerNames(k);
    } else {
      ExpertNames(k);
    }
  }

  /** Different leaves have different places. */
  lemma PlacesDiffer(k: string, k': string)
    requires EnbPlace(k).Some? && EnbPlace(k').Some? && k != k'
    ensures EnbPlace(k) != EnbPlace(k')
  {
    hide ENB_SECTION, RF_SECTION, SCHEDULER_SECTION, EXPERT_SECTION;
    PolicyIsNoLeaf();
  }

  lemma PolicyIsNoLeaf()
    ensures "policy" !in SCHEDULER_SECTION
  {}

  const ENB_SPOTS: set<Spot> := set k | k in MARKS_ENB && EnbPlace(k).Some? :: EnbPlace(k).value

  lemma SpotIn(k: string)
    requires EnbPlace(k).Some?
    ensures EnbPlace(k).value in ENB_SPOTS
  {
    hide EnbPlace, MARKS_ENB;
    SectionsAreEnb(k);
  }

  lemma SpotNames()
    ensures forall p | p in ENB_SPOTS :: IsName(p.1)
  {
    hide EnbPlace, MARKS_ENB, IsName;
    forall p | p in ENB_SPOTS ensures IsName(p.1) {
      var k :| k in MARKS_ENB && EnbPlace(k).Some? && p == EnbPlace(k).value;
      PlaceNames(k);
    }
  }

  /** What the reader gives for a leaf of enb.conf. */
  function EnbLeaf(d: Bytes, k: string): Option<Bytes>
    requires EnbPlace(k).Some?
  {
    var p := EnbPlace(k).value;
    if p in ReadIni(d) then Some(ReadIni(d)[p]) else None
  }

  // ----- one patch and a batch

  lemma PatchGives(d: Bytes, k: string, v: Bytes, other: string)
    requires Neat(d, ENB_SPOTS) && EnbPlace(k).Some? && EnbPlace(other).Some? && SafeIni(v)
    ensures var d' := PatchIni(d, EnbPlace(k).value.0, EnbPlace(k).value.1, v);
            Neat(d', ENB_SPOTS) && EnbLeaf(d', other) == if other == k then Some(v) else EnbLeaf(d, other)
  {
    hide EnbPlace, MARKS_ENB, Neat, Tidy, SafeIni, PatchIni, ReadIni, Lower, IsName, ENB_SPOTS;
    var (section, key) := EnbPlace(k).value;
    PlaceNames(k);
    LowerIsSame(section);
    LowerIsSame(key);
    SpotIn(k);
    SpotNames();
    PatchKeepsNeat(d, section, key, v, ENB_SPOTS);
    NeatIsTidy(d, ENB_SPOTS, section, key);
    FinishedRoundTrip(d, section, key, v);
    if other != k {
      PlacesDiffer(k, other);
    }
  }

  /** The values of the leaves are safe for enb.conf. */
  ghost predicate SafeEnb(cfg: Configuration) {
    forall k | EnbPlace(k).Some? :: k in cfg.leaves && SafeIni(LeafText(cfg, k))
  }

  /**
   Batch rendering of enb.conf: over a tidy text every leaf of the batch reads as the candidate's
   value, every other leaf as before, and the text is tidy again.
   */
  lemma {:induction false} EnbBatchIsExact(d: Bytes, order: seq<string>, cfg: Configuration, k: string)
    requires Neat(d, ENB_SPOTS) && SafeEnb(cfg) && EnbPlace(k).Some?
    ensures var d' := RenderEnb(d, order, cfg);
            Neat(d', ENB_SPOTS) && EnbLeaf(d', k) == if k in order then Some(LeafText(cfg, k)) else EnbLeaf(d, k)
    decreases |order|
  {
    hide EnbPlace, Neat, SafeIni, PatchIni, EnbLeaf, LeafText, ENB_SPOTS;
    if order != [] {
      var first, rest := order[0], order[1..];
      if EnbPlace(first).Some? {
        PatchGives(d, first, LeafText(cfg, first), k);
        EnbBatchIsExact(PatchIni(d, EnbPlace(first).value.0, EnbPlace(first).value.1, LeafText(cfg, first)), rest, cfg, k);
      } else {
        EnbBatchIsExact(d, rest, cfg, k);
      }
    }
  }

  // ----- values that are safe for enb.conf

  lemma NumberIsIniSafe(v: Bytes)
    requires IsNumberText(v)
    ensures SafeIni(v)
  {
    hide SafeIni;
    forall i | 0 <= i < |v| ensures IsPlain(v[i]) && v[i] != '\n' && v[i] != ';' && !IsBlank(v[i]) {
      assert IsNumberChar(v[i]);
    }
    PlainIsSafe(v);
  }

  lemma FlagIsIniSafe(b: bool)
    ensures SafeIni(if b then "true" else "false")
  {
    hide SafeIni;
    var v := if b then "true" else "false";
    forall i | 0 <= i < |v| ensures IsPlain(v[i]) && v[i] != '\n' && v[i] != ';' && !IsBlank(v[i]) {}
    PlainIsSafe(v);
  }

  /** A change gives an enb.conf leaf only text that the reader takes as it stands. */
  ghost predicate IniChange(c: Change) {
    EnbPlace(Trim(c.0)).Some? && c.1.AnyString? ==> SafeIni(Trim(c.1.s))
  }

  lemma ConvertedIsSafe(kind: Kind, v: Any, k: string)
    requires Convert(kind, v).Good? && k != "cell_barred" && (v.AnyString? ==> SafeIni(Trim(v.s)))
    ensures SafeIni(TextOf(Convert(kind, v).value, k))
  {
    hide SafeIni, FormatInt, FormatMilli, Trim, IsNumberText;
    match Convert(kind, v).value
    case Str(s) =>
    case I32(n) =>
      PrintedNumbers(n);
      NumberIsIniSafe(FormatInt(n));
    case U32(n) =>
      PrintedNumbers(n);
      NumberIsIniSafe(FormatInt(n));
    case F64(m) =>
      PrintedNumbers(m);
      NumberIsIniSafe(FormatMilli(m));
    case Flag(b) => FlagIsIniSafe(b);
  }

  lemma BarredIsElsewhere()
    ensures EnbPlace("cell_barred") == None
  {}

  lemma ApplyKeepsEnb(cfg: Configuration, c: Change)
    requires SafeEnb(cfg) && IniChange(c) && Apply(cfg, Trim(c.0), c.1).Good?
    ensures SafeEnb(Apply(cfg, Trim(c.0), c.1).value)
  {
    hide SafeIni, Trim, ParseQciKey, EnbPlace, KindOf, Convert, TextOf;
    var next := Apply(cfg, Trim(c.0), c.1).value;
    BarredIsElsewhere();
    forall k | EnbPlace(k).Some? ensures k in next.leaves && SafeIni(LeafText(next, k)) {
      assert k in cfg.leaves && SafeIni(LeafText(cfg, k));
      if k == Trim(c.0) && KindOf(k).Some? {
        ConvertedIsSafe(KindOf(k).value, c.1, k);
      }
    }
  }

  lemma {:induction false} EditKeepsEnb(cfg: Configuration, changes: seq<Change>)
    requires SafeEnb(cfg) && (forall c | c in changes :: IniChange(c)) && ApplyAll(cfg, changes).Good?
    ensures SafeEnb(ApplyAll(cfg, changes).value)
    decreases |changes|
  {
    hide SafeEnb, IniChange, Apply, Trim;
    if changes != [] {
      ApplyKeepsEnb(cfg, changes[0]);
      EditKeepsEnb(Apply(cfg, Trim(changes[0].0), changes[0].1).value, changes[1..]);
    }
  }

  // ----- runs

  /** Every leaf that enb.conf holds reads as the configuration's value. */
  ghost predicate EnbFileAgrees(d: Bytes, cfg: Configuration) {
    Neat(d, ENB_SPOTS) && forall k | EnbPlace(k).Some? :: EnbLeaf(d, k) == None || EnbLeaf(d, k) == Some(LeafText(cfg, k))
  }

  ghost predicate EnbInv(s: Content) {
    && Inv(s) && SafeEnb(s.running) && SafeEnb(s.cand)
    && (ENB in s.disk ==> EnbFileAgrees(s.disk[ENB], s.running))
  }

  lemma EnbRoute(k: string)
    requires EnbPlace(k).Some?
    ensures FileOf(k) == Some(ENB)
  {
    hide FileOf, EnbPlace;
    RoutingIsComplete(k, ENB);
  }

  /** After a commit that succeeds, enb.conf agrees with what is then running. */
  lemma EnbCommitAgrees(s: Content, order: seq<string>)
    requires EnbInv(s) && Lists(order, s.dirtyKeys) && ENB in s.disk
    ensures EnbFileAgrees(if ENB in s.dirty then RenderEnb(s.disk[ENB], order, s.cand) else s.disk[ENB], s.cand)
  {
    hide Inv, EnbPlace, Neat, SafeEnb, EnbLeaf, LeafText, ENB_SPOTS, FileOf;
    var d := s.disk[ENB];
    if ENB in s.dirty {
      MccIsThere();
      EnbBatchIsExact(d, order, s.cand, "mcc");
    }
    var d' := if ENB in s.dirty then RenderEnb(d, order, s.cand) else d;
    forall k | EnbPlace(k).Some? ensures EnbLeaf(d', k) == None || EnbLeaf(d', k) == Some(LeafText(s.cand, k)) {
      EnbRoute(k);
      if ENB in s.dirty {
        EnbBatchIsExact(d, order, s.cand, k);
      }
      if k !in s.dirtyKeys || ENB !in s.dirty {
        CleanKey(s, ENB, k);
      }
    }
  }

  lemma MccIsThere()
    ensures EnbPlace("mcc").Some?
  {}

  ghost predicate IniStep(step: Step) {
    step.Edit? ==> forall c | c in step.changes :: IniChange(c)
  }

  lemma StepKeepsEnb(s: Content, step: Step, isIP: string -> bool)
    requires EnbInv(s) && Proper(s, step) && IniStep(step)
    ensures EnbInv(Do(s, step, isIP))
  {
    hide Inv, Proper, Committed, SafeEnb, EnbFileAgrees, ApplyAll, Valid, Marks, FilesOf, IniChange;
    StepKeepsInv(s, step, isIP);
    match step
    case Edit(changes) =>
      if Preview(s.cand, changes, isIP).Good? {
        EditKeepsEnb(s.cand, changes);
      }
    case Discard =>
    case Commit(env) =>
      CommitKeepsEnb(s, env, isIP);
  }

  lemma CommitKeepsEnb(s: Content, env: Env, isIP: string -> bool)
    requires EnbInv(s) && Proper(s, Commit(env))
    ensures var t := Committed(s, env, isIP).content;
            && SafeEnb(t.running) && SafeEnb(t.cand)
            && (ENB in t.disk ==> EnbFileAgrees(t.disk[ENB], t.running))
  {
    hide Inv, Committed, SafeEnb, EnbFileAgrees, RenderFor, Persists;
    var r := Committed(s, env, isIP);
    CommitIsAtomic(s, env, isIP);
    if !r.ok {
      FailedCommit(s, env, isIP);
    } else if ENB in s.disk {
      RenderEnbFor(s.disk[ENB], env.order, s.cand);
      EnbCommitAgrees(s, env.order);
    }
  }

  lemma RenderEnbFor(d: Bytes, order: seq<string>, cfg: Configuration)
    ensures RenderFor(ENB, d, order, cfg) == Some(RenderEnb(d, order, cfg))
  {}

  /**
   enb.conf over every run. Starting from agreement, after any sequence of edits with safe strings
   (failed edits included), discards and commits, every leaf that enb.conf holds reads as its
   running value, and the text stays tidy.
   */
  lemma {:induction false} EnbAgreesWithRunning(s: Content, steps: seq<Step>, isIP: string -> bool)
    requires EnbInv(s)
    requires forall k | 0 <= k < |steps| :: Proper(Run(s, steps[..k], isIP), steps[k]) && IniStep(steps[k])
    ensures EnbInv(Run(s, steps, isIP))
    decreases |steps|
  {
    hide EnbInv, Do, Proper, IniStep;
    if steps != [] {
      var n := |steps| - 1;
      var before := steps[..n];
      forall k | 0 <= k < n ensures Proper(Run(s, before[..k], isIP), before[k]) && IniStep(before[k]) {
        assert before[..k] == steps[..k];
      }
      EnbAgreesWithRunning(s, before, isIP);
      StepKeepsEnb(Run(s, before, isIP), steps[n], isIP);
    }
  }
}
