/**
 Which configuration file each editable leaf belongs to, and the text of its value there.
 */
module Routing {
  import opened Lexer
  import opened Text
  import opened Numbers
  import opened Config

  datatype File = ENB | RR | SIB | RB

  /** The cases of markDirtyLocked. */
  const MARKS_ENB: set<string> := {
    "enb_serial", "enb_id", "mcc", "mnc", "mme_addr", "gtp_bind_addr", "s1c_bind_addr", "s1c_bind_port", "n_prb", "tm",
    "tx_gain", "rx_gain", "time_adv_nsamples", "device_name", "device_args",
    "sched_policy", "pdsch_max_mcs", "pusch_max_mcs", "target_bler", "min_nof_ctrl_symbols", "max_nof_ctrl_symbols",
    "pusch_max_its", "nr_pusch_max_its", "pusch_8bit_decoder", "nof_phy_threads", "metrics_period_secs", "tx_amplitude",
    "rrc_inactivity_timer", "rlf_release_timer_ms", "eea_pref_list", "eia_pref_list", "gtpu_tunnel_timeout",
    "s1_setup_max_retries", "s1_connect_timer", "rx_gain_offset", "use_cedron_f_est_alg", "rlf_min_ul_snr_estim",
    "max_mac_dl_kos", "max_mac_ul_kos" }

  const MARKS_RR: set<string> := {
    "cell_id", "tac", "dl_earfcn", "pci", "ho_active", "a3_offset", "time_to_trigger", "hysteresis" }

  const MARKS_SIB: set<string> := {
    "q_rx_lev_min", "cell_barred", "num_ra_preambles", "preamble_init_rx_target_pwr", "pwr_ramping_step",
    "reference_signal_power", "p0_nominal_pusch", "p0_nominal_pucch", "alpha", "default_paging_cycle",
    "t300", "t301", "t310", "n310", "t311" }

  /** markDirtyLocked: the file whose flag the key sets. */
  function FileOf(key: string): Option<File> {
    if QCI_PREFIX <= key then Some(RB)
    else if key in MARKS_ENB then Some(ENB)
    else if key in MARKS_RR then Some(RR)
    else if key in MARKS_SIB then Some(SIB)
    else None
  }

  // ----- the patch tables of the renderer

  const ENB_SECTION: set<string> := { "enb_id", "mcc", "mnc", "mme_addr", "gtp_bind_addr", "s1c_bind_addr", "s1c_bind_port", "n_prb", "tm" }
  const RF_SECTION: set<string> := { "tx_gain", "rx_gain", "time_adv_nsamples", "device_name", "device_args" }
  const SCHEDULER_SECTION: set<string> := {
    "sched_policy", "pdsch_max_mcs", "pusch_max_mcs", "target_bler", "min_nof_ctrl_symbols", "max_nof_ctrl_symbols" }
  const EXPERT_SECTION: set<string> := {
    "enb_serial", "pusch_max_its", "nr_pusch_max_its", "pusch_8bit_decoder", "nof_phy_threads", "metrics_period_secs",
    "tx_amplitude", "rrc_inactivity_timer", "rlf_release_timer_ms", "eea_pref_list", "eia_pref_list", "gtpu_tunnel_timeout",
    "s1_setup_max_retries", "s1_connect_timer", "rx_gain_offset", "use_cedron_f_est_alg", "rlf_min_ul_snr_estim",
    "max_mac_dl_kos", "max_mac_ul_kos" }

  /** enbPatch: the section and the key of the leaf in enb.conf. */
  function EnbPlace(key: string): Option<(string, string)> {
    if key in ENB_SECTION then Some(("enb", key))
    else if key in RF_SECTION then Some(("rf", key))
    else if key in SCHEDULER_SECTION then Some(("scheduler", if key == "sched_policy" then "policy" else key))
    else if key in EXPERT_SECTION then Some(("expert", key))
    else None
  }

  /** rrPatch and sibPatch know these keys. */
  const RR_KEYS: set<string> := {
    "cell_id", "tac", "dl_earfcn", "pci", "ho_active", "a3_offset", "time_to_trigger", "hysteresis" }

  const SIB_KEYS: set<string> := {
    "q_rx_lev_min", "cell_barred", "num_ra_preambles", "preamble_init_rx_target_pwr", "pwr_ramping_step",
    "reference_signal_power", "p0_nominal_pusch", "p0_nominal_pucch", "alpha", "default_paging_cycle",
    "t300", "t301", "t310", "n310", "t311" }

  /** The renderer of the file has a patch for the key. */
  predicate Patches(f: File, key: string) {
    match f
    case ENB => EnbPlace(key).Some?
    case RR => key in RR_KEYS
    case SIB => key in SIB_KEYS
    case RB => QCI_PREFIX <= key
  }

  lemma RrIsNotEnb(key: string)
    requires key in MARKS_RR
    ensures key !in MARKS_ENB
  {}

  lemma SibIsNotEnb(key: string)
    requires key in MARKS_SIB
    ensures key !in MARKS_ENB
  {}

  lemma SibIsNotRr(key: string)
    requires key in MARKS_SIB
    ensures key !in MARKS_RR
  {}

  /** A leaf has no profile key: no name of a leaf has the profile prefix. */
  lemma LeafHasNoPrefix(key: string)
    requires QCI_PREFIX <= key
    ensures key !in MARKS_ENB && key !in MARKS_RR && key !in MARKS_SIB
  {
    assert key[0] == 'q' && key[1] == 'c';
  }

  lemma SectionsAreEnb(key: string)
    ensures EnbPlace(key).Some? <==> key in MARKS_ENB
  {}

  lemma EnbIsMarked(key: string)
    requires KindOf(key).Some?
    ensures key in MARKS_ENB || key in MARKS_RR || key in MARKS_SIB
  {}

  /**
   The routing is complete: every key that an edit accepts sets the flag of exactly one file, and
   exactly that file's renderer has a patch for the key.
   */
  lemma RoutingIsComplete(key: string, f: File)
    ensures Patches(f, key) <==> FileOf(key) == Some(f)
    ensures Resolve(key).Some? ==> FileOf(key).Some?
  {
    hide MARKS_ENB, KindOf, EnbPlace, ParseQciKey;
    SectionsAreEnb(key);
    assert RR_KEYS == MARKS_RR && SIB_KEYS == MARKS_SIB;
    if QCI_PREFIX <= key {
      LeafHasNoPrefix(key);
    }
    RouteMarks(key);
    if Resolve(key).Some? {
      ResolvedKey(key);
    }
    if KindOf(key).Some? {
      EnbIsMarked(key);
    }
  }

  lemma RouteMarks(key: string)
    ensures key in MARKS_RR ==> key !in MARKS_ENB
    ensures key in MARKS_SIB ==> key !in MARKS_ENB && key !in MARKS_RR
  {
    hide MARKS_ENB, MARKS_RR, MARKS_SIB;
    if key in MARKS_RR {
      RrIsNotEnb(key);
    }
    if key in MARKS_SIB {
      SibIsNotEnb(key);
      SibIsNotRr(key);
    }
  }

  lemma ResolvedKey(key: string)
    requires Resolve(key).Some?
    ensures KindOf(key).Some? || QCI_PREFIX <= key
  {
    hide KindOf;
  }
}
