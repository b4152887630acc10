/**
 The editable configuration: typed leaves, the QCI profiles, and how one change is applied.
 Leaves are a map keyed by their flat name; the switch statements over the leaves become the
 tables below.
 */
module Config {
  import opened Lexer
  import opened Text
  import opened Numbers

  datatype Result<+T> = Good(value: T) | Bad

  // ----- values

  /** A leaf value; numbers of type float64 are taken in thousandths. */
  datatype Value = Str(s: string) | I32(i: int) | U32(u: int) | F64(milli: int) | Flag(b: bool)

  datatype Kind = KString | KInt32 | KUint32 | KFloat | KBool

  /** What arrives in an edit: the dynamic types that reach applyChange. */
  datatype Any =
    | AnyString(s: string)
    | AnyFloat(milli: int)
    | AnyNotFinite
    | AnyInt(n: int)
    | AnyInt32(n: int)
    | AnyUint32(n: int)
    | AnyBool(b: bool)
    | AnyOther

  function AsInt32(v: Any): Result<int> {
    match v
    case AnyFloat(m) => if m % 1000 == 0 && IsInt32(m / 1000) then Good(m / 1000) else Bad
    case AnyInt(n) => if IsInt32(n) then Good(n) else Bad
    case AnyInt32(n) => Good(n)
    case _ => Bad
  }

  /** A Go int above the range is not refused: it is truncated to 32 bits. */
  function AsUint32(v: Any): Result<int> {
    match v
    case AnyFloat(m) => if m % 1000 == 0 && 0 <= m / 1000 <= MAX_UINT32 then Good(m / 1000) else Bad
    case AnyInt(n) => if n < 0 then Bad else Good(n % 0x1_0000_0000)
    case AnyUint32(n) => Good(n)
    case _ => Bad
  }

  function AsFloat64(v: Any): Result<int> {
    match v
    case AnyFloat(m) => Good(m)
    case AnyInt(n) => Good(1000 * n)
    case _ => Bad
  }

  function Convert(kind: Kind, v: Any): Result<Value> {
    match kind
    case KString => if v.AnyString? then Good(Str(Trim(v.s))) else Bad
    case KInt32 => (match AsInt32(v) case Good(n) => Good(I32(n)) case Bad => Bad)
    case KUint32 => (match AsUint32(v) case Good(n) => Good(U32(n)) case Bad => Bad)
    case KFloat => (match AsFloat64(v) case Good(m) => Good(F64(m)) case Bad => Bad)
    case KBool => if v.AnyBool? then Good(Flag(v.b)) else Bad
  }

  // ----- leaves

  const STRING_LEAVES: set<string> := {
    "enb_serial", "enb_id", "mcc", "mnc", "mme_addr", "gtp_bind_addr", "s1c_bind_addr", "device_name", "device_args",
    "time_adv_nsamples", "cell_id", "tac", "sched_policy", "cell_barred", "eea_pref_list", "eia_pref_list" }

  const UINT32_LEAVES: set<string> := { "s1c_bind_port", "n_prb", "tm", "dl_earfcn", "pci" }

  const BOOL_LEAVES: set<string> := { "ho_active", "pusch_8bit_decoder", "use_cedron_f_est_alg" }

  const FLOAT_LEAVES: set<string> := {
    "tx_gain", "rx_gain", "target_bler", "alpha", "tx_amplitude", "rx_gain_offset", "rlf_min_ul_snr_estim" }

  const INT32_LEAVES: set<string> := {
    "pdsch_max_mcs", "pusch_max_mcs", "min_nof_ctrl_symbols", "max_nof_ctrl_symbols", "a3_offset", "time_to_trigger",
    "hysteresis", "q_rx_lev_min", "num_ra_preambles", "preamble_init_rx_target_pwr", "pwr_ramping_step",
    "reference_signal_power", "p0_nominal_pusch", "p0_nominal_pucch", "default_paging_cycle", "t300", "t301", "t310",
    "n310", "t311", "pusch_max_its", "nr_pusch_max_its", "nof_phy_threads", "metrics_period_secs",
    "rrc_inactivity_timer", "rlf_release_timer_ms", "gtpu_tunnel_timeout", "s1_setup_max_retries", "s1_connect_timer",
    "max_mac_dl_kos", "max_mac_ul_kos" }

  function KindOf(key: string): Option<Kind> {
    if key in STRING_LEAVES then Some(KString)
    else if key in INT32_LEAVES then Some(KInt32)
    else if key in UINT32_LEAVES then Some(KUint32)
    else if key in FLOAT_LEAVES then Some(KFloat)
    else if key in BOOL_LEAVES then Some(KBool)
    else None
  }

  // ----- QCI profiles

  const QCI_PREFIX: string := "qci_profiles["

  const QCI_FIELDS: set<string> := {
    "discard_timer", "pdcp_sn_size", "t_poll_retx", "max_retx_thresh", "t_reordering", "priority" }

  datatype Profile = Profile(qci: int, fields: map<string, int>)

  predicate AllIdent(s: string) {
    forall c | c in s :: IsIdent(c)
  }

  /** parseQCIProfileKey: qci_profiles[<number>].<field>. */
  function ParseQciKey(key: string): (r: Option<(int, string)>)
    ensures r.Some? ==> IsInt32(r.value.0)
  {
    if !(QCI_PREFIX <= key) then None
    else
      var rest := key[|QCI_PREFIX|..];
      match Index(rest, ']')
      case None => None
      case Some(close) =>
        if close == 0 || close + 1 >= |rest| || rest[close + 1] != '.' then None
        else
          match ParseInt32(rest[..close])
          case None => None
          case Some(qci) =>
            var field := rest[close + 2..];
            if field == [] || !AllIdent(field) then None else Some((qci, field))
  }

  // ----- the leaf that a change addresses

  datatype Leaf = Flat(key: string) | Qci(qci: int, field: string)

  /** The leaf an edit key names, if applyChange accepts the key at all. */
  function Resolve(key: string): Option<Leaf> {
    if KindOf(key).Some? then Some(Flat(key))
    else
      match ParseQciKey(key)
      case None => None
      case Some((qci, field)) => if 1 <= qci <= 9 && field in QCI_FIELDS then Some(Qci(qci, field)) else None
  }

  /** The value a change gives to its leaf, if it is of the right type. */
  function Converted(key: string, v: Any): Result<Value> {
    match KindOf(key)
    case Some(kind) => Convert(kind, v)
    case None => match AsInt32(v) case Good(n) => Good(I32(n)) case Bad => Bad
  }

  predicate Accepts(key: string, v: Any) {
    Resolve(key).Some? && Converted(key, v).Good?
  }

  // ----- configurations

  datatype Configuration = Configuration(leaves: map<string, Value>, profiles: seq<Profile>)

  function FindProfile(ps: seq<Profile>, qci: int, i: nat): (r: Option<nat>)
    ensures r.Some? ==> i <= r.value < |ps| && ps[r.value].qci == qci
    ensures forall j | i <= j < (if r.Some? then r.value else |ps|) :: ps[j].qci != qci
    decreases |ps| - i
  {
    if i >= |ps| then None
    else if ps[i].qci == qci then Some(i)
    else FindProfile(ps, qci, i + 1)
  }

  const NEW_FIELDS: map<string, int> := map f | f in QCI_FIELDS :: 0

  /** Find or create the profile, then set the field. */
  function SetField(ps: seq<Profile>, qci: int, field: string, n: int): seq<Profile> {
    match FindProfile(ps, qci, 0)
    case Some(i) => ps[i := ps[i].(fields := ps[i].fields[field := n])]
    case None => ps + [Profile(qci, NEW_FIELDS[field := n])]
  }

  /** applyChange. */
  function Apply(cfg: Configuration, key: string, v: Any): Result<Configuration> {
    if !Accepts(key, v) then Bad
    else
      match Resolve(key).value
      case Flat(k) => Good(cfg.(leaves := cfg.leaves[k := Converted(key, v).value]))
      case Qci(qci, field) => Good(cfg.(profiles := SetField(cfg.profiles, qci, field, Converted(key, v).value.i)))
  }

  /** What a leaf reads. */
  function Read(cfg: Configuration, leaf: Leaf): Option<Value> {
    match leaf
    case Flat(k) => if k in cfg.leaves then Some(cfg.leaves[k]) else None
    case Qci(qci, field) =>
      match FindProfile(cfg.profiles, qci, 0)
      case None => None
      case Some(i) => if field in cfg.profiles[i].fields then Some(I32(cfg.profiles[i].fields[field])) else None
  }

  // ----- validation

  function StringOf(leaves: map<string, Value>, k: string): string {
    if k in leaves && leaves[k].Str? then leaves[k].s else []
  }

  function NumberOf(leaves: map<string, Value>, k: string): int {
    if k !in leaves then 0
    else match leaves[k] case I32(n) => n case U32(n) => n case F64(m) => m case _ => 0
  }

  predicate FixedDigits(s: string, n: nat) {
    |s| == n && forall i | 0 <= i < n :: IsDigit(s[i])
  }

  predicate ShortText(s: string, limit: nat) {
    Trim(s) != [] && |s| <= limit
  }

  predicate ValidLeaves(leaves: map<string, Value>, isIP: string -> bool) {
    && ShortText(StringOf(leaves, "enb_serial"), 128)
    && FixedDigits(StringOf(leaves, "mcc"), 3)
    && (FixedDigits(StringOf(leaves, "mnc"), 2) || FixedDigits(StringOf(leaves, "mnc"), 3))
    && ShortText(StringOf(leaves, "enb_id"), 64)
    && ShortText(StringOf(leaves, "mme_addr"), 64) && isIP(Trim(StringOf(leaves, "mme_addr")))
    && ShortText(StringOf(leaves, "gtp_bind_addr"), 64) && isIP(Trim(StringOf(leaves, "gtp_bind_addr")))
    && ShortText(StringOf(leaves, "s1c_bind_addr"), 64) && isIP(Trim(StringOf(leaves, "s1c_bind_addr")))
    && NumberOf(leaves, "s1c_bind_port") <= 65535
    && NumberOf(leaves, "pci") <= 503
    && NumberOf(leaves, "dl_earfcn") <= 262143
    && 0 <= NumberOf(leaves, "tx_gain") <= 120_000
    && 0 <= NumberOf(leaves, "rx_gain") <= 120_000
    && |StringOf(leaves, "device_name")| <= 128
    && |StringOf(leaves, "device_args")| <= 512
    && NumberOf(leaves, "n_prb") in {6, 15, 25, 50, 75, 100}
    && NumberOf(leaves, "tm") in {0, 1, 2, 3, 4}
    && NumberOf(leaves, "min_nof_ctrl_symbols") in {0, 1, 2, 3}
    && NumberOf(leaves, "max_nof_ctrl_symbols") in {0, 1, 2, 3}
    && 0 <= NumberOf(leaves, "target_bler") <= 1000
    && Trim(StringOf(leaves, "cell_id")) != []
    && Trim(StringOf(leaves, "tac")) != []
  }

  predicate ValidProfiles(ps: seq<Profile>) {
    forall i | 0 <= i < |ps| :: 1 <= ps[i].qci <= 9
  }

  /** validate; `isIP` stands for net.ParseIP. */
  predicate Valid(cfg: Configuration, isIP: string -> bool) {
    ValidLeaves(cfg.leaves, isIP) && ValidProfiles(cfg.profiles)
  }

  // ----- edits

  type Change = (string, Any)

  /** The changes applied one after the other, until one is refused. */
  function ApplyAll(cfg: Configuration, changes: seq<Change>): Result<Configuration>
    decreases |changes|
  {
    if changes == [] then Good(cfg)
    else
      match Apply(cfg, Trim(changes[0].0), changes[0].1)
      case Bad => Bad
      case Good(next) => ApplyAll(next, changes[1..])
  }

  /** PreviewEdit: what an edit of the candidate would give. */
  function Preview(cand: Configuration, changes: seq<Change>, isIP: string -> bool): Result<Configuration> {
    match ApplyAll(cand, changes)
    case Bad => Bad
    case Good(next) => if Valid(next, isIP) then Good(next) else Bad
  }

  method PreviewEdit(cand: Configuration, changes: seq<Change>, isIP: string -> bool) returns (r: Result<Configuration>)
    ensures r == Preview(cand, changes, isIP)
  {
    var next := cand;
    var i := 0;
    while i < |changes|
      invariant 0 <= i <= |changes| && ApplyAll(next, changes[i..]) == ApplyAll(cand, changes)
    {
      assert changes[i..][1..] == changes[i + 1..];
      var applied := Apply(next, Trim(changes[i].0), changes[i].1);
      if applied.Bad? {
        return Bad;
      }
      next := applied.value;
      i := i + 1;
    }
    return if Valid(next, isIP) then Good(next) else Bad;
  }
}
