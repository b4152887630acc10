/**
 A store from which the theorems about runs start: three small files, and a configuration that
 agrees with them.
 */
module StartState {
  import opened Lexer
  import opened Text
  import opened Splice
  import opened Numbers
  import opened Batch
  import opened Config
  import opened Routing
  import opened Rendering
  import opened Edits
  import opened Reduction
  import opened Ini
  import opened IniValues
  import opened Store
  import opened SafeTexts
  import opened Agreement
  import opened RbBatch
  import opened RbAgreement
  import opened EnbAgreement
  import opened Interleaving
  import opened SibAgreement
  import SibShape
  import opened Qci
  import RbExample
  import SibExample
  import RrExample
  import RrShape
  import opened RrLines
  import opened RrAgreement

  function ValueFor(k: string): Value {
    match KindOf(k)
    case Some(KInt32) => I32(8)
    case Some(KUint32) => U32(1)
    case Some(KFloat) => F64(0)
    case Some(KBool) => Flag(false)
    case _ => Str("1")
  }

  const LEAVES: set<string> := STRING_LEAVES + UINT32_LEAVES + BOOL_LEAVES + FLOAT_LEAVES + INT32_LEAVES

  const CONFIG: Configuration := Configuration(map k | k in LEAVES :: ValueFor(k), [RbExample.PROFILE])

  const DISK: map<File, Bytes> := map[RB := RbExample.RB_TEXT, SIB := SibExample.SIB_TEXT, RR := RrExample.RR_TEXT]

  const START: Content := Content(CONFIG, CONFIG, {}, {}, DISK)

  lemma LeavesHaveKinds(k: string)
    ensures k in LEAVES <==> KindOf(k).Some?
  {
    hide STRING_LEAVES, UINT32_LEAVES, BOOL_LEAVES, FLOAT_LEAVES, INT32_LEAVES;
  }

  lemma LeafOf(k: string)
    requires KindOf(k).Some?
    ensures k in CONFIG.leaves && CONFIG.leaves[k] == ValueFor(k) && HasKind(ValueFor(k), KindOf(k).value)
  {
    hide KindOf, LEAVES;
    LeavesHaveKinds(k);
  }

  lemma ConfigIsTyped()
    ensures Typed(CONFIG) && Int32Fields(CONFIG)
  {
    hide KindOf, LEAVES, RbExample.PROFILE, QCI_FIELDS, ValueFor;
    RbExample.ProfileIsNumbered();
    forall k | k in CONFIG.leaves ensures KindOf(k).Some? && HasKind(CONFIG.leaves[k], KindOf(k).value) {
      LeavesHaveKinds(k);
      LeafOf(k);
    }
  }

  lemma FileLeavesHaveKinds(k: string)
    requires k in RR_KEYS || k in SIB_KEYS
    ensures KindOf(k).Some?
  {}

  lemma ConfigIsSound()
    ensures Sound(CONFIG)
  {
    hide Typed, CONFIG, KindOf, RR_KEYS, SIB_KEYS, SafeString, ValueFor;
    ConfigIsTyped();
    forall k | k in RR_KEYS || k in SIB_KEYS ensures k in CONFIG.leaves {
      FileLeavesHaveKinds(k);
      LeafOf(k);
    }
    PlainIsSound("cell_id");
    PlainIsSound("tac");
  }

  lemma PlainIsSound(k: string)
    requires k == "cell_id" || k == "tac"
    ensures SafeString(CONFIG, k)
  {
    hide CONFIG, KindOf, RR_KEYS, SafeValue;
    PlainStringKinds();
    LeafOf(k);
    NumbersAreSafe("1", RR_KEYS);
  }

  lemma PlainStringKinds()
    ensures KindOf("cell_id") == KindOf("tac") == Some(KString) && IsNumberText("1")
  {}

  lemma EnbLeavesHaveKinds(k: string)
    requires EnbPlace(k).Some?
    ensures KindOf(k).Some? && k != "cell_barred"
  {}

  lemma SafeDefaults()
    ensures SafeIni("1") && SafeIni(FormatInt(8)) && SafeIni(FormatInt(1)) && SafeIni(FormatMilli(0)) && SafeIni("false")
    ensures FormatMilli(0) != []
  {
    hide KindOf, SafeIni, FormatInt, FormatMilli;
    PlainStringKinds();
    PrintedNumbers(8);
    PrintedNumbers(1);
    PrintedNumbers(0);
    NumberIsIniSafe("1");
    NumberIsIniSafe(FormatInt(8));
    NumberIsIniSafe(FormatInt(1));
    NumberIsIniSafe(FormatMilli(0));
    FlagIsIniSafe(false);
  }

  lemma DefaultIsLone(k: string)
    requires KindOf(k).Some? && k != "cell_barred"
    ensures k in CONFIG.leaves && IsLoneValue(LeafText(CONFIG, k))
  {
    hide CONFIG, KindOf, SafeIni, FormatInt, FormatMilli;
    LeafOf(k);
    SafeDefaults();
  }

  lemma ConfigIsSafe()
    ensures SafeEnb(CONFIG)
  {
    hide CONFIG, KindOf, EnbPlace, SafeIni, LeafText;
    forall k | EnbPlace(k).Some? ensures k in CONFIG.leaves && SafeIni(LeafText(CONFIG, k)) {
      EnbLeavesHaveKinds(k);
      DefaultIsLone(k);
    }
  }

  lemma ConfigIsLone()
    ensures LoneValues(CONFIG)
  {
    hide CONFIG, KindOf, RR_KEYS, IsLoneValue, LeafText;
    forall k | k in RR_KEYS ensures k in CONFIG.leaves && IsLoneValue(LeafText(CONFIG, k)) {
      FileLeavesHaveKinds(k);
      BarredIsNotHere();
      DefaultIsLone(k);
    }
  }

  /** A file that reads as the configuration's profiles agrees with it. */
  lemma ReadsAgree(d: Bytes, cfg: Configuration)
    requires Tame(d) && ReadProfiles(d) == Some(cfg.profiles) && forall q: int :: Numbered(d, q) == HasProfile(cfg, q)
    ensures ProfilesAgree(d, cfg)
  {
    hide Tame, Numbered, ReadProfiles, FindProfile, QCI_FIELDS;
  }

  lemma RbFileAgrees()
    ensures ProfilesAgree(RbExample.RB_TEXT, CONFIG)
  {
    hide RbExample.RB_TEXT, RbExample.PROFILE, Tame, Numbered, LEAVES, ReadProfiles, ProfilesAgree;
    RbExample.RbIsTame();
    RbExample.ProfileIsNumbered();
    ReadsAgree(RbExample.RB_TEXT, CONFIG);
  }

  lemma SibFileAgrees()
    ensures FileAgrees(SibExample.SIB_TEXT, SIB, CONFIG)
  {
    hide SibExample.SIB_TEXT, CONFIG, Layout, ReadScalar, SIB_KEYS, KindOf;
    SibExample.SibIsShaped();
    PagingCycle();
    LeafOf("default_paging_cycle");
  }

  lemma RrFileAgrees()
    ensures FileAgrees(RrExample.RR_TEXT, RR, CONFIG)
  {
    hide RrExample.RR_TEXT, CONFIG, Layout, ReadScalar, RR_KEYS, KindOf, RrShape.OneLine;
    RrExample.RrIsShaped();
    CellIdentity();
    LeafOf("pci");
  }

  lemma CellIdentity()
    ensures KindOf("pci") == Some(KUint32) && FormatInt(1) == "1"
  {}

  lemma PagingCycle()
    ensures KindOf("default_paging_cycle") == Some(KInt32) && FormatInt(8) == "8"
  {}

  /** Files that agree with a configuration make a store with nothing pending. */
  lemma AgreeingStore(cfg: Configuration, disk: map<File, Bytes>)
    requires Sound(cfg) && Int32Fields(cfg) && SafeEnb(cfg) && Agree(disk, cfg)
    ensures FullInv(Content(cfg, cfg, {}, {}, disk))
  {
    hide Sound, Int32Fields, SafeEnb, ProfilesAgree, FileAgrees, EnbFileAgrees, Tracked, Marked;
    NothingPending(Content(cfg, cfg, {}, {}, disk));
  }

  lemma FilesAgree()
    ensures Agree(DISK, CONFIG)
  {
    hide CONFIG, Agree, ProfilesAgree, FileAgrees, RbExample.RB_TEXT, SibExample.SIB_TEXT, RrExample.RR_TEXT;
    RbFileAgrees();
    SibFileAgrees();
    RrFileAgrees();
    ThreeFilesAgree(RbExample.RB_TEXT, SibExample.SIB_TEXT, RrExample.RR_TEXT, CONFIG);
  }

  lemma ThreeFilesAgree(rb: Bytes, sib: Bytes, rr: Bytes, cfg: Configuration)
    requires ProfilesAgree(rb, cfg) && FileAgrees(sib, SIB, cfg) && FileAgrees(rr, RR, cfg)
    ensures Agree(map[RB := rb, SIB := sib, RR := rr], cfg)
  {
    hide ProfilesAgree, FileAgrees, EnbFileAgrees;
  }

  /** The theorems about runs apply to it. */
  lemma StartIsThere()
    ensures FullInv(START) && SibInv(START) && RrInv(START)
  {
    hide CONFIG, Sound, Int32Fields, SafeEnb, Agree, SibShape.Shape, RrShape.Shape, LoneValues, RrExample.RR_TEXT, RbExample.RB_TEXT, SibExample.SIB_TEXT, Tracked, Marked, DiskAgrees, RbAgrees, EnbFileAgrees;
    ConfigIsSound();
    ConfigIsTyped();
    ConfigIsSafe();
    FilesAgree();
    AgreeingStore(CONFIG, DISK);
    SibExample.SibIsShaped();
    RrExample.RrIsShaped();
    ConfigIsLone();
  }
}
