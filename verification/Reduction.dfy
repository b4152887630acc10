/**
 extractChanges leaves out the leaves of an edit-config payload that already have their value in
 the candidate. The edit with what is left gives the same result as the edit with every leaf.
 */
module Reduction {
  import opened Lexer
  import opened Text
  import opened Numbers
  import opened Config
  import opened Edits

  // ----- the invariant on stored values

  predicate HasKind(v: Value, kind: Kind) {
    match kind
    case KString => v.Str? && IsTrimmed(v.s)
    case KInt32 => v.I32?
    case KUint32 => v.U32?
    case KFloat => v.F64?
    case KBool => v.Flag?
  }

  /** Every stored value has the type of its leaf, and every stored string is trimmed. */
  ghost predicate Typed(cfg: Configuration) {
    && (forall k | k in cfg.leaves :: KindOf(k).Some? && HasKind(cfg.leaves[k], KindOf(k).value))
    && (forall i | 0 <= i < |cfg.profiles| :: cfg.profiles[i].fields.Keys == QCI_FIELDS)
  }

  lemma ConvertHasKind(kind: Kind, v: Any)
    ensures Convert(kind, v).Good? ==> HasKind(Convert(kind, v).value, kind)
  {}

  lemma ApplyKeepsTyped(cfg: Configuration, key: string, v: Any)
    requires Typed(cfg) && Apply(cfg, key, v).Good?
    ensures Typed(Apply(cfg, key, v).value)
  {
    hide KindOf, Convert, HasKind, ParseQciKey;
    match Resolve(key).value
    case Flat(k) => ConvertHasKind(KindOf(k).value, v);
    case Qci(qci, field) =>
      var next := SetField(cfg.profiles, qci, field, Converted(key, v).value.i);
      forall i | 0 <= i < |next| ensures next[i].fields.Keys == QCI_FIELDS {
        if i < |cfg.profiles| {
          assert cfg.profiles[i].fields.Keys == QCI_FIELDS;
        }
      }
  }

  lemma {:induction false} EditKeepsTyped(cfg: Configuration, changes: seq<Change>)
    requires Typed(cfg) && ApplyAll(cfg, changes).Good?
    ensures Typed(ApplyAll(cfg, changes).value)
    decreases |changes|
  {
    hide Typed, Apply, Trim;
    if changes != [] {
      ApplyKeepsTyped(cfg, Trim(changes[0].0), changes[0].1);
      EditKeepsTyped(Apply(cfg, Trim(changes[0].0), changes[0].1).value, changes[1..]);
    }
  }

  // ----- current values

  /** The profile number in the key is written in digits only, as the registry's pattern demands. */
  predicate PlainNumber(key: string) {
    && QCI_PREFIX <= key
    && var rest := key[|QCI_PREFIX|..];
       match Index(rest, ']')
       case None => false
       case Some(i) => i <= |rest| && forall c | c in rest[..i] :: IsDigit(c)
  }

  function ToAny(v: Value): Any {
    match v
    case Str(s) => AnyString(s)
    case I32(n) => AnyInt32(n)
    case U32(n) => AnyUint32(n)
    case F64(m) => AnyFloat(m)
    case Flag(b) => AnyBool(b)
  }

  /** registry.currentValue. */
  function CurrentValue(cfg: Configuration, key: string): Option<Any> {
    if QCI_PREFIX <= key then
      if !PlainNumber(key) then None
      else
        match ParseQciKey(key)
        case None => None
        case Some((qci, field)) =>
          if field !in QCI_FIELDS then None
          else match Read(cfg, Qci(qci, field)) case None => None case Some(v) => Some(ToAny(v))
    else if KindOf(key).None? then None
    else match Read(cfg, Flat(key)) case None => None case Some(v) => Some(ToAny(v))
  }

  predicate Unchanged(cfg: Configuration, c: Change) {
    CurrentValue(cfg, c.0) == Some(c.1)
  }

  function Reduced(cand: Configuration, leaves: seq<Change>): seq<Change> {
    if leaves == [] then []
    else if Unchanged(cand, leaves[0]) then Reduced(cand, leaves[1..])
    else [leaves[0]] + Reduced(cand, leaves[1..])
  }

  /** The loop of extractChanges over leaves that resolve to distinct keys. */
  method ExtractChanges(cand: Configuration, leaves: seq<Change>) returns (changes: seq<Change>)
    ensures changes == Reduced(cand, leaves)
  {
    changes := [];
    var i := 0;
    while i < |leaves|
      invariant 0 <= i <= |leaves| && changes + Reduced(cand, leaves[i..]) == Reduced(cand, leaves)
    {
      assert leaves[i..][1..] == leaves[i + 1..];
      if !Unchanged(cand, leaves[i]) {
        changes := changes + [leaves[i]];
      }
      i := i + 1;
    }
  }

  /** The leaf of `c` has the value of `c`, so the change is accepted and changes nothing. */
  ghost predicate Idle(cfg: Configuration, c: Change) {
    Accepted(c) && Read(cfg, LeafOf(c).value) == Some(ValueOf(c))
  }

  lemma IdleApplies(cfg: Configuration, c: Change)
    requires Idle(cfg, c)
    ensures Apply(cfg, Trim(c.0), c.1) == Good(cfg)
  {
    hide Trim, KindOf, ParseQciKey, AsInt32, Convert;
    match LeafOf(c).value
    case Flat(k) => assert cfg.leaves[k := ValueOf(c)] == cfg.leaves;
    case Qci(qci, field) =>
      var i := FindProfile(cfg.profiles, qci, 0).value;
      var p := cfg.profiles[i];
      assert p.fields[field := ValueOf(c).i] == p.fields;
      assert cfg.profiles[i := p] == cfg.profiles;
  }

  lemma UnchangedLeafIsIdle(cand: Configuration, c: Change)
    requires Typed(cand) && Trim(c.0) == c.0 && !(QCI_PREFIX <= c.0) && Unchanged(cand, c)
    ensures Idle(cand, c)
  {
    hide Trim, KindOf, ParseQciKey, IsTrimmed;
    var v := cand.leaves[c.0];
    if v.Str? {
      TrimOfTrimmed(v.s);
    }
  }

  lemma UnchangedFieldIsIdle(cand: Configuration, c: Change)
    requires ValidProfiles(cand.profiles) && Trim(c.0) == c.0 && QCI_PREFIX <= c.0 && Unchanged(cand, c)
    ensures Idle(cand, c)
  {
    hide Trim, KindOf, ParseQciKey, PlainNumber;
    ProfileKeyIsNoLeaf(c.0);
  }

  lemma UnchangedIsIdle(cand: Configuration, c: Change)
    requires Typed(cand) && ValidProfiles(cand.profiles) && Trim(c.0) == c.0 && Unchanged(cand, c)
    ensures Idle(cand, c)
  {
    hide Trim, Typed, Unchanged, Idle, ValidProfiles;
    if QCI_PREFIX <= c.0 {
      UnchangedFieldIsIdle(cand, c);
    } else {
      UnchangedLeafIsIdle(cand, c);
    }
  }

  /** A change of another leaf keeps an idle change idle. */
  lemma StaysIdle(cfg: Configuration, c: Change, other: Change)
    requires Idle(cfg, other) && Accepted(c) && LeafOf(c) != LeafOf(other)
    ensures Apply(cfg, Trim(c.0), c.1).Good? && Idle(Apply(cfg, Trim(c.0), c.1).value, other)
  {
    hide Trim, Resolve, Converted, Apply;
    ApplyReads(cfg, c, LeafOf(other).value);
  }

  lemma {:induction false} ReductionIsSound(cand: Configuration, cfg: Configuration, leaves: seq<Change>)
    requires DistinctLeaves(leaves)
    requires forall c | c in leaves && Unchanged(cand, c) :: Idle(cfg, c)
    ensures ApplyAll(cfg, Reduced(cand, leaves)) == ApplyAll(cfg, leaves)
    decreases |leaves|
  {
    hide Trim, Apply, Idle, Unchanged, LeafOf, Accepted;
    if leaves != [] {
      var c, rest := leaves[0], leaves[1..];
      assert forall x :: x in rest ==> x in leaves;
      if Unchanged(cand, c) {
        IdleApplies(cfg, c);
        ReductionIsSound(cand, cfg, rest);
      } else {
        AcceptedApplies(cfg, c);
        assert ([c] + Reduced(cand, rest))[1..] == Reduced(cand, rest);
        if Accepted(c) {
          var next := Apply(cfg, Trim(c.0), c.1).value;
          RestDiffers(leaves);
          forall x | x in rest && Unchanged(cand, x) ensures Idle(next, x) {
            assert x in leaves;
            StaysIdle(cfg, c, x);
          }
          ReductionIsSound(cand, next, rest);
        }
      }
    }
  }

  /**
   Dropping unchanged leaves preserves meaning: for leaves that resolve to distinct keys, over a
   candidate whose stored strings are trimmed, editing with the reduced changes gives exactly the
   outcome and the candidate of editing with every leaf.
   */
  lemma DroppingUnchangedLeaves(cand: Configuration, leaves: seq<Change>, isIP: string -> bool)
    requires Typed(cand) && Valid(cand, isIP) && DistinctLeaves(leaves)
    requires forall c | c in leaves :: Trim(c.0) == c.0
    ensures Preview(cand, Reduced(cand, leaves), isIP) == Preview(cand, leaves, isIP)
    ensures Reduced(cand, leaves) == [] ==> Preview(cand, leaves, isIP) == Good(cand)
  {
    hide Typed, ValidLeaves, ValidProfiles, DistinctLeaves, Trim, Unchanged, Idle;
    forall c | c in leaves && Unchanged(cand, c) ensures Idle(cand, c) {
      UnchangedIsIdle(cand, c);
    }
    ReductionIsSound(cand, cand, leaves);
  }
}
