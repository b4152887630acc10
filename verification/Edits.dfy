/**
 Edits of the candidate do not depend on the order in which the changes of a map are visited,
 exactly as long as no leaf is given two different values.
 */
module Edits {
  import opened Lexer
  import opened Text
  import opened Numbers
  import opened Config

  function LeafOf(c: Change): Option<Leaf> {
    Resolve(Trim(c.0))
  }

  predicate Accepted(c: Change) {
    Accepts(Trim(c.0), c.1)
  }

  function ValueOf(c: Change): Value
    requires Accepted(c)
  {
    Converted(Trim(c.0), c.1).value
  }

  predicate HasProfile(cfg: Configuration, qci: int) {
    FindProfile(cfg.profiles, qci, 0).Some?
  }

  /** The two configurations read the same everywhere; profiles may stand in another order. */
  ghost predicate SameReadings(a: Configuration, b: Configuration) {
    && (forall leaf :: Read(a, leaf) == Read(b, leaf))
    && (forall qci :: HasProfile(a, qci) == HasProfile(b, qci))
  }

  // ----- one change

  lemma FindProfileIs(ps: seq<Profile>, qci: int, r: Option<nat>)
    requires r.Some? ==> r.value < |ps| && ps[r.value].qci == qci
    requires forall j | 0 <= j < (if r.Some? then r.value else |ps|) :: ps[j].qci != qci
    ensures FindProfile(ps, qci, 0) == r
  {}

  /** Where each profile is after a field is set. */
  lemma SetFieldFinds(ps: seq<Profile>, qci: int, field: string, n: int, q: int)
    ensures var ps', i, i' := SetField(ps, qci, field, n), FindProfile(ps, q, 0), FindProfile(SetField(ps, qci, field, n), q, 0);
            && (q != qci ==> i' == i && (i.Some? ==> ps'[i.value] == ps[i.value]))
            && (q == qci ==>
                  && i' == (if i.Some? then i else Some(|ps|))
                  && ps'[i'.value].fields == (if i.Some? then ps[i.value].fields else NEW_FIELDS)[field := n])
  {
    var ps', i := SetField(ps, qci, field, n), FindProfile(ps, q, 0);
    var at := FindProfile(ps, qci, 0);
    assert forall j | 0 <= j < |ps| :: ps'[j].qci == ps[j].qci;
    if at.None? {
      FindProfileIs(ps', q, if q == qci then Some(|ps|) else i);
    } else {
      FindProfileIs(ps', q, i);
    }
  }

  /** What every leaf reads after one accepted change. */
  lemma ApplyReads(cfg: Configuration, c: Change, leaf: Leaf)
    requires Accepted(c)
    ensures Apply(cfg, Trim(c.0), c.1).Good?
    ensures var next := Apply(cfg, Trim(c.0), c.1).value;
            && (forall q :: HasProfile(next, q) == (HasProfile(cfg, q) || (LeafOf(c).value.Qci? && LeafOf(c).value.qci == q)))
            && Read(next, leaf) ==
               if leaf == LeafOf(c).value then Some(ValueOf(c))
               else if leaf.Qci? && LeafOf(c).value.Qci? && leaf.qci == LeafOf(c).value.qci && !HasProfile(cfg, leaf.qci)
               then (if leaf.field in QCI_FIELDS then Some(I32(0)) else None)
               else Read(cfg, leaf)
  {
    hide Trim, KindOf, ParseQciKey, AsInt32, Convert;
    match LeafOf(c).value
    case Flat(k) =>
    case Qci(qci, field) =>
      var n := ValueOf(c).i;
      forall q ensures HasProfile(Apply(cfg, Trim(c.0), c.1).value, q) == (HasProfile(cfg, q) || qci == q) {
        SetFieldFinds(cfg.profiles, qci, field, n, q);
      }
      if leaf.Qci? {
        SetFieldFinds(cfg.profiles, qci, field, n, leaf.qci);
      }
  }

  // ----- all changes

  ghost predicate AllAccepted(changes: seq<Change>) {
    forall c | c in changes :: Accepted(c)
  }

  /** No two changes address the same leaf. */
  ghost predicate DistinctLeaves(changes: seq<Change>) {
    forall i, j | 0 <= i < j < |changes| :: LeafOf(changes[i]) != LeafOf(changes[j])
  }

  /** Changes that address the same leaf give it the same value. */
  ghost predicate OneValuePerLeaf(changes: seq<Change>) {
    forall c, d | c in changes && d in changes && Accepted(c) && Accepted(d) && LeafOf(c) == LeafOf(d) :: ValueOf(c) == ValueOf(d)
  }

  ghost predicate Writes(changes: seq<Change>, leaf: Leaf) {
    exists c | c in changes :: LeafOf(c) == Some(leaf)
  }

  ghost predicate Creates(changes: seq<Change>, qci: int) {
    exists c | c in changes :: LeafOf(c).Some? && LeafOf(c).value.Qci? && LeafOf(c).value.qci == qci
  }

  lemma {:induction false} AllOrNothing(cfg: Configuration, changes: seq<Change>)
    ensures ApplyAll(cfg, changes).Good? <==> AllAccepted(changes)
    decreases |changes|
  {
    hide Accepted, Trim, Resolve, Converted;
    if changes != [] {
      assert forall c :: c in changes <==> c == changes[0] || c in changes[1..];
      assert Accepted(changes[0]) <==> Apply(cfg, Trim(changes[0].0), changes[0].1).Good? by {
        AcceptedApplies(cfg, changes[0]);
      }
      if Accepted(changes[0]) {
        AllOrNothing(Apply(cfg, Trim(changes[0].0), changes[0].1).value, changes[1..]);
      }
    }
  }

  lemma AcceptedApplies(cfg: Configuration, c: Change)
    ensures Accepted(c) <==> Apply(cfg, Trim(c.0), c.1).Good?
  {
    hide Trim, Resolve, Converted, SetField;
  }

  /** What a leaf reads after an edit, in terms of which changes the edit contains and not of their order. */
  ghost predicate ReadsAfter(cfg: Configuration, changes: seq<Change>, next: Configuration, leaf: Leaf) {
    && (forall c | c in changes && Accepted(c) && LeafOf(c) == Some(leaf) :: Read(next, leaf) == Some(ValueOf(c)))
    && (!Writes(changes, leaf) ==>
          Read(next, leaf) ==
          if leaf.Qci? && Creates(changes, leaf.qci) && !HasProfile(cfg, leaf.qci)
          then (if leaf.field in QCI_FIELDS then Some(I32(0)) else None)
          else Read(cfg, leaf))
    && (leaf.Qci? ==> (HasProfile(next, leaf.qci) <==> HasProfile(cfg, leaf.qci) || Creates(changes, leaf.qci)))
  }

  lemma {:induction false} EditReads(cfg: Configuration, changes: seq<Change>, leaf: Leaf)
    requires AllAccepted(changes) && OneValuePerLeaf(changes)
    ensures ApplyAll(cfg, changes).Good? && ReadsAfter(cfg, changes, ApplyAll(cfg, changes).value, leaf)
    decreases |changes|
  {
    hide Trim, Resolve, Converted, Apply, Read, HasProfile;
    AllOrNothing(cfg, changes);
    if changes != [] {
      var c, rest := changes[0], changes[1..];
      assert Accepted(c);
      assert forall x :: x in changes <==> x == c || x in rest;
      ApplyReads(cfg, c, leaf);
      var next := Apply(cfg, Trim(c.0), c.1).value;
      EditReads(next, rest, leaf);
      if LeafOf(c) == Some(leaf) && Writes(rest, leaf) {
        var x :| x in rest && LeafOf(x) == Some(leaf);
        assert x in changes && Accepted(x) && ValueOf(x) == ValueOf(c);
      }
    }
  }

  lemma RestDiffers(changes: seq<Change>)
    requires changes != [] && DistinctLeaves(changes)
    ensures forall x | x in changes[1..] :: LeafOf(x) != LeafOf(changes[0])
  {
    forall x | x in changes[1..] ensures LeafOf(x) != LeafOf(changes[0]) {
      var j :| 1 <= j < |changes| && changes[j] == x;
    }
  }

  /** The two edits succeed together and then read the same everywhere. */
  ghost predicate Alike(cfg: Configuration, a: seq<Change>, b: seq<Change>) {
    var x, y := ApplyAll(cfg, a), ApplyAll(cfg, b);
    x.Good? == y.Good? && (x.Good? ==> SameReadings(x.value, y.value))
  }

  /** Edits with the same changes in another order succeed together and read the same everywhere. */
  lemma OrderDoesNotMatter(cfg: Configuration, a: seq<Change>, b: seq<Change>)
    requires (AllAccepted(a) ==> OneValuePerLeaf(a)) && forall c :: c in a <==> c in b
    ensures Alike(cfg, a, b)
  {
    hide ApplyAll, Read, HasProfile, Accepted, LeafOf, ValueOf;
    AllOrNothing(cfg, a);
    AllOrNothing(cfg, b);
    if ApplyAll(cfg, a).Good? {
      var x, y := ApplyAll(cfg, a).value, ApplyAll(cfg, b).value;
      forall leaf: Leaf ensures Read(x, leaf) == Read(y, leaf) {
        EditReads(cfg, a, leaf);
        EditReads(cfg, b, leaf);
        if Writes(a, leaf) {
          var c :| c in a && LeafOf(c) == Some(leaf);
          assert c in b;
        }
      }
      forall qci ensures HasProfile(x, qci) == HasProfile(y, qci) {
        EditReads(cfg, a, Qci(qci, ""));
        EditReads(cfg, b, Qci(qci, ""));
      }
    }
  }

  /** Validity is a matter of readings. */
  lemma SameReadingsSameValidity(a: Configuration, b: Configuration, isIP: string -> bool)
    requires SameReadings(a, b)
    ensures a.leaves == b.leaves && Valid(a, isIP) == Valid(b, isIP)
  {
    hide FindProfile;
    assert a.leaves == b.leaves by {
      forall k: string ensures (k in a.leaves <==> k in b.leaves) && (k in a.leaves ==> a.leaves[k] == b.leaves[k]) {
        assert Read(a, Flat(k)) == Read(b, Flat(k));
      }
    }
    hide ValidLeaves;
    ProfilesInRange(a);
    ProfilesInRange(b);
  }

  lemma ProfilesInRange(cfg: Configuration)
    ensures ValidProfiles(cfg.profiles) <==> forall q :: HasProfile(cfg, q) ==> 1 <= q <= 9
  {
    if forall q :: HasProfile(cfg, q) ==> 1 <= q <= 9 {
      forall i | 0 <= i < |cfg.profiles| ensures 1 <= cfg.profiles[i].qci <= 9 {
        assert HasProfile(cfg, cfg.profiles[i].qci);
      }
    }
  }

  /**
   Confluence of edits: if changes of one leaf give it one value, every order of visiting them
   gives the same success or failure, validation included, and the same readings.
   */
  lemma EditIsConfluent(cand: Configuration, a: seq<Change>, b: seq<Change>, isIP: string -> bool)
    requires OneValuePerLeaf(a) && forall c :: c in a <==> c in b
    ensures Preview(cand, a, isIP).Good? == Preview(cand, b, isIP).Good?
    ensures Preview(cand, a, isIP).Good? ==> SameReadings(Preview(cand, a, isIP).value, Preview(cand, b, isIP).value)
  {
    hide ApplyAll, SameReadings, Valid, OneValuePerLeaf;
    OrderDoesNotMatter(cand, a, b);
    if ApplyAll(cand, a).Good? {
      SameReadingsSameValidity(ApplyAll(cand, a).value, ApplyAll(cand, b).value, isIP);
    }
  }

  // ----- when the order matters

  /** Every order of visiting the changes gives the same outcome. */
  ghost predicate Confluent(cfg: Configuration, changes: seq<Change>) {
    forall a, b | multiset(a) == multiset(changes) && multiset(b) == multiset(changes) :: Alike(cfg, a, b)
  }

  lemma {:induction false} ApplyAllConcat(cfg: Configuration, a: seq<Change>, b: seq<Change>)
    ensures ApplyAll(cfg, a + b) == match ApplyAll(cfg, a) case Bad => Bad case Good(next) => ApplyAll(next, b)
    decreases |a|
  {
    hide Apply, Trim;
    if a == [] {
      assert a + b == b;
    } else {
      assert (a + b)[0] == a[0] && (a + b)[1..] == a[1..] + b;
      var r := Apply(cfg, Trim(a[0].0), a[0].1);
      if r.Good? {
        ApplyAllConcat(r.value, a[1..], b);
      }
    }
  }

  /** The changes without numbers `i` and `j`. */
  function Without(changes: seq<Change>, i: nat, j: nat): seq<Change>
    requires i < j < |changes|
  {
    changes[..i] + changes[i + 1..j] + changes[j + 1..]
  }

  lemma TwoLast(changes: seq<Change>, i: nat, j: nat)
    requires i < j < |changes|
    ensures multiset(Without(changes, i, j) + [changes[i], changes[j]]) == multiset(changes)
    ensures multiset(Without(changes, i, j) + [changes[j], changes[i]]) == multiset(changes)
  {
    assert changes == changes[..i] + [changes[i]] + changes[i + 1..j] + [changes[j]] + changes[j + 1..];
  }

  /** Of two changes of one leaf the last one wins. */
  lemma LastWins(cfg: Configuration, rest: seq<Change>, c: Change, d: Change, leaf: Leaf)
    requires AllAccepted(rest) && Accepted(c) && Accepted(d) && LeafOf(c) == LeafOf(d) == Some(leaf)
    ensures var r := ApplyAll(cfg, rest + [c, d]); r.Good? && Read(r.value, leaf) == Some(ValueOf(d))
  {
    hide ApplyAll, Read, Accepted, LeafOf, ValueOf;
    AllOrNothing(cfg, rest);
    ApplyAllConcat(cfg, rest, [c, d]);
    TwoWrites(ApplyAll(cfg, rest).value, c, d, leaf);
  }

  lemma ClashIsSeen(cfg: Configuration, changes: seq<Change>, i: nat, j: nat)
    requires AllAccepted(changes) && i < j < |changes| && LeafOf(changes[i]) == LeafOf(changes[j])
    requires ValueOf(changes[i]) != ValueOf(changes[j])
    ensures !Confluent(cfg, changes)
  {
    hide ApplyAll, Read, Accepted, LeafOf, ValueOf, HasProfile;
    var rest, c, d := Without(changes, i, j), changes[i], changes[j];
    assert c in changes && d in changes && forall x | x in rest :: x in changes;
    AcceptedLeaf(c);
    var leaf := LeafOf(c).value;
    LastWins(cfg, rest, c, d, leaf);
    LastWins(cfg, rest, d, c, leaf);
    TwoLast(changes, i, j);
    assert !Alike(cfg, rest + [c, d], rest + [d, c]);
  }

  lemma AcceptedLeaf(c: Change)
    requires Accepted(c)
    ensures LeafOf(c).Some?
  {}

  /**
   The exact condition for confluence, for every list of changes: the order does not matter if and
   only if some change is refused, or no leaf is given two different values.
   */
  lemma ConfluenceIsExact(cfg: Configuration, changes: seq<Change>)
    ensures Confluent(cfg, changes) <==> !AllAccepted(changes) || OneValuePerLeaf(changes)
  {
    hide ApplyAll, Accepted, LeafOf, ValueOf, Alike;
    if !AllAccepted(changes) || OneValuePerLeaf(changes) {
      forall a, b | multiset(a) == multiset(changes) && multiset(b) == multiset(changes) ensures Alike(cfg, a, b) {
        SameMembers(a, changes);
        SameMembers(b, changes);
        OrderDoesNotMatter(cfg, a, b);
      }
    } else {
      var c, d :| c in changes && d in changes && Accepted(c) && Accepted(d) && LeafOf(c) == LeafOf(d) && ValueOf(c) != ValueOf(d);
      var i :| 0 <= i < |changes| && changes[i] == c;
      var j :| 0 <= j < |changes| && changes[j] == d;
      if i < j {
        ClashIsSeen(cfg, changes, i, j);
      } else {
        ClashIsSeen(cfg, changes, j, i);
      }
    }
  }

  lemma SameMembers(a: seq<Change>, b: seq<Change>)
    requires multiset(a) == multiset(b)
    ensures forall c :: c in a <==> c in b
  {
    forall c ensures c in a <==> c in b {
      assert c in a <==> c in multiset(a);
      assert c in b <==> c in multiset(b);
    }
  }

  // ----- two spellings of one leaf

  lemma {:induction false} IndexOfSuffix(num: string, tail: string)
    requires ']' !in num && tail != [] && tail[0] == ']'
    ensures Index(num + tail, ']') == Some(|num|)
    decreases |num|
  {
    if num != [] {
      IndexOfSuffix(num[1..], tail);
      assert (num + tail)[1..] == num[1..] + tail;
    } else {
      assert num + tail == tail;
    }
  }

  /** A profile key is read by its number, however the number is spelled. */
  lemma SpelledKey(num: string, qci: int, field: string)
    requires num != [] && ']' !in num && ParseInt32(num) == Some(qci) && field != [] && AllIdent(field)
    ensures ParseQciKey(QCI_PREFIX + num + "]." + field) == Some((qci, field))
  {
    var key := QCI_PREFIX + num + "]." + field;
    var rest := key[|QCI_PREFIX|..];
    assert rest == num + ("]." + field);
    IndexOfSuffix(num, "]." + field);
    assert rest[..|num|] == num && rest[|num| + 2..] == field;
  }

  lemma ProfileKeyIsNoLeaf(key: string)
    requires QCI_PREFIX <= key
    ensures KindOf(key) == None
  {
    assert key[3] == '_' && key[4] == 'p' && key[0] == 'q' && key[1] == 'c';
  }

  function ProfileChange(num: string, field: string, n: int): Change {
    (QCI_PREFIX + num + "]." + field, AnyInt32(n))
  }

  lemma SpelledChange(num: string, qci: int, field: string, n: int)
    requires num != [] && ']' !in num && ParseInt32(num) == Some(qci) && 1 <= qci <= 9
    requires field in QCI_FIELDS && AllIdent(field) && IsTrimmed(field) && field != []
    ensures var c := ProfileChange(num, field, n);
            Trim(c.0) == c.0 && Accepted(c) && LeafOf(c) == Some(Qci(qci, field)) && ValueOf(c) == I32(n)
  {
    hide ParseInt32, AllIdent, QCI_FIELDS, Trim, ParseQciKey, KindOf;
    KeyIsTrimmed(num, field);
    SpelledKey(num, qci, field);
    ProfileKeyIsNoLeaf(QCI_PREFIX + num + "]." + field);
  }

  lemma KeyIsTrimmed(num: string, field: string)
    requires IsTrimmed(field) && field != []
    ensures var key := QCI_PREFIX + num + "]." + field; QCI_PREFIX <= key && Trim(key) == key
  {
    var key := QCI_PREFIX + num + "]." + field;
    assert key[0] == 'q' && key[|key| - 1] == field[|field| - 1];
    TrimOfTrimmed(key);
  }

  /**
   Distinct key strings are not enough for confluence. A map that holds one profile leaf under two
   spellings of its number has distinct keys, and its order does not matter if and only if both
   give the same number.
   */
  lemma SpellingsClash(cfg: Configuration, x: string, y: string, qci: int, field: string, m: int, n: int)
    requires x != y && x != [] && y != [] && ']' !in x && ']' !in y && 1 <= qci <= 9
    requires ParseInt32(x) == Some(qci) && ParseInt32(y) == Some(qci)
    requires field in QCI_FIELDS && AllIdent(field) && IsTrimmed(field) && field != []
    ensures var a, b := ProfileChange(x, field, m), ProfileChange(y, field, n);
            Trim(a.0) != Trim(b.0) && (Confluent(cfg, [a, b]) <==> m == n)
  {
    hide ParseInt32, AllIdent, QCI_FIELDS, Accepted, LeafOf, ValueOf, Trim, IsTrimmed, Confluent;
    SpelledChange(x, qci, field, m);
    SpelledChange(y, qci, field, n);
    var a, b := ProfileChange(x, field, m), ProfileChange(y, field, n);
    assert a.0[|QCI_PREFIX|..|a.0| - 2 - |field|] == x && b.0[|QCI_PREFIX|..|b.0| - 2 - |field|] == y;
    ConfluenceIsExact(cfg, [a, b]);
    assert a in [a, b] && b in [a, b];
  }

  /** Such a map: profile 7 spelled "7" and "07". */
  lemma TwoSpellings(cfg: Configuration)
    ensures !Confluent(cfg, [ProfileChange("7", "priority", 1), ProfileChange("07", "priority", 2)])
  {
    hide Confluent, ProfileChange, Trim;
    assert ParseInt32("7") == Some(7);
    assert ParseNat("0") == Some(0) && "07"[..1] == "0" && ParseNat("07") == Some(7);
    SpellingsClash(cfg, "7", "07", 7, "priority", 1, 2);
  }

  lemma TwoWrites(cfg: Configuration, a: Change, b: Change, leaf: Leaf)
    requires Accepted(a) && Accepted(b) && LeafOf(a) == LeafOf(b) == Some(leaf)
    ensures ApplyAll(cfg, [a, b]).Good? && Read(ApplyAll(cfg, [a, b]).value, leaf) == Some(ValueOf(b))
  {
    hide Trim, Resolve, Converted;
    ApplyReads(cfg, a, leaf);
    var next := Apply(cfg, Trim(a.0), a.1).value;
    ApplyReads(next, b, leaf);
    var last := Apply(next, Trim(b.0), b.1).value;
    assert [a, b][1..] == [b] && [b][1..] == [];
    assert ApplyAll(last, []) == Good(last);
    assert ApplyAll(next, [b]) == Good(last);
  }
}
