/**
 Where the renderer puts an assignment of enb.conf, stated on sections and headers.
 */
module IniPlaces {
  import opened Lexer
  import opened Text
  import opened Ini
  import opened IniLines

  /** The section in force when line `i` is reached. */
  function SectionAt(ls: seq<Bytes>, i: nat): Bytes
    requires i <= |ls|
  {
    if i == 0 then []
    else match HeaderName(ls[i - 1]) case Some(name) => name case None => SectionAt(ls, i - 1)
  }

  predicate Opens(ls: seq<Bytes>, i: nat, target: Bytes) {
    i < |ls| && HeaderName(ls[i]) == Some(target)
  }

  /** The section is opened at most once. */
  ghost predicate SectionOnce(ls: seq<Bytes>, target: Bytes) {
    forall i: nat, j: nat | i < j :: !(Opens(ls, i, target) && Opens(ls, j, target))
  }

  /** Line `i` lies in the section and the renderer takes it for an assignment to the key. */
  predicate Assigns(ls: seq<Bytes>, i: nat, target: Bytes, key: Bytes) {
    i < |ls| && SectionAt(ls, i) == target && HasKey(ls[i], key)
  }

  /** The key is assigned at most once in the section. */
  ghost predicate KeyOnce(ls: seq<Bytes>, target: Bytes, key: Bytes) {
    forall i: nat, j: nat | i < j :: !(Assigns(ls, i, target, key) && Assigns(ls, j, target, key))
  }

  lemma AssignsAt(ls: seq<Bytes>, i: nat, target: Bytes, key: Bytes)
    requires Assigns(ls, i, target, key)
    ensures i < |ls| && SectionAt(ls, i) == target && HasKey(ls[i], key)
  {}

  lemma AssignsThere(ls: seq<Bytes>, i: nat, target: Bytes, key: Bytes)
    requires i < |ls| && SectionAt(ls, i) == target && HasKey(ls[i], key)
    ensures Assigns(ls, i, target, key)
  {}

  lemma KeyLine(line: Bytes, key: Bytes)
    requires IsName(key) && HasKey(line, key)
    ensures HeaderName(line) == None && !IsCommentLine(line)
  {
    hide HasKey, HeaderName, IsCommentLine, KeyStands, Lower, IsName;
    var a, w, q := HasKeyStands(line, key);
    StandsHasKey(line, a, w, q, key);
  }

  /** A section that is not in force stays so while no header opens it. */
  lemma {:induction false} StaysOut(ls: seq<Bytes>, i: nat, j: nat, target: Bytes)
    requires i <= j <= |ls| && SectionAt(ls, i) != target
    requires forall k: nat | i <= k < j :: !Opens(ls, k, target)
    ensures SectionAt(ls, j) != target
    decreases j
  {
    hide HeaderName;
    if i < j {
      StaysOut(ls, i, j - 1, target);
      assert !Opens(ls, j - 1, target);
    }
  }

  ghost predicate HasOpened(ls: seq<Bytes>, i: nat, target: Bytes) {
    exists h: nat :: h < i && Opens(ls, h, target)
  }

  /** What the loop knows when it reaches line `i`. */
  ghost predicate Scanned(ls: seq<Bytes>, i: nat, target: Bytes, key: Bytes, current: Bytes, found: bool, insertAt: nat) {
    && i <= |ls| && current == SectionAt(ls, i) && found == HasOpened(ls, i, target)
    && (found ==> insertAt <= i && SectionAt(ls, insertAt) == target)
    && forall j: nat | j < i :: !Assigns(ls, j, target, key)
  }

  /** What the renderer's choice of a place means. */
  ghost predicate Placed(ls: seq<Bytes>, target: Bytes, key: Bytes, p: Place) {
    match p
    case At(i) => Assigns(ls, i, target, key) && forall j: nat | j < i :: !Assigns(ls, j, target, key)
    case Before(i) => i <= |ls| && SectionAt(ls, i) == target && forall j: nat :: !Assigns(ls, j, target, key)
    case Nowhere => forall j: nat :: !Opens(ls, j, target)
  }

  /** After the section has been left, nothing more is assigned in it. */
  lemma NothingLater(ls: seq<Bytes>, h: nat, i: nat, target: Bytes, key: Bytes, j: nat)
    requires SectionOnce(ls, target) && h < i < |ls| && Opens(ls, h, target) && HeaderName(ls[i]).Some? && IsName(key) && i <= j
    ensures !Assigns(ls, j, target, key)
  {
    hide HasKey, HeaderName, IsName;
    if j < |ls| {
      forall k: nat | i <= k < j ensures !Opens(ls, k, target) {}
      if j == i {
        if HasKey(ls[i], key) {
          KeyLine(ls[i], key);
        }
      } else {
        assert !Opens(ls, i, target);
        assert SectionAt(ls, i + 1) != target;
        StaysOut(ls, i + 1, j, target);
      }
    }
  }

  lemma {:induction false} LocatePlaces(ls: seq<Bytes>, i: nat, target: Bytes, key: Bytes, current: Bytes, found: bool, insertAt: nat)
    requires SectionOnce(ls, target) && target != [] && IsName(key)
    requires Scanned(ls, i, target, key, current, found, insertAt)
    ensures Placed(ls, target, key, Locate(ls, i, target, key, current, found, insertAt))
    decreases |ls| - i
  {
    hide HasKey, HeaderName, IsName, IsCommentLine;
    if i == |ls| {
    } else if HeaderName(ls[i]).Some? {
      var name := HeaderName(ls[i]).value;
      assert HasKey(ls[i], key) ==> false by {
        if HasKey(ls[i], key) {
          KeyLine(ls[i], key);
        }
      }
      if found && current == target {
        var h: nat :| h < i && Opens(ls, h, target);
        forall j: nat ensures !Assigns(ls, j, target, key) {
          if i <= j {
            NothingLater(ls, h, i, target, key, j);
          }
        }
      } else {
        var found', insertAt' := found || name == target, if name == target then i + 1 else insertAt;
        HeaderStep(ls, i, target, key, current, found, insertAt, name);
        LocatePlaces(ls, i + 1, target, key, name, found', insertAt');
      }
    } else if current != target || IsCommentLine(ls[i]) {
      assert !Assigns(ls, i, target, key) by {
        if HasKey(ls[i], key) {
          KeyLine(ls[i], key);
        }
      }
      LineStep(ls, i, target, key, current, found, insertAt, insertAt);
      LocatePlaces(ls, i + 1, target, key, current, found, insertAt);
    } else if !HasKey(ls[i], key) {
      var insertAt' := if found then i + 1 else insertAt;
      LineStep(ls, i, target, key, current, found, insertAt, insertAt');
      LocatePlaces(ls, i + 1, target, key, current, found, insertAt');
    }
  }

  lemma HeaderStep(ls: seq<Bytes>, i: nat, target: Bytes, key: Bytes, current: Bytes, found: bool, insertAt: nat, name: Bytes)
    requires Scanned(ls, i, target, key, current, found, insertAt) && i < |ls| && HeaderName(ls[i]) == Some(name) && !HasKey(ls[i], key)
    ensures Scanned(ls, i + 1, target, key, name, found || name == target, if name == target then i + 1 else insertAt)
  {
    hide HasKey, HeaderName;
    assert name == target ==> Opens(ls, i, target);
    assert found ==> HasOpened(ls, i + 1, target) by {
      if found {
        var h: nat :| h < i && Opens(ls, h, target);
        assert h < i + 1;
      }
    }
  }

  lemma LineStep(ls: seq<Bytes>, i: nat, target: Bytes, key: Bytes, current: Bytes, found: bool, insertAt: nat, insertAt': nat)
    requires Scanned(ls, i, target, key, current, found, insertAt) && i < |ls| && HeaderName(ls[i]) == None
    requires !Assigns(ls, i, target, key)
    requires insertAt' == insertAt || (current == target && insertAt' == i + 1)
    ensures Scanned(ls, i + 1, target, key, current, found, insertAt')
  {
    hide HasKey, HeaderName;
    assert found ==> HasOpened(ls, i + 1, target) by {
      if found {
        var h: nat :| h < i && Opens(ls, h, target);
        assert h < i + 1;
      }
    }
  }

  /** The place the renderer finds. */
  lemma FindPlaces(ls: seq<Bytes>, section: Bytes, key: Bytes)
    requires SectionOnce(ls, Lower(section)) && IsName(section) && IsName(key)
    ensures Placed(ls, Lower(section), key, Find(ls, section, key))
  {
    hide HasKey, HeaderName, IsCommentLine, Locate, SectionOnce, Placed;
    TrimOfTrimmed(section);
    assert IsIdent(section[0]) && IsIdent(section[|section| - 1]);
    var target := Lower(section);
    assert |target| > 0;
    LocatePlaces(ls, 0, target, key, [], false, |ls|);
  }
}
