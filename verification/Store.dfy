/**
 The configuration store: running and candidate configuration, the dirty marks, and the two-phase
 commit to the four files with backup, staging, rename and rollback. The file system is a map of
 files to bytes with a set of temporary siblings; a step on a file may fail as `Faults` says.
 */
module Store {
  import opened Lexer
  import opened Text
  import opened Config
  import opened Routing
  import opened Rendering

  /** The files on which a step fails: the read for the backup, the read for rendering, writing the
      temporary file, the rename, the restoring write, and the removal of a temporary file. */
  datatype Faults = Faults(backup: set<File>, read: set<File>, stage: set<File>, rename: set<File>, restore: set<File>, remove: set<File>)

  datatype Content = Content(running: Configuration, cand: Configuration, dirty: set<File>, dirtyKeys: set<string>, disk: map<File, Bytes>)

  const FILES: seq<File> := [ENB, RR, SIB, RB]

  // ----- editing

  /** The keys that an edit marks dirty: those of the changes before the first refused one. */
  function Marks(changes: seq<Change>): set<string> {
    if changes == [] || !Accepts(Trim(changes[0].0), changes[0].1) then {}
    else {Trim(changes[0].0)} + Marks(changes[1..])
  }

  function FilesOf(keys: set<string>): set<File> {
    set k | k in keys && FileOf(k).Some? :: FileOf(k).value
  }

  /** editLocked: the marks stay even when the edit fails. */
  function Edited(s: Content, changes: seq<Change>, isIP: string -> bool): Content {
    var next := Preview(s.cand, changes, isIP);
    s.(dirty := s.dirty + FilesOf(Marks(changes)), dirtyKeys := s.dirtyKeys + Marks(changes),
       cand := if next.Good? then next.value else s.cand)
  }

  function Reset(s: Content): Content {
    s.(cand := s.running, dirty := {}, dirtyKeys := {})
  }

  // ----- committing

  ghost predicate Lists(order: seq<string>, keys: set<string>) {
    forall k :: k in order <==> k in keys
  }

  /** The dirty file can be read, rendered and staged. */
  predicate Stages(s: Content, faults: Faults, order: seq<string>, f: File) {
    && f in s.disk && f !in faults.read && RenderFor(f, s.disk[f], order, s.cand).Some?
    && f !in faults.stage
  }

  predicate Persists(s: Content, faults: Faults, order: seq<string>, isIP: string -> bool) {
    && Valid(s.cand, isIP)
    && forall f | f in s.dirty :: f !in faults.backup && Stages(s, faults, order, f) && f !in faults.rename
  }

  /** The files as the renderer makes them from the candidate. */
  function Rendered(s: Content, order: seq<string>): map<File, Bytes> {
    map f | f in s.disk :: if f in s.dirty && RenderFor(f, s.disk[f], order, s.cand).Some?
                           then RenderFor(f, s.disk[f], order, s.cand).value else s.disk[f]
  }

  function Persisted(s: Content, order: seq<string>): Content {
    s.(disk := Rendered(s, order))
  }

  function Finalized(s: Content): Content {
    s.(running := s.cand, dirty := {}, dirtyKeys := {})
  }

  /** restoreDirtyFilesLocked: only files that are still marked dirty are put back. */
  function RolledBack(s: Content, backup: map<File, Bytes>): Content {
    s.(disk := map f | f in s.disk :: if f in s.dirty && f in backup then backup[f] else s.disk[f])
  }

  function BackupOf(s: Content): map<File, Bytes> {
    map f | f in s.dirty && f in s.disk :: s.disk[f]
  }

  datatype Staged = Staged(final: File, tmp: nat)

  /** The temporary files from `base` on belong to the staged files, in order, and hold what is rendered. */
  ghost predicate Holds(temps: map<nat, Bytes>, base: nat, staged: seq<Staged>, s: Content, order: seq<string>) {
    forall i | 0 <= i < |staged| ::
      && staged[i].tmp == base + i && staged[i].tmp in temps && staged[i].final in s.disk
      && RenderFor(staged[i].final, s.disk[staged[i].final], order, s.cand) == Some(temps[staged[i].tmp])
  }

  ghost predicate Once(staged: seq<Staged>) {
    forall i, j | 0 <= i < j < |staged| :: staged[i].final != staged[j].final
  }

  function Finals(staged: seq<Staged>): set<File> {
    set st | st in staged :: st.final
  }

  function Removable(staged: seq<Staged>, faults: Faults): set<nat> {
    set st | st in staged && st.final !in faults.remove :: st.tmp
  }

  class ConfigStore {
    var running: Configuration
    var cand: Configuration
    var dirty: set<File>
    var dirtyKeys: set<string>
    var disk: map<File, Bytes>
    var temps: map<nat, Bytes>
    var nextTemp: nat
    const isIP: string -> bool

    /** New: the candidate starts as the running configuration. */
    constructor (cfg: Configuration, files: map<File, Bytes>, isIP: string -> bool)
      ensures View() == Content(cfg, cfg, {}, {}, files) && temps == map[] && Fresh() && this.isIP == isIP
    {
      running, cand, dirty, dirtyKeys, disk, temps, nextTemp := cfg, cfg, {}, {}, files, map[], 0;
      this.isIP := isIP;
    }

    ghost function View(): Content
      reads this
    {
      Content(running, cand, dirty, dirtyKeys, disk)
    }

    /** New temporary files get names that are not in use. */
    ghost predicate Fresh()
      reads this
    {
      forall id | id in temps :: id < nextTemp
    }

    method Edit(changes: seq<Change>) returns (ok: bool)
      modifies this`cand, this`dirty, this`dirtyKeys
      ensures View() == Edited(old(View()), changes, isIP)
      ensures ok == Preview(old(cand), changes, isIP).Good?
    {
      hide Trim, Apply, Accepts, Valid, Marks, FilesOf;
      ghost var s := View();
      var next := cand;
      var i := 0;
      assert changes[0..] == changes;
      while i < |changes|
        invariant 0 <= i <= |changes| && cand == s.cand
        invariant ApplyAll(next, changes[i..]) == ApplyAll(s.cand, changes)
        invariant dirtyKeys + Marks(changes[i..]) == s.dirtyKeys + Marks(changes)
        invariant dirty + FilesOf(Marks(changes[i..])) == s.dirty + FilesOf(Marks(changes))
      {
        assert changes[i..][0] == changes[i] && changes[i..][1..] == changes[i + 1..];
        var key := Trim(changes[i].0);
        var applied := Apply(next, key, changes[i].1);
        ApplyAccepts(next, key, changes[i].1);
        MarkOne(key, changes, i);
        if applied.Bad? {
          return false;
        }
        next := applied.value;
        dirty := dirty + FilesOf({key});
        dirtyKeys := dirtyKeys + {key};
        i := i + 1;
      }
      assert changes[i..] == [];
      NoMarks();
      if !Valid(next, isIP) {
        return false;
      }
      cand := next;
      return true;
    }

    method ResetCandidate()
      modifies this`cand, this`dirty, this`dirtyKeys
      ensures View() == Reset(old(View()))
    {
      cand, dirty, dirtyKeys := running, {}, {};
    }

    // ----- files

    method BackupDirtyFiles(faults: Faults) returns (r: Option<map<File, Bytes>>)
      ensures r.Some? <==> forall f | f in dirty :: f in disk && f !in faults.backup
      ensures r.Some? ==> r.value == BackupOf(View())
    {
      hide Visited;
      NoFiles();
      var backup: map<File, Bytes> := map[];
      var i := 0;
      while i < |FILES|
        invariant 0 <= i <= |FILES|
        invariant forall f | f in Visited(i) && f in dirty :: f in disk && f !in faults.backup
        invariant backup == map f | f in dirty && f in disk && f in Visited(i) :: disk[f]
      {
        var f := FILES[i];
        NextFile(i);
        if f in dirty {
          if f !in disk || f in faults.backup {
            return None;
          }
          backup := backup[f := disk[f]];
        }
        i := i + 1;
      }
      AllFiles();
      return Some(backup);
    }

    /** writeTempSibling: on failure the temporary file is removed again, if that works. */
    method WriteTemp(f: File, data: Bytes, fails: bool, faults: Faults) returns (r: Option<nat>)
      requires Fresh()
      modifies this`temps, this`nextTemp
      ensures Fresh() && nextTemp == old(nextTemp) + 1
      ensures r == if fails then None else Some(old(nextTemp))
      ensures !fails ==> temps == old(temps)[old(nextTemp) := data]
      ensures fails && f !in faults.remove ==> temps == old(temps)
      ensures forall id | id in old(temps) :: id in temps && temps[id] == old(temps)[id]
    {
      var id := nextTemp;
      nextTemp := nextTemp + 1;
      if fails {
        if f in faults.remove {
          temps := temps[id := data];
        }
        return None;
      }
      temps := temps[id := data];
      return Some(id);
    }

    /** cleanupStagedFiles: a temporary file that is already gone is no error. */
    method CleanupStaged(staged: seq<Staged>, faults: Faults)
      requires Fresh()
      modifies this`temps
      ensures Fresh() && temps == old(temps) - Removable(staged, faults)
    {
      var i := 0;
      while i < |staged|
        invariant 0 <= i <= |staged| && temps == old(temps) - Removable(staged[..i], faults)
      {
        assert staged[..i + 1] == staged[..i] + [staged[i]];
        if staged[i].final !in faults.remove {
          temps := temps - {staged[i].tmp};
        }
        i := i + 1;
      }
      assert staged[..i] == staged;
    }

    method StageDirtyFiles(order: seq<string>, faults: Faults) returns (r: Option<seq<Staged>>)
      requires Fresh()
      modifies this`temps, this`nextTemp
      ensures Fresh()
      ensures r.Some? <==> forall f | f in dirty :: Stages(View(), faults, order, f)
      ensures r.Some? ==> Ready(temps, old(nextTemp), r.value, View(), order) && Finals(r.value) == dirty && temps - Tmps(r.value) == old(temps)
      ensures r.None? && faults.remove == {} ==> temps == old(temps)
    {
      hide RenderFor, Visited, Finals, Tmps, Ready, Removable;
      NoFiles();
      NothingStaged();
      StartsReady(temps, nextTemp, View(), order);
      var staged: seq<Staged> := [];
      var i := 0;
      while i < |FILES|
        invariant 0 <= i <= |FILES| && Fresh() && nextTemp == old(nextTemp) + |staged|
        invariant forall f | f in Visited(i) && f in dirty :: Stages(View(), faults, order, f)
        invariant Ready(temps, old(nextTemp), staged, View(), order) && Finals(staged) == Visited(i) * dirty
        invariant temps - Tmps(staged) == old(temps)
      {
        var f := FILES[i];
        NextFile(i);
        if f in dirty {
          var data: Option<Bytes> := None;
          if f in disk && f !in faults.read {
            data := RenderOne(f, disk[f], order, cand);
          }
          if data.None? {
            CleanupStaged(staged, faults);
            AllRemoved(staged, faults);
            assert !Stages(View(), faults, order, f);
            return None;
          }
          ghost var before := temps;
          var tmp := WriteTemp(f, data.value, f in faults.stage, faults);
          if tmp.None? {
            CleanupStaged(staged, faults);
            AllRemoved(staged, faults);
            assert !Stages(View(), faults, order, f);
            return None;
          }
          StageOne(before, old(nextTemp), staged, View(), order, f, data.value);
          staged := staged + [Staged(f, tmp.value)];
        }
        i := i + 1;
      }
      AllFiles();
      return Some(staged);
    }

    /** commitStagedFiles: the renames, up to the first that fails. */
    method CommitStaged(staged: seq<Staged>, faults: Faults, ghost base: nat, ghost order: seq<string>) returns (ok: bool)
      requires Fresh() && Ready(temps, base, staged, View(), order)
      modifies this`temps, this`disk
      ensures Fresh() && temps - Tmps(staged) == old(temps) - Tmps(staged)
      ensures ok <==> forall f | f in Finals(staged) :: f !in faults.rename
      ensures ok ==> temps == old(temps) - Tmps(staged)
      ensures disk.Keys == old(disk).Keys && forall f | f in disk && f !in Finals(staged) :: disk[f] == old(disk)[f]
      ensures ok ==> forall f | f in Finals(staged) :: f in disk && RenderFor(f, old(disk)[f], order, cand) == Some(disk[f])
    {
      hide RenderFor, Finals, Tmps, Ready;
      ghost var s := View();
      NothingStaged();
      assert staged[..0] == [];
      var i := 0;
      while i < |staged|
        invariant 0 <= i <= |staged| && temps == old(temps) - Tmps(staged[..i])
        invariant forall f | f in Finals(staged[..i]) :: f !in faults.rename
        invariant disk.Keys == s.disk.Keys && forall f | f in disk && f !in Finals(staged[..i]) :: disk[f] == s.disk[f]
        invariant forall f | f in Finals(staged[..i]) :: f in disk && RenderFor(f, s.disk[f], order, cand) == Some(disk[f])
      {
        var st := staged[i];
        OneMore(staged, i);
        StillThere(temps, old(temps), base, staged, i, s, order);
        if st.final in faults.rename {
          Subset(staged, i);
          return false;
        }
        disk := disk[st.final := temps[st.tmp]];
        temps := temps - {st.tmp};
        i := i + 1;
      }
      assert staged[..i] == staged;
      return true;
    }

    method AtomicWrite(f: File, data: Bytes, faults: Faults) returns (ok: bool)
      requires Fresh()
      modifies this`disk, this`temps, this`nextTemp
      ensures Fresh() && ok == (f !in faults.restore)
      ensures disk == if ok then old(disk)[f := data] else old(disk)
      ensures ok || f !in faults.remove ==> temps == old(temps)
    {
      var tmp := WriteTemp(f, data, f in faults.restore, faults);
      if tmp.None? {
        return false;
      }
      disk := disk[f := temps[tmp.value]];
      temps := temps - {tmp.value};
      return true;
    }

    /** restoreDirtyFilesLocked, up to the first write that fails. */
    method RestoreDirtyFiles(backup: map<File, Bytes>, faults: Faults)
      requires Fresh() && backup.Keys <= disk.Keys
      modifies this`disk, this`temps, this`nextTemp
      ensures Fresh()
      ensures faults.restore == {} ==> View() == RolledBack(old(View()), backup)
      ensures disk.Keys == old(disk).Keys && forall f | f in disk && !(f in dirty && f in backup) :: disk[f] == old(disk)[f]
      ensures faults.remove == {} ==> temps == old(temps)
    {
      hide Visited;
      NoFiles();
      var i := 0;
      ghost var was := disk;
      while i < |FILES|
        invariant 0 <= i <= |FILES| && Fresh() && disk.Keys == was.Keys
        invariant forall f | f in disk :: disk[f] == if f in Visited(i) && f in dirty && f in backup then backup[f] else was[f]
        invariant faults.remove == {} ==> temps == old(temps)
      {
        var f := FILES[i];
        NextFile(i);
        if f in dirty && f in backup {
          var ok := AtomicWrite(f, backup[f], faults);
          if !ok {
            return;
          }
        }
        i := i + 1;
      }
      AllFiles();
    }

    /** PersistCandidate. */
    method PersistCandidate(order: seq<string>, faults: Faults) returns (r: Option<map<File, Bytes>>)
      requires Fresh()
      modifies this`disk, this`temps, this`nextTemp
      ensures Fresh()
      ensures r.Some? <==> Persists(old(View()), faults, order, isIP)
      ensures r.Some? ==> View() == Persisted(old(View()), order) && r.value == BackupOf(old(View()))
      ensures r.None? && faults.restore == {} ==> View() == old(View())
      ensures disk.Keys == old(disk).Keys && forall f | f in disk && f !in dirty :: disk[f] == old(disk)[f]
      ensures faults.remove == {} ==> temps == old(temps)
    {
      hide RenderFor, Valid, Rendered, RolledBack, BackupOf;
      ghost var s := View();
      BackupKeys(s);
      if !Valid(cand, isIP) {
        return None;
      }
      var backup := BackupDirtyFiles(faults);
      if backup.None? {
        return None;
      }
      var staged := StageDirtyFiles(order, faults);
      if staged.None? {
        RestoredIsOld(s, disk);
        RestoreDirtyFiles(backup.value, faults);
        return None;
      }
      var ok := CommitStaged(staged.value, faults, old(nextTemp), order);
      if !ok {
        CleanupStaged(staged.value, faults);
        AllRemoved(staged.value, faults);
        RestoredIsOld(s, disk);
        RestoreDirtyFiles(backup.value, faults);
        return None;
      }
      DiskIsRendered(s, order, disk);
      return Some(backup.value);
    }

    method FinalizeCommit() returns (ok: bool)
      modifies this`running, this`dirty, this`dirtyKeys
      ensures ok == Valid(old(cand), isIP)
      ensures View() == if ok then Finalized(old(View())) else old(View())
    {
      hide Valid;
      if !Valid(cand, isIP) {
        return false;
      }
      running, dirty, dirtyKeys := cand, {}, {};
      return true;
    }

    method RollbackPersist(backup: map<File, Bytes>, faults: Faults)
      requires Fresh() && backup.Keys <= disk.Keys
      modifies this`disk, this`temps, this`nextTemp
      ensures Fresh()
      ensures faults.restore == {} ==> View() == RolledBack(old(View()), backup)
      ensures disk.Keys == old(disk).Keys && forall f | f in disk && !(f in dirty && f in backup) :: disk[f] == old(disk)[f]
      ensures faults.remove == {} ==> temps == old(temps)
    {
      RestoreDirtyFiles(backup, faults);
    }
  }

  lemma BackupKeys(s: Content)
    ensures BackupOf(s).Keys == s.dirty * s.disk.Keys
  {}

  /** A change of dirty files only is undone by the backup. */
  lemma RestoredIsOld(s: Content, disk: map<File, Bytes>)
    requires s.dirty <= s.disk.Keys == disk.Keys && forall f | f in disk && f !in s.dirty :: disk[f] == s.disk[f]
    ensures RolledBack(s.(disk := disk), BackupOf(s)) == s
  {}

  lemma DiskIsRendered(s: Content, order: seq<string>, disk: map<File, Bytes>)
    requires s.dirty <= s.disk.Keys == disk.Keys && forall f | f in disk && f !in s.dirty :: disk[f] == s.disk[f]
    requires forall f | f in s.dirty :: RenderFor(f, s.disk[f], order, s.cand) == Some(disk[f])
    ensures disk == Rendered(s, order)
  {
    hide RenderFor;
  }

  lemma NothingStaged()
    ensures Finals([]) == {} && Tmps([]) == {}
  {}

  lemma StartsReady(temps: map<nat, Bytes>, base: nat, s: Content, order: seq<string>)
    ensures Ready(temps, base, [], s, order)
  {}

  lemma OneMore(staged: seq<Staged>, i: nat)
    requires i < |staged|
    ensures Finals(staged[..i + 1]) == Finals(staged[..i]) + {staged[i].final}
    ensures Tmps(staged[..i + 1]) == Tmps(staged[..i]) + {staged[i].tmp}
    ensures staged[i].final in Finals(staged) && staged[i].tmp in Tmps(staged)
  {
    assert staged[..i + 1] == staged[..i] + [staged[i]];
  }

  lemma Subset(staged: seq<Staged>, i: nat)
    requires i <= |staged|
    ensures Tmps(staged[..i]) <= Tmps(staged) && Finals(staged[..i]) <= Finals(staged)
  {}

  /** The next staged file still waits, and its target is untouched. */
  lemma StillThere(temps: map<nat, Bytes>, before: map<nat, Bytes>, base: nat, staged: seq<Staged>, i: nat, s: Content, order: seq<string>)
    requires i < |staged| && Ready(before, base, staged, s, order) && temps == before - Tmps(staged[..i])
    ensures staged[i].tmp in temps && staged[i].final in s.disk && staged[i].final !in Finals(staged[..i])
    ensures RenderFor(staged[i].final, s.disk[staged[i].final], order, s.cand) == Some(temps[staged[i].tmp])
  {
    hide RenderFor;
    assert staged[i].tmp == base + i;
    forall st | st in staged[..i] ensures st.tmp != base + i && st.final != staged[i].final {
      var j :| 0 <= j < i && staged[..i][j] == st;
      assert st == staged[j];
    }
  }

  function Tmps(staged: seq<Staged>): set<nat> {
    set st | st in staged :: st.tmp
  }

  ghost predicate Ready(temps: map<nat, Bytes>, base: nat, staged: seq<Staged>, s: Content, order: seq<string>) {
    Holds(temps, base, staged, s, order) && Once(staged)
  }

  /** The files before number `i`. */
  ghost function Visited(i: nat): set<File>
    requires i <= |FILES|
  {
    set f | f in FILES[..i]
  }

  lemma NoFiles()
    ensures Visited(0) == {}
  {}

  lemma AllFiles()
    ensures forall f: File :: f in Visited(|FILES|)
  {
    forall f: File ensures f in Visited(|FILES|) {
      var i := match f case ENB => 0 case RR => 1 case SIB => 2 case RB => 3;
      assert FILES[..|FILES|][i] == f;
    }
  }

  lemma NextFile(i: nat)
    requires i < |FILES|
    ensures Visited(i + 1) == Visited(i) + {FILES[i]} && FILES[i] !in Visited(i)
  {
    assert FILES[0] == ENB && FILES[1] == RR && FILES[2] == SIB && FILES[3] == RB;
    assert FILES[..i + 1] == FILES[..i] + [FILES[i]];
  }

  lemma AllRemoved(staged: seq<Staged>, faults: Faults)
    ensures faults.remove == {} ==> Removable(staged, faults) == Tmps(staged)
  {}

  /** One more file is staged. */
  lemma StageOne(temps: map<nat, Bytes>, base: nat, staged: seq<Staged>, s: Content, order: seq<string>, f: File, data: Bytes)
    requires Ready(temps, base, staged, s, order) && f !in Finals(staged) && f in s.disk && RenderFor(f, s.disk[f], order, s.cand) == Some(data)
    requires forall id | id in temps :: id < base + |staged|
    ensures var st := Staged(f, base + |staged|);
            && Ready(temps[st.tmp := data], base, staged + [st], s, order)
            && Finals(staged + [st]) == Finals(staged) + {f}
            && temps[st.tmp := data] - Tmps(staged + [st]) == temps - Tmps(staged)
  {
    hide RenderFor;
    var st := Staged(f, base + |staged|);
    var more := staged + [st];
    forall i | 0 <= i < |staged| ensures staged[i].final != f {
      assert staged[i] in staged;
    }
    assert forall x :: x in more <==> x in staged || x == st;
  }

  lemma ApplyAccepts(cfg: Configuration, key: string, v: Any)
    ensures Apply(cfg, key, v).Good? <==> Accepts(key, v)
  {
    hide Resolve, Converted;
  }

  /** What the first of the remaining changes marks. */
  lemma MarkOne(key: string, changes: seq<Change>, i: nat)
    requires i < |changes| && key == Trim(changes[i].0)
    ensures var rest, all := Marks(changes[i + 1..]), Marks(changes[i..]);
            if Accepts(key, changes[i].1) then all == {key} + rest && FilesOf(all) == FilesOf({key}) + FilesOf(rest)
            else all == {} && FilesOf(all) == {}
  {
    hide FileOf, Accepts, Trim;
    assert changes[i..][0] == changes[i] && changes[i..][1..] == changes[i + 1..];
  }

  lemma NoMarks()
    ensures Marks([]) == {} && FilesOf({}) == {}
  {}
}
