/**
 The alarm store and the manager in front of it: one record per (component, code), updated in
 place. Persistence to disk is left out.
 */
module Alarms {

  datatype Key = Key(component: string, code: string)

  datatype Status = Active | Cleared

  /**
   The eight text fields of an alarm, in the order in which Upsert copies them: alarm id, managed
   object, event type, probable cause, perceived severity, specific problem, message, severity.
   */
  type Fields = s: seq<string> | |s| == 8 witness seq(8, _ => "")

  const PERCEIVED: nat := 4
  const SEVERITY: nat := 7

  datatype Record = Record(status: Status, fields: Fields, firstSeen: int, lastSeen: int, count: nat)

  type Records = map<Key, Record>

  predicate IsActive(rs: Records, k: Key) {
    k in rs && rs[k].status == Active
  }

  function CountOf(rs: Records, k: Key): nat {
    if k in rs then rs[k].count else 0
  }

  /** New non-empty fields overwrite old ones. */
  function Merge(dst: Fields, src: Fields): Fields {
    seq(8, i requires 0 <= i < 8 => if src[i] != [] then src[i] else dst[i])
  }

  function Upserted(rs: Records, at: int, k: Key, fields: Fields): Records {
    if k !in rs then rs[k := Record(Active, fields, at, at, 1)]
    else
      var rec := rs[k];
      rs[k := Record(Active, Merge(rec.fields, fields),
                     if rec.status == Active then rec.firstSeen else at, at, rec.count + 1)]
  }

  /** Upsert reports a change for a new record, a record that was not active, or a field that differs. */
  predicate UpsertChanges(rs: Records, k: Key, fields: Fields) {
    k !in rs || rs[k].status != Active || Merge(rs[k].fields, fields) != rs[k].fields
  }

  function Touched(rs: Records, at: int, k: Key): Records {
    if !IsActive(rs, k) then rs
    else rs[k := rs[k].(lastSeen := at, count := rs[k].count + 1)]
  }

  function ClearedOne(rs: Records, at: int, k: Key): Records {
    if !IsActive(rs, k) then rs
    else rs[k := rs[k].(status := Cleared, lastSeen := at,
                        fields := rs[k].fields[PERCEIVED := "CLEARED"][SEVERITY := "cleared"])]
  }

  /** What ClearComponent makes of one record. */
  function ClearedRecord(k: Key, rec: Record, at: int, component: string): Record {
    if k.component != component || rec.status == Cleared then rec
    else rec.(status := Cleared, lastSeen := at, fields := rec.fields[PERCEIVED := "CLEARED"])
  }

  function ClearedComponent(rs: Records, at: int, component: string): Records {
    map k | k in rs :: ClearedRecord(k, rs[k], at, component)
  }

  class Store {
    var records: Records

    constructor ()
      ensures records == map[]
    {
      records := map[];
    }

    method Upsert(at: int, k: Key, fields: Fields) returns (rec: Record, changed: bool)
      modifies this
      ensures records == Upserted(old(records), at, k, fields)
      ensures changed == UpsertChanges(old(records), k, fields)
      ensures rec == records[k]
    {
      if k !in records {
        rec := Record(Active, fields, at, at, 1);
        records := records[k := rec];
        return rec, true;
      }
      rec := records[k];
      changed := false;
      if rec.status != Active {
        rec := rec.(status := Active, firstSeen := at);
        changed := true;
      }
      var i := 0;
      var merged: Fields := rec.fields;
      while i < 8
        invariant 0 <= i <= 8
        invariant forall j | 0 <= j < 8 :: merged[j] == if j < i then Merge(rec.fields, fields)[j] else rec.fields[j]
        invariant changed == (old(records)[k].status != Active || exists j | 0 <= j < i :: merged[j] != rec.fields[j])
      {
        if fields[i] != [] && merged[i] != fields[i] {
          merged := merged[i := fields[i]];
          changed := true;
        }
        i := i + 1;
      }
      assert merged == Merge(rec.fields, fields);
      rec := rec.(fields := merged, lastSeen := at, count := rec.count + 1);
      records := records[k := rec];
    }

    method Touch(at: int, k: Key)
      modifies this
      ensures records == Touched(old(records), at, k)
    {
      if k !in records || records[k].status != Active {
        return;
      }
      records := records[k := records[k].(lastSeen := at, count := records[k].count + 1)];
    }

    method Clear(at: int, k: Key) returns (rec: Record, ok: bool)
      modifies this
      ensures records == ClearedOne(old(records), at, k)
      ensures ok == IsActive(old(records), k)
      ensures ok ==> rec == records[k]
    {
      if k !in records || records[k].status == Cleared {
        return Record(Cleared, seq(8, _ => ""), 0, 0, 0), false;
      }
      rec := records[k];
      rec := rec.(status := Cleared, lastSeen := at,
                  fields := rec.fields[PERCEIVED := "CLEARED"][SEVERITY := "cleared"]);
      records := records[k := rec];
      ok := true;
    }

    /** The records are visited in any order. */
    method ClearComponent(at: int, component: string) returns (cleared: map<Key, Record>)
      modifies this
      ensures records == ClearedComponent(old(records), at, component)
      ensures forall k :: k in cleared <==> IsActive(old(records), k) && k.component == component
      ensures forall k | k in cleared :: k in records && cleared[k] == records[k]
    {
      cleared := map[];
      ghost var was := records;
      var todo := records.Keys;
      while todo != {}
        invariant todo <= was.Keys == records.Keys
        invariant forall k | k in was :: records[k] == if k in todo then was[k] else ClearedRecord(k, was[k], at, component)
        invariant forall k :: k in cleared <==> IsActive(was, k) && k !in todo && k.component == component
        invariant forall k | k in cleared :: k in records && cleared[k] == records[k]
        decreases |todo|
      {
        var k :| k in todo;
        todo := todo - {k};
        if k.component == component && records[k].status != Cleared {
          records := records[k := ClearedRecord(k, records[k], at, component)];
          cleared := cleared[k := records[k]];
        }
      }
      assert records == ClearedComponent(was, at, component);
    }
  }
}
