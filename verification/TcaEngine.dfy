/**
 The threshold-crossing engine over the alarm store: whole runs over all rules and managed
 objects, interleaved with whatever other components do to their own alarms.
 */
module TcaEngine {
  import opened Text
  import opened Alarms
  import opened Tca

  // ----- the rules and their alarm codes

  datatype Rule =
    | S1InterfaceDown | NASSignalingLoss | NASSecurityMismatch | NASParsingFailure | RRCProtocolError
    | RRCConnectionRejection | CoreServiceReject | PagingCapacityExceeded | RLCMaxRetransmissions
    | LowThroughput | BadSignalCondition | HighBLER | RLFStorm | RFInterference | UEInactivityCleanup
    | BearerCongestion | PowerHeadroomCritical

  function Code(r: Rule): string {
    match r
    case S1InterfaceDown => "Alarm_S1_Interface_Down"
    case NASSignalingLoss => "Alarm_NAS_Signaling_Loss"
    case NASSecurityMismatch => "Alarm_NAS_Security_Mismatch"
    case NASParsingFailure => "Alarm_NAS_Parsing_Failure"
    case RRCProtocolError => "Alarm_RRC_Protocol_Error"
    case RRCConnectionRejection => "Alarm_RRC_Connection_Rejection"
    case CoreServiceReject => "Alarm_Core_Service_Reject"
    case PagingCapacityExceeded => "Alarm_Paging_Capacity_Exceeded"
    case RLCMaxRetransmissions => "Alarm_RLC_Max_Retransmissions"
    case LowThroughput => "Alarm_Low_Throughput_Active_Users"
    case BadSignalCondition => "Alarm_Bad_Signal_Condition"
    case HighBLER => "Alarm_High_BLER"
    case RLFStorm => "Alarm_Radio_Link_Failure_Storm"
    case RFInterference => "Alarm_RF_Interference_Detected"
    case UEInactivityCleanup => "Alarm_UE_Inactivity_Cleanup"
    case BearerCongestion => "Alarm_Bearer_Congestion"
    case PowerHeadroomCritical => "Alarm_Power_Headroom_Critical"
  }

  /** Four characters that tell the codes apart. */
  function Mark(r: Rule): (char, char, char, char) {
    match r
    case S1InterfaceDown => ('S', '1', 'n', 't')
    case NASSignalingLoss => ('N', 'A', 'S', 'i')
    case NASSecurityMismatch => ('N', 'A', 'S', 'e')
    case NASParsingFailure => ('N', 'A', 'P', 'a')
    case RRCProtocolError => ('R', 'R', 'P', 'r')
    case RRCConnectionRejection => ('R', 'R', 'C', 'o')
    case CoreServiceReject => ('C', 'o', '_', 'S')
    case PagingCapacityExceeded => ('P', 'a', 'n', 'g')
    case RLCMaxRetransmissions => ('R', 'L', 'M', 'a')
    case LowThroughput => ('L', 'o', 'T', 'h')
    case BadSignalCondition => ('B', 'a', 'S', 'i')
    case HighBLER => ('H', 'i', '_', 'B')
    case RLFStorm => ('R', 'a', 'o', '_')
    case RFInterference => ('R', 'F', 'n', 't')
    case UEInactivityCleanup => ('U', 'E', 'n', 'a')
    case BearerCongestion => ('B', 'e', 'e', 'r')
    case PowerHeadroomCritical => ('P', 'o', 'r', '_')
  }

  ghost predicate Marked(r: Rule) {
    |Code(r)| >= 12 && Mark(r) == (Code(r)[6], Code(r)[7], Code(r)[10], Code(r)[11])
  }

  lemma MarkOfCoreCode(r: Rule)
    requires r.S1InterfaceDown? || r.NASSignalingLoss? || r.NASSecurityMismatch? || r.NASParsingFailure?
    ensures Marked(r)
  {}

  lemma MarkOfNodeCode(r: Rule)
    requires r.RRCProtocolError? || r.RRCConnectionRejection? || r.CoreServiceReject? || r.PagingCapacityExceeded?
          || r.RLCMaxRetransmissions?
    ensures Marked(r)
  {}

  lemma MarkOfRadioCode(r: Rule)
    requires r.LowThroughput? || r.BadSignalCondition? || r.HighBLER? || r.RLFStorm? || r.RFInterference?
          || r.UEInactivityCleanup? || r.BearerCongestion? || r.PowerHeadroomCritical?
    ensures Marked(r)
  {}

  /** No two rules share an alarm code, so a record belongs to one rule. */
  lemma CodesAreDistinct(a: Rule, b: Rule)
    ensures Code(a) == Code(b) <==> a == b
  {
    hide Code;
    MarkOfCode(a);
    MarkOfCode(b);
  }

  lemma MarkOfCode(r: Rule)
    ensures Marked(r)
  {
    hide Code, Marked;
    if r.LowThroughput? || r.BadSignalCondition? || r.HighBLER? || r.RLFStorm? || r.RFInterference?
       || r.UEInactivityCleanup? || r.BearerCongestion? || r.PowerHeadroomCritical? {
      MarkOfRadioCode(r);
    } else if r.S1InterfaceDown? || r.NASSignalingLoss? || r.NASSecurityMismatch? || r.NASParsingFailure? {
      MarkOfCoreCode(r);
    } else {
      MarkOfNodeCode(r);
    }
  }

  // ----- codes and the normalisation of alarms

  /** strings.Contains. */
  ghost predicate Contains(s: string, part: string) {
    exists i: nat :: OccursAt(s, part, i)
  }

  /** canonicalCode: Raise stores an alarm under this code. */
  ghost function Canonical(component: string, code: string): string {
    var c := Lower(Trim(component));
    if c == "uds" then "Alarm_UDS_Disconnected"
    else if c == "netconf" then "Alarm_Netconf_Down"
    else if Contains(code, "PROCESS") then "Alarm_SrsENB_ProcessDown"
    else if Contains(code, "NETWORK") then "Alarm_S1_Down"
    else code
  }

  lemma NoWordInCore(r: Rule)
    requires r.S1InterfaceDown? || r.NASSignalingLoss? || r.NASSecurityMismatch? || r.NASParsingFailure?
    ensures 'O' !in Code(r)
  {}

  lemma NoWordInSignalling(r: Rule)
    requires r.RRCProtocolError? || r.RRCConnectionRejection? || r.CoreServiceReject? || r.PagingCapacityExceeded?
    ensures 'O' !in Code(r)
  {}

  lemma NoWordInTraffic(r: Rule)
    requires r.RLCMaxRetransmissions? || r.LowThroughput? || r.BadSignalCondition? || r.HighBLER?
    ensures 'O' !in Code(r)
  {}

  lemma NoWordInRadio(r: Rule)
    requires r.RLFStorm? || r.RFInterference? || r.UEInactivityCleanup? || r.BearerCongestion? || r.PowerHeadroomCritical?
    ensures 'O' !in Code(r)
  {}

  /** No code has the capital letter that both words have. */
  lemma NoWordInCode(r: Rule)
    ensures 'O' !in Code(r)
  {
    hide Code;
    if r.S1InterfaceDown? || r.NASSignalingLoss? || r.NASSecurityMismatch? || r.NASParsingFailure? {
      NoWordInCore(r);
    } else if r.RRCProtocolError? || r.RRCConnectionRejection? || r.CoreServiceReject? || r.PagingCapacityExceeded? {
      NoWordInSignalling(r);
    } else if r.RLCMaxRetransmissions? || r.LowThroughput? || r.BadSignalCondition? || r.HighBLER? {
      NoWordInTraffic(r);
    } else {
      NoWordInRadio(r);
    }
  }

  lemma WordIsAbsent(s: string, part: string, k: nat)
    requires k < |part| && part[k] == 'O' && 'O' !in s
    ensures !Contains(s, part)
  {
    forall i: nat ensures !OccursAt(s, part, i) {
      assert i + |part| <= |s| ==> s[i..i + |part|][k] == s[i + k] && s[i + k] in s;
    }
  }

  /** A threshold component keeps its first letter when trimmed and lowered. */
  lemma ComponentIsOrdinary(moi: string)
    ensures Lower(Trim(PREFIX + moi)) != "uds" && Lower(Trim(PREFIX + moi)) != "netconf"
  {
    hide Trim;
    var s := PREFIX + moi;
    var b := TrimFrom(s, 0, 0);
    assert Trim(s)[0] == 't';
    assert Lower(Trim(s))[0] == 't';
  }

  /** Normalisation leaves every rule's code alone, so that raising and clearing meet on one record. */
  lemma CodesAreCanonical(r: Rule, moi: string)
    ensures Canonical(PREFIX + moi, Code(r)) == Code(r)
  {
    hide Code, Contains, Trim, Lower;
    ComponentIsOrdinary(moi);
    NoWordInCode(r);
    WordIsAbsent(Code(r), "PROCESS", 2);
    WordIsAbsent(Code(r), "NETWORK", 4);
  }

  // ----- the engine

  const PREFIX: string := "tca:"

  datatype StateKey = StateKey(rule: Rule, component: string, code: string)

  type States = map<StateKey, RuleState>

  function KeyOf(r: Rule, moi: string): StateKey {
    StateKey(r, PREFIX + moi, Code(r))
  }

  function AlarmOf(r: Rule, moi: string): Key {
    Key(PREFIX + moi, Code(r))
  }

  /** A missing entry stands for the idle state. */
  function StateOf(states: States, k: StateKey): RuleState {
    if k in states then states[k] else IDLE
  }

  function Put(states: States, k: StateKey, s: RuleState): States {
    if s == IDLE then states - {k} else states[k := s]
  }

  type Event = (Key, Status)

  datatype Entry = Entry(key: Key, action: Action)

  /** The engine's state, the store's records, the events emitted and the store calls made so far. */
  datatype World = World(states: States, records: Records, events: seq<Event>, log: seq<Entry>)

  function Transition(w: World, t: Timing, r: Rule, moi: string, c: Call, fields: Fields): World {
    var (s, action) := Next(t, StateOf(w.states, KeyOf(r, moi)), c);
    var k, rs := AlarmOf(r, moi), w.records;
    var states := Put(w.states, KeyOf(r, moi), s);
    match action
    case Quiet => w.(states := states)
    case Raise =>
      World(states, Upserted(rs, c.now, k, fields),
            w.events + (if UpsertChanges(rs, k, fields) then [(k, Active)] else []), w.log + [Entry(k, Raise)])
    case Clear =>
      World(states, ClearedOne(rs, c.now, k),
            w.events + (if IsActive(rs, k) then [(k, Cleared)] else []), w.log + [Entry(k, Clear)])
    case Touch =>
      World(states, Touched(rs, c.now, k), w.events, w.log + [Entry(k, Touch)])
  }

  /** Events and log only accumulate; they do not influence a transition. */
  lemma TransitionFrame(w: World, t: Timing, r: Rule, moi: string, c: Call, fields: Fields)
    ensures var w0 := Transition(World(w.states, w.records, [], []), t, r, moi, c, fields);
            var w' := Transition(w, t, r, moi, c, fields);
            w'.states == w0.states && w'.records == w0.records && w'.events == w.events + w0.events
  {}

  class Engine {
    var states: States
    const store: Store

    constructor (s: Store)
      ensures states == map[] && store == s
    {
      states, store := map[], s;
    }

    ghost function View(): World
      reads this, store
    {
      World(states, store.records, [], [])
    }

    method Apply(now: int, t: Timing, r: Rule, moi: string, violation: bool, clear: bool, fields: Fields)
      returns (events: seq<Event>)
      requires now != 0
      modifies this, store
      ensures var w := Transition(old(View()), t, r, moi, Call(now, violation, clear), fields);
              states == w.states && store.records == w.records && events == w.events
    {
      var key, alarm := KeyOf(r, moi), AlarmOf(r, moi);
      var state := if key in states then states[key] else IDLE;
      events := [];
      if !state.active {
        if !violation {
          states := states - {key};
          return;
        }
        if state.pendingRaise == 0 {
          state := state.(pendingRaise := now);
          states := states[key := state];
          if t.raiseDuration > 0 {
            return;
          }
        }
        if now - state.pendingRaise < t.raiseDuration {
          states := states[key := state];
          return;
        }
        state := state.(active := true, pendingRaise := 0);
        states := states[key := state];
        var rec, changed := store.Upsert(now, alarm, fields);
        return if changed then [(alarm, Active)] else [];
      }
      if clear {
        if state.pendingClear == 0 {
          state := state.(pendingClear := now);
          states := states[key := state];
          if t.clearDuration > 0 {
            return;
          }
        }
        if now - state.pendingClear < t.clearDuration {
          states := states[key := state];
          return;
        }
        states := states - {key};
        var rec, ok := store.Clear(now, alarm);
        return if ok then [(alarm, Cleared)] else [];
      }
      state := state.(pendingClear := 0);
      states := states[key := state];
      if violation {
        store.Touch(now, alarm);
      }
    }

    /** evaluatePerDNWithRule: one transition for each managed object of the report that has the metric. */
    method EvaluatePerDN(now: int, t: Timing, r: Rule, report: seq<Reading>) returns (events: seq<Event>)
      requires now != 0
      modifies this, store
      ensures var w := TransitionAll(old(View()), now, t, r, report);
              states == w.states && store.records == w.records && events == w.events
    {
      events := [];
      ghost var log: seq<Entry> := [];
      var i := 0;
      while i < |report|
        invariant 0 <= i <= |report|
        invariant TransitionAll(World(states, store.records, events, log), now, t, r, report[i..])
               == TransitionAll(old(View()), now, t, r, report)
      {
        var x := report[i];
        assert report[i..][1..] == report[i + 1..];
        if x.present {
          ghost var w := World(states, store.records, events, log);
          ghost var c := Call(now, x.violation, x.clear);
          var more := Apply(now, t, r, x.moi, x.violation, x.clear, x.fields);
          TransitionFrame(w, t, r, x.moi, c, x.fields);
          events := events + more;
          log := Transition(w, t, r, x.moi, c, x.fields).log;
        }
        i := i + 1;
      }
    }
  }

  /** One managed object in a report: whether the metric is there and finite, and what the thresholds say of it. */
  datatype Reading = Reading(moi: string, present: bool, violation: bool, clear: bool, fields: Fields)

  function TransitionAll(w: World, now: int, t: Timing, r: Rule, report: seq<Reading>): World
    decreases |report|
  {
    if report == [] then w
    else
      var x := report[0];
      TransitionAll(if x.present then Transition(w, t, r, x.moi, Call(now, x.violation, x.clear), x.fields) else w,
                    now, t, r, report[1..])
  }

  // ----- runs

  /** One call of the engine, or whatever other components do to their own records. */
  datatype Op =
    | Evaluate(rule: Rule, moi: string, call: Call, fields: Fields)
    | Foreign(records: Records)

  predicate IsTcaKey(k: Key) {
    PREFIX <= k.component
  }

  ghost predicate Legal(w: World, op: Op) {
    match op
    case Evaluate(_, _, call, _) => call.now != 0
    case Foreign(rs) =>
      forall k | IsTcaKey(k) :: (k in rs <==> k in w.records) && (k in rs ==> rs[k] == w.records[k])
  }

  function Step(timing: Rule -> Timing, w: World, op: Op): World {
    match op
    case Evaluate(rule, moi, call, fields) => Transition(w, timing(rule), rule, moi, call, fields)
    case Foreign(rs) => w.(records := rs)
  }

  /** `w'` is reached from `w` by the operations `ops`, each legal where it happens. */
  ghost predicate Reaches(timing: Rule -> Timing, w: World, ops: seq<Op>, w': World)
    decreases |ops|
  {
    if ops == [] then w' == w
    else Legal(w, ops[0]) && Reaches(timing, Step(timing, w, ops[0]), ops[1..], w')
  }

  function Project(events: seq<Event>, k: Key): seq<Status> {
    if events == [] then []
    else
      var e := events[|events| - 1];
      Project(events[..|events| - 1], k) + if e.0 == k then [e.1] else []
  }

  /** Strictly alternating, starting with a raise, and ending in the present state. */
  predicate Alternates(s: seq<Status>, up: bool) {
    if s == [] then !up
    else s[|s| - 1] == (if up then Active else Cleared) && Alternates(s[..|s| - 1], !up)
  }

  /** Raises and repeated violations of one alarm. */
  function Bumps(log: seq<Entry>, k: Key): nat {
    if log == [] then 0
    else
      var e := log[|log| - 1];
      Bumps(log[..|log| - 1], k) + if e.key == k && (e.action == Raise || e.action == Touch) then 1 else 0
  }

  /** Engine and store agree on one alarm, its events alternate and its count adds up. */
  ghost predicate Agrees(base: Records, w: World, r: Rule, moi: string) {
    var k := AlarmOf(r, moi);
    && (StateOf(w.states, KeyOf(r, moi)).active <==> IsActive(w.records, k))
    && Alternates(Project(w.events, k), IsActive(w.records, k))
    && CountOf(w.records, k) == CountOf(base, k) + Bumps(w.log, k)
  }

  ghost predicate AllAgree(base: Records, w: World) {
    forall r, moi :: Agrees(base, w, r, moi)
  }

  lemma OtherAlarm(r: Rule, moi: string, r': Rule, moi': string)
    requires r != r' || moi != moi'
    ensures AlarmOf(r, moi) != AlarmOf(r', moi') && KeyOf(r, moi) != KeyOf(r', moi')
  {
    CodesAreDistinct(r, r');
    assert moi == (PREFIX + moi)[4..] && moi' == (PREFIX + moi')[4..];
  }

  lemma ProjectAppend(events: seq<Event>, e: Event, k: Key)
    ensures Project(events + [e], k) == Project(events, k) + if e.0 == k then [e.1] else []
  {
    assert (events + [e])[..|events|] == events;
  }

  lemma BumpsAppend(log: seq<Entry>, e: Entry, k: Key)
    ensures Bumps(log + [e], k) == Bumps(log, k) + if e.key == k && (e.action == Raise || e.action == Touch) then 1 else 0
  {
    assert (log + [e])[..|log|] == log;
  }

  lemma AlternatesAppend(s: seq<Status>, up: bool)
    requires Alternates(s, !up)
    ensures Alternates(s + [if up then Active else Cleared], up)
  {
    assert (s + [if up then Active else Cleared])[..|s|] == s;
  }

  /** A raise and a clear flip the state, a touch repeats an active one. */
  lemma NextFlips(t: Timing, s: RuleState, c: Call)
    ensures var (s', action) := Next(t, s, c);
            && (action == Raise ==> !s.active && s'.active)
            && (action == Clear ==> s.active && !s'.active)
            && (action == Touch ==> s.active && s'.active)
            && (action == Quiet ==> s'.active == s.active)
  {}

  lemma PutIsRead(states: States, k: StateKey, s: RuleState)
    ensures StateOf(Put(states, k, s), k) == s
  {}

  lemma RecordMoves(rs: Records, now: int, k: Key, fields: Fields)
    ensures !IsActive(rs, k) ==>
              && UpsertChanges(rs, k, fields) && IsActive(Upserted(rs, now, k, fields), k)
              && CountOf(Upserted(rs, now, k, fields), k) == CountOf(rs, k) + 1
    ensures IsActive(rs, k) ==>
              && !IsActive(ClearedOne(rs, now, k), k) && CountOf(ClearedOne(rs, now, k), k) == CountOf(rs, k)
              && IsActive(Touched(rs, now, k), k) && CountOf(Touched(rs, now, k), k) == CountOf(rs, k) + 1
  {}

  /** A transition keeps the agreement on its own alarm. */
  lemma TransitionAgrees(base: Records, w: World, t: Timing, r: Rule, moi: string, c: Call, fields: Fields)
    requires Agrees(base, w, r, moi)
    ensures Agrees(base, Transition(w, t, r, moi, c, fields), r, moi)
  {
    hide Project, Bumps, Alternates, Next, Put, StateOf, Upserted, UpsertChanges, ClearedOne, Touched, IsActive, CountOf, KeyOf, AlarmOf;
    var k, w' := AlarmOf(r, moi), Transition(w, t, r, moi, c, fields);
    var (s, action) := Next(t, StateOf(w.states, KeyOf(r, moi)), c);
    NextFlips(t, StateOf(w.states, KeyOf(r, moi)), c);
    PutIsRead(w.states, KeyOf(r, moi), s);
    RecordMoves(w.records, c.now, k, fields);
    BumpsAppend(w.log, Entry(k, action), k);
    if action == Raise {
      ProjectAppend(w.events, (k, Active), k);
      AlternatesAppend(Project(w.events, k), true);
    } else if action == Clear {
      ProjectAppend(w.events, (k, Cleared), k);
      AlternatesAppend(Project(w.events, k), false);
    } else {
      assert w'.events == w.events;
    }
  }

  /** A transition leaves every other alarm alone. */
  lemma TransitionElsewhere(base: Records, w: World, t: Timing, r: Rule, moi: string, c: Call, fields: Fields, r': Rule, moi': string)
    requires Agrees(base, w, r', moi') && (r != r' || moi != moi')
    ensures Agrees(base, Transition(w, t, r, moi, c, fields), r', moi')
    ensures StateOf(Transition(w, t, r, moi, c, fields).states, KeyOf(r', moi')) == StateOf(w.states, KeyOf(r', moi'))
  {
    hide Project, Bumps, Alternates, Merge, Code;
    OtherAlarm(r, moi, r', moi');
    var k, k' := AlarmOf(r, moi), AlarmOf(r', moi');
    var action := Next(t, StateOf(w.states, KeyOf(r, moi)), c).1;
    BumpsAppend(w.log, Entry(k, action), k');
    ProjectAppend(w.events, (k, if action == Raise then Active else Cleared), k');
    assert w.events + [] == w.events && Project(w.events, k') + [] == Project(w.events, k');
  }

  lemma StepAgrees(base: Records, timing: Rule -> Timing, w: World, op: Op)
    requires AllAgree(base, w) && Legal(w, op)
    ensures AllAgree(base, Step(timing, w, op))
  {
    hide Transition;
    forall r, moi ensures Agrees(base, Step(timing, w, op), r, moi) {
      assert Agrees(base, w, r, moi);
      match op
      case Evaluate(rule, object', call, fields) =>
        if r == rule && moi == object' {
          TransitionAgrees(base, w, timing(rule), rule, object', call, fields);
        } else {
          TransitionElsewhere(base, w, timing(rule), rule, object', call, fields, r, moi);
        }
      case Foreign(rs) =>
        assert IsTcaKey(AlarmOf(r, moi));
    }
  }

  lemma {:induction false} RunAgrees(base: Records, timing: Rule -> Timing, w: World, ops: seq<Op>, w': World)
    requires AllAgree(base, w) && Reaches(timing, w, ops, w')
    ensures AllAgree(base, w')
    decreases |ops|
  {
    if ops != [] {
      StepAgrees(base, timing, w, ops[0]);
      RunAgrees(base, timing, Step(timing, w, ops[0]), ops[1..], w');
    }
  }

  /**
   Engine and alarm store never disagree. From a store with no active threshold alarm, over every
   run of transitions interleaved with other components' alarms: a rule state is active exactly
   when its record is, the events of each alarm strictly alternate between raise and clear, and
   the count of each record grows by exactly its raises and repeated violations.
   */
  lemma EngineNeverDisagrees(base: Records, timing: Rule -> Timing, ops: seq<Op>, w': World)
    requires forall k | IsTcaKey(k) :: !IsActive(base, k)
    requires Reaches(timing, World(map[], base, [], []), ops, w')
    ensures AllAgree(base, w')
  {
    var w := World(map[], base, [], []);
    forall r, moi ensures Agrees(base, w, r, moi) {
      assert IsTcaKey(AlarmOf(r, moi));
    }
    RunAgrees(base, timing, w, ops, w');
  }

  // ----- a store that was loaded with active alarms

  /** The engine has raised the alarm. */
  predicate Raised(log: seq<Entry>, k: Key) {
    Entry(k, Raise) in log
  }

  /** The record is active when the engine's state is, or when it was from the start and the engine has never raised it. */
  ghost predicate Follows(base: Records, w: World, r: Rule, moi: string) {
    var k := AlarmOf(r, moi);
    && (StateOf(w.states, KeyOf(r, moi)).active ==> Raised(w.log, k))
    && (IsActive(w.records, k) <==> StateOf(w.states, KeyOf(r, moi)).active || (IsActive(base, k) && !Raised(w.log, k)))
    && CountOf(w.records, k) == CountOf(base, k) + Bumps(w.log, k)
  }

  lemma UpsertCounts(rs: Records, now: int, k: Key, fields: Fields)
    ensures IsActive(Upserted(rs, now, k, fields), k) && CountOf(Upserted(rs, now, k, fields), k) == CountOf(rs, k) + 1
  {
    hide Merge;
  }

  lemma TransitionFollows(base: Records, w: World, t: Timing, r: Rule, moi: string, c: Call, fields: Fields)
    requires Follows(base, w, r, moi)
    ensures Follows(base, Transition(w, t, r, moi, c, fields), r, moi)
  {
    hide Bumps, Next, Put, StateOf, Upserted, UpsertChanges, ClearedOne, Touched, IsActive, CountOf, KeyOf, AlarmOf;
    var k := AlarmOf(r, moi);
    var (s, action) := Next(t, StateOf(w.states, KeyOf(r, moi)), c);
    NextFlips(t, StateOf(w.states, KeyOf(r, moi)), c);
    PutIsRead(w.states, KeyOf(r, moi), s);
    RecordMoves(w.records, c.now, k, fields);
    UpsertCounts(w.records, c.now, k, fields);
    BumpsAppend(w.log, Entry(k, action), k);
  }

  lemma TransitionFollowsElsewhere(base: Records, w: World, t: Timing, r: Rule, moi: string, c: Call, fields: Fields, r': Rule, moi': string)
    requires Follows(base, w, r', moi') && (r != r' || moi != moi')
    ensures Follows(base, Transition(w, t, r, moi, c, fields), r', moi')
  {
    hide Bumps, Merge, Code;
    OtherAlarm(r, moi, r', moi');
    BumpsAppend(w.log, Entry(AlarmOf(r, moi), Next(t, StateOf(w.states, KeyOf(r, moi)), c).1), AlarmOf(r', moi'));
  }

  lemma {:induction false} RunFollows(base: Records, timing: Rule -> Timing, w: World, ops: seq<Op>, w': World, r: Rule, moi: string)
    requires Follows(base, w, r, moi) && Reaches(timing, w, ops, w')
    ensures Follows(base, w', r, moi)
    decreases |ops|
  {
    hide Follows, Transition, AlarmOf;
    if ops != [] {
      match ops[0] {
        case Evaluate(rule, object', call, fields) =>
          if r == rule && moi == object' {
            TransitionFollows(base, w, timing(rule), rule, object', call, fields);
          } else {
            TransitionFollowsElsewhere(base, w, timing(rule), rule, object', call, fields, r, moi);
          }
        case Foreign(rs) => ForeignFollows(base, w, rs, r, moi);
      }
      RunFollows(base, timing, Step(timing, w, ops[0]), ops[1..], w', r, moi);
    }
  }

  lemma ForeignFollows(base: Records, w: World, rs: Records, r: Rule, moi: string)
    requires Follows(base, w, r, moi) && Legal(w, Foreign(rs))
    ensures Follows(base, w.(records := rs), r, moi)
  {
    hide Bumps;
    assert IsTcaKey(AlarmOf(r, moi));
  }

  /**
   The store may be loaded with alarms that are active from before a restart, while the engine starts
   idle. Over every run from any records, engine and record agree on an alarm if and only if it was
   not active at the start or the engine has raised it since; otherwise the record stays active and
   is never cleared. The counts add up in any case.
   */
  lemma AgreementAfterRestart(base: Records, timing: Rule -> Timing, ops: seq<Op>, w': World, r: Rule, moi: string)
    requires Reaches(timing, World(map[], base, [], []), ops, w')
    ensures var k := AlarmOf(r, moi);
            && ((StateOf(w'.states, KeyOf(r, moi)).active <==> IsActive(w'.records, k)) <==> !IsActive(base, k) || Raised(w'.log, k))
            && (IsActive(base, k) && !Raised(w'.log, k) ==> IsActive(w'.records, k))
            && CountOf(w'.records, k) == CountOf(base, k) + Bumps(w'.log, k)
  {
    hide Reaches;
    assert Follows(base, World(map[], base, [], []), r, moi);
    RunFollows(base, timing, World(map[], base, [], []), ops, w', r, moi);
  }

  lemma {:induction false} QuietRun(timing: Rule -> Timing, w: World, ops: seq<Op>, w': World)
    requires w.states == map[] && Reaches(timing, w, ops, w')
    requires forall i | 0 <= i < |ops| && ops[i].Evaluate? :: !ops[i].call.violation
    ensures w'.states == map[] && w'.log == w.log
    decreases |ops|
  {
    if ops != [] {
      QuietRun(timing, Step(timing, w, ops[0]), ops[1..], w');
    }
  }

  /** Such an alarm: however often the condition is seen to have cleared, the loaded record stays active. */
  lemma ClearIsMissed(base: Records, timing: Rule -> Timing, ops: seq<Op>, w': World, r: Rule, moi: string)
    requires IsActive(base, AlarmOf(r, moi)) && Reaches(timing, World(map[], base, [], []), ops, w')
    requires forall i | 0 <= i < |ops| && ops[i].Evaluate? :: !ops[i].call.violation
    ensures IsActive(w'.records, AlarmOf(r, moi)) && !StateOf(w'.states, KeyOf(r, moi)).active
  {
    hide Reaches;
    QuietRun(timing, World(map[], base, [], []), ops, w');
    AgreementAfterRestart(base, timing, ops, w', r, moi);
  }

  /** The calls of a run that concern one rule on one managed object. */
  function CallsOn(ops: seq<Op>, r: Rule, moi: string): seq<Call> {
    if ops == [] then []
    else
      var op := ops[|ops| - 1];
      CallsOn(ops[..|ops| - 1], r, moi)
      + if op.Evaluate? && op.rule == r && op.moi == moi then [op.call] else []
  }

  function Run(timing: Rule -> Timing, w: World, ops: seq<Op>): World {
    if ops == [] then w else Step(timing, Run(timing, w, ops[..|ops| - 1]), ops[|ops| - 1])
  }

  lemma {:induction false} StateAfterPrefix(t: Timing, calls: seq<Call>, more: seq<Call>, k: nat)
    requires k <= |calls|
    ensures StateAfter(t, calls + more, k) == StateAfter(t, calls, k)
  {
    if k > 0 {
      StateAfterPrefix(t, calls, more, k - 1);
    }
  }

  /**
   In a run over all rules and objects, the state of one key is what its own calls make of it, so
   `ExactTimeToTrigger` says when each of its alarms is raised and cleared.
   */
  lemma {:induction false} KeyFollowsItsCalls(timing: Rule -> Timing, base: Records, ops: seq<Op>, r: Rule, moi: string)
    ensures var calls := CallsOn(ops, r, moi);
            StateOf(Run(timing, World(map[], base, [], []), ops).states, KeyOf(r, moi)) == StateAfter(timing(r), calls, |calls|)
    decreases |ops|
  {
    hide Step, StateOf, KeyOf, StateAfter;
    if ops != [] {
      var before, op := ops[..|ops| - 1], ops[|ops| - 1];
      KeyFollowsItsCalls(timing, base, before, r, moi);
      var w, calls := Run(timing, World(map[], base, [], []), before), CallsOn(before, r, moi);
      StepFollows(timing, w, op, r, moi);
      if op.Evaluate? && op.rule == r && op.moi == moi {
        StateAfterOne(timing(r), calls, op.call);
      } else {
        assert calls + [] == calls;
      }
    } else {
      StartsIdle(timing(r), base, KeyOf(r, moi));
    }
  }

  lemma StartsIdle(t: Timing, base: Records, k: StateKey)
    ensures StateOf(World(map[], base, [], []).states, k) == StateAfter(t, [], 0)
  {}

  lemma StateAfterOne(t: Timing, calls: seq<Call>, c: Call)
    ensures StateAfter(t, calls + [c], |calls| + 1) == Next(t, StateAfter(t, calls, |calls|), c).0
  {
    hide Next;
    StateAfterPrefix(t, calls, [c], |calls|);
  }

  /** A step moves the state of one key by its own call, if it is one. */
  lemma StepFollows(timing: Rule -> Timing, w: World, op: Op, r: Rule, moi: string)
    ensures StateOf(Step(timing, w, op).states, KeyOf(r, moi)) ==
            if op.Evaluate? && op.rule == r && op.moi == moi
            then Next(timing(r), StateOf(w.states, KeyOf(r, moi)), op.call).0 else StateOf(w.states, KeyOf(r, moi))
  {
    hide Next, Code, Merge;
    if op.Evaluate? && !(op.rule == r && op.moi == moi) {
      OtherAlarm(op.rule, op.moi, r, moi);
    }
  }
}
