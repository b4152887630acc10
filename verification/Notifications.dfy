/**
 The bounded queue of alarm notifications. The queue keeps its messages in one buffer that it
 shifts in place; over every run each message is drained, dropped by overflow, or still queued.
 */
module Notifications {

  const DEFAULT_CAPACITY: nat := 1024
  const DEFAULT_BATCH: nat := 100

  /** `eventTime` zero means unset. */
  datatype Notification = Notification(id: nat, eventTime: int, payload: string)

  datatype Queue = Queue(nextID: nat, capacity: nat, messages: seq<Notification>)

  function Stamp(msg: Notification, id: nat, now: int): Notification {
    Notification(id, if msg.eventTime == 0 then now else msg.eventTime, msg.payload)
  }

  /** The last `n` elements, or all of them. */
  function LastOf<T>(s: seq<T>, n: nat): seq<T> {
    if |s| > n then s[|s| - n..] else s
  }

  function Appended(q: Queue, msg: Notification, now: int): Queue {
    if msg.payload == [] then q
    else
      var all := q.messages + [Stamp(msg, q.nextID + 1, now)];
      Queue(q.nextID + 1, q.capacity, LastOf(all, q.capacity))
  }

  function BatchSize(q: Queue, max: int): nat {
    var n := if max <= 0 then DEFAULT_BATCH else max;
    if n > |q.messages| then |q.messages| else n
  }

  function Drained(q: Queue, max: int): Queue {
    q.(messages := q.messages[BatchSize(q, max)..])
  }

  class NotificationQueue {
    const capacity: nat
    var nextID: nat
    var buffer: array<Notification>
    var len: nat

    ghost predicate Valid()
      reads this, buffer
    {
      0 < capacity && buffer.Length == capacity + 1 && len <= capacity
    }

    ghost function View(): Queue
      reads this, buffer
      requires Valid()
    {
      Queue(nextID, capacity, buffer[..len])
    }

    constructor (limit: int)
      ensures Valid() && fresh(buffer)
      ensures View() == Queue(0, if limit <= 0 then DEFAULT_CAPACITY else limit, [])
    {
      capacity := if limit <= 0 then DEFAULT_CAPACITY else limit;
      nextID, len := 0, 0;
      buffer := new Notification[(if limit <= 0 then DEFAULT_CAPACITY else limit) + 1];
    }

    /** copy(messages, messages[from:]), in place. */
    method ShiftLeft(from: nat, count: nat)
      requires from + count <= buffer.Length
      modifies buffer
      ensures buffer[..count] == old(buffer[from..from + count])
    {
      ghost var was := buffer[..];
      var i := 0;
      while i < count
        invariant 0 <= i <= count
        invariant buffer[..i] == was[from..from + i]
        invariant buffer[i..] == was[i..]
      {
        assert buffer[from + i] == buffer[i..][from] == was[from + i];
        buffer[i] := buffer[from + i];
        i := i + 1;
        assert was[from..from + i] == was[from..from + i - 1] + [was[from + i - 1]];
        assert was[i..] == was[i - 1..][1..];
      }
    }

    method Put(msg: Notification)
      requires len < buffer.Length
      modifies this`len, buffer
      ensures len == old(len) + 1 && buffer[..len] == old(buffer[..len]) + [msg]
    {
      buffer[len] := msg;
      len := len + 1;
    }

    /** Drops what is over the capacity from the front. */
    method KeepNewest()
      requires capacity < len <= buffer.Length
      modifies this`len, buffer
      ensures len == capacity && buffer[..len] == old(buffer[..len][len - capacity..])
    {
      assert buffer[len - capacity..len] == buffer[..len][len - capacity..];
      ShiftLeft(len - capacity, capacity);
      len := capacity;
    }

    method Append(msg: Notification, now: int)
      requires Valid()
      modifies this`nextID, this`len, buffer
      ensures Valid()
      ensures View() == Appended(old(View()), msg, now)
    {
      if msg.payload == [] {
        return;
      }
      hide Stamp;
      ghost var was := buffer[..len];
      nextID := nextID + 1;
      Put(Stamp(msg, nextID, now));
      ghost var all := buffer[..len];
      assert all == was + [Stamp(msg, nextID, now)];
      if len > capacity {
        KeepNewest();
      }
      assert buffer[..len] == LastOf(all, capacity);
    }

    method Drain(max: int) returns (out: seq<Notification>)
      requires Valid()
      modifies this`len, buffer
      ensures Valid()
      ensures out == old(View()).messages[..BatchSize(old(View()), max)]
      ensures View() == Drained(old(View()), max)
    {
      var n: nat := if max <= 0 then DEFAULT_BATCH else max;
      if len == 0 {
        return [];
      }
      if n > len {
        n := len;
      }
      out := buffer[..n];
      assert out == buffer[..len][..n];
      assert buffer[n..len] == buffer[..len][n..];
      ShiftLeft(n, len - n);
      len := len - n;
    }
  }

  // ----- runs

  datatype Op = Append(msg: Notification, now: int) | Drain(max: int)

  /** A run so far: the queue, every message accepted, every message handed out, every message lost. */
  datatype Ledger = Ledger(queue: Queue, accepted: seq<Notification>, drained: seq<Notification>, dropped: seq<Notification>)

  function Step(l: Ledger, op: Op): Ledger {
    match op
    case Append(msg, now) =>
      var q := Appended(l.queue, msg, now);
      if msg.payload == [] then l
      else
        var stamped := Stamp(msg, q.nextID, now);
        Ledger(q, l.accepted + [stamped], l.drained,
               l.dropped + (l.queue.messages + [stamped])[..|l.queue.messages| + 1 - |q.messages|])
    case Drain(max) =>
      Ledger(Drained(l.queue, max), l.accepted, l.drained + l.queue.messages[..BatchSize(l.queue, max)], l.dropped)
  }

  function Run(l: Ledger, ops: seq<Op>): Ledger
    decreases |ops|
  {
    if ops == [] then l else Run(Step(l, ops[0]), ops[1..])
  }

  function Start(capacity: nat): Ledger {
    Ledger(Queue(0, capacity, []), [], [], [])
  }

  /** `part` is a subsequence of `accepted` in increasing order of number, below `bound`. */
  ghost predicate InOrder(part: seq<Notification>, accepted: seq<Notification>, bound: int) {
    && (forall i | 0 <= i < |part| :: 1 <= part[i].id < bound && part[i].id <= |accepted| && accepted[part[i].id - 1] == part[i])
    && forall i, j | 0 <= i < j < |part| :: part[i].id < part[j].id
  }

  ghost predicate Has(part: seq<Notification>, id: int) {
    exists i | 0 <= i < |part| :: part[i].id == id
  }

  /**
   The invariant of every run: numbers are given out consecutively; the queue is exactly the
   last part of what was accepted, within capacity; and every earlier number was either drained
   or dropped, never both, each list in order of number.
   */
  ghost predicate Consistent(l: Ledger) {
    var q := l.queue;
    var first := q.nextID - |q.messages| + 1;
    && q.nextID == |l.accepted|
    && |q.messages| <= q.capacity && |q.messages| <= q.nextID
    && (forall i | 0 <= i < |l.accepted| :: l.accepted[i].id == i + 1)
    && q.messages == l.accepted[|l.accepted| - |q.messages|..]
    && InOrder(l.drained, l.accepted, first) && InOrder(l.dropped, l.accepted, first)
    && forall id | 1 <= id < first :: Has(l.drained, id) != Has(l.dropped, id)
  }

  /** Moving the first `n` queued messages to the end of a list keeps that list in order. */
  lemma MoveOut(part: seq<Notification>, accepted: seq<Notification>, moved: seq<Notification>, first: int)
    requires InOrder(part, accepted, first) && 1 <= first && first - 1 + |moved| <= |accepted|
    requires forall i | 0 <= i < |accepted| :: accepted[i].id == i + 1
    requires moved == accepted[first - 1..first - 1 + |moved|]
    ensures InOrder(part + moved, accepted, first + |moved|)
    ensures forall id :: Has(part + moved, id) <==> Has(part, id) || first <= id < first + |moved|
  {
    MovedInOrder(part, accepted, moved, first);
    MovedNumbers(part, accepted, moved, first);
  }

  lemma MovedInOrder(part: seq<Notification>, accepted: seq<Notification>, moved: seq<Notification>, first: int)
    requires InOrder(part, accepted, first) && 1 <= first && first - 1 + |moved| <= |accepted|
    requires forall i | 0 <= i < |accepted| :: accepted[i].id == i + 1
    requires moved == accepted[first - 1..first - 1 + |moved|]
    ensures InOrder(part + moved, accepted, first + |moved|)
  {
    var all := part + moved;
    forall i | 0 <= i < |all|
      ensures 1 <= all[i].id < first + |moved| && all[i].id <= |accepted| && accepted[all[i].id - 1] == all[i]
      ensures i >= |part| ==> all[i].id == first + i - |part|
    {
      if i >= |part| {
        assert all[i] == moved[i - |part|] == accepted[first - 1 + i - |part|];
      } else {
        assert all[i] == part[i];
      }
    }
    forall i, j | 0 <= i < j < |all| ensures all[i].id < all[j].id {
      assert i < |part| ==> all[i] == part[i];
      assert j < |part| ==> all[j] == part[j];
    }
  }

  lemma MovedNumbers(part: seq<Notification>, accepted: seq<Notification>, moved: seq<Notification>, first: int)
    requires 1 <= first && first - 1 + |moved| <= |accepted| && forall i | 0 <= i < |accepted| :: accepted[i].id == i + 1
    requires moved == accepted[first - 1..first - 1 + |moved|]
    ensures forall id :: Has(part + moved, id) <==> Has(part, id) || first <= id < first + |moved|
  {
    var all := part + moved;
    assert forall i | 0 <= i < |moved| :: moved[i] == accepted[first - 1 + i] && all[|part| + i] == moved[i];
    forall id ensures Has(all, id) <==> Has(part, id) || first <= id < first + |moved| {
      if Has(part, id) {
        var i :| 0 <= i < |part| && part[i].id == id;
        assert all[i].id == id;
      } else if first <= id < first + |moved| {
        assert all[|part| + id - first].id == id;
      }
    }
  }

  lemma InOrderGrows(part: seq<Notification>, accepted: seq<Notification>, more: seq<Notification>, b: int, b': int)
    requires InOrder(part, accepted, b) && b <= b'
    ensures InOrder(part, accepted + more, b')
  {}

  lemma StampNumber(msg: Notification, id: nat, now: int)
    ensures Stamp(msg, id, now).id == id
  {}

  lemma AppendIsConsistent(l: Ledger, msg: Notification, now: int)
    requires Consistent(l) && l.queue.capacity > 0 && msg.payload != []
    ensures Consistent(Step(l, Append(msg, now)))
  {
    hide InOrder, Has, Stamp;
    StampNumber(msg, l.queue.nextID + 1, now);
    var q, l' := l.queue, Step(l, Append(msg, now));
    var first := q.nextID - |q.messages| + 1;
    var stamped := Stamp(msg, q.nextID + 1, now);
    var gone := (q.messages + [stamped])[..|q.messages| + 1 - |l'.queue.messages|];
    InOrderGrows(l.drained, l.accepted, [stamped], first, first + |gone|);
    InOrderGrows(l.dropped, l.accepted, [stamped], first, first);
    assert q.messages + [stamped] == l'.accepted[first - 1..];
    assert gone == l'.accepted[first - 1..first - 1 + |gone|];
    MoveOut(l.dropped, l'.accepted, gone, first);
    forall id ensures Has(l.drained, id) ==> id < first {
      NumbersBelow(l.drained, l.accepted, first, id);
    }
  }

  lemma DrainIsConsistent(l: Ledger, max: int)
    requires Consistent(l)
    ensures Consistent(Step(l, Drain(max)))
  {
    hide InOrder, Has;
    var q, l' := l.queue, Step(l, Drain(max));
    var first := q.nextID - |q.messages| + 1;
    var gone := q.messages[..BatchSize(q, max)];
    assert gone == l.accepted[first - 1..first - 1 + |gone|];
    MoveOut(l.drained, l.accepted, gone, first);
    InOrderGrows(l.dropped, l.accepted, [], first, first + |gone|);
    assert l.accepted + [] == l.accepted;
    forall id ensures Has(l.dropped, id) ==> id < first {
      NumbersBelow(l.dropped, l.accepted, first, id);
    }
    assert l'.queue.messages == l.accepted[|l.accepted| - |l'.queue.messages|..];
  }

  lemma StepIsConsistent(l: Ledger, op: Op)
    requires Consistent(l) && l.queue.capacity > 0
    ensures Consistent(Step(l, op)) && Step(l, op).queue.capacity == l.queue.capacity
  {
    match op
    case Append(msg, now) =>
      if msg.payload != [] {
        AppendIsConsistent(l, msg, now);
      }
    case Drain(max) =>
      DrainIsConsistent(l, max);
  }

  /** Every run of appends and drains from an empty queue is consistent. */
  lemma {:induction false} RunIsConsistent(l: Ledger, ops: seq<Op>)
    requires Consistent(l) && l.queue.capacity > 0
    ensures Consistent(Run(l, ops))
    decreases |ops|
  {
    if ops != [] {
      StepIsConsistent(l, ops[0]);
      RunIsConsistent(Step(l, ops[0]), ops[1..]);
    }
  }

  /**
   Conservation: after any run from an empty queue, each number handed out belongs to exactly one
   of the drained, the dropped and the queued messages.
   */
  lemma EachMessageOnce(capacity: nat, ops: seq<Op>, id: int)
    requires capacity > 0
    ensures var l := Run(Start(capacity), ops);
            && Consistent(l)
            && (1 <= id <= l.queue.nextID ==>
                  (if Has(l.drained, id) then 1 else 0) + (if Has(l.dropped, id) then 1 else 0)
                  + (if Has(l.queue.messages, id) then 1 else 0) == 1)
  {
    hide Run, Consistent, Has;
    StartIsConsistent(capacity);
    RunIsConsistent(Start(capacity), ops);
    if 1 <= id <= Run(Start(capacity), ops).queue.nextID {
      OneListEach(Run(Start(capacity), ops), id);
    }
  }

  lemma StartIsConsistent(capacity: nat)
    ensures Consistent(Start(capacity)) && Start(capacity).queue.capacity == capacity
  {}

  lemma OneListEach(l: Ledger, id: int)
    requires Consistent(l) && 1 <= id <= l.queue.nextID
    ensures (if Has(l.drained, id) then 1 else 0) + (if Has(l.dropped, id) then 1 else 0)
            + (if Has(l.queue.messages, id) then 1 else 0) == 1
  {
    hide Has;
    var first := l.queue.nextID - |l.queue.messages| + 1;
    QueuedNumbers(l, id);
    NumbersBelow(l.drained, l.accepted, first, id);
    NumbersBelow(l.dropped, l.accepted, first, id);
  }

  lemma QueuedNumbers(l: Ledger, id: int)
    requires Consistent(l)
    ensures Has(l.queue.messages, id) <==> l.queue.nextID - |l.queue.messages| + 1 <= id <= l.queue.nextID
  {
    var q := l.queue;
    var first := q.nextID - |q.messages| + 1;
    assert forall i | 0 <= i < |q.messages| :: q.messages[i].id == first + i;
    if first <= id <= q.nextID {
      assert q.messages[id - first].id == id;
    }
  }

  lemma NumbersBelow(part: seq<Notification>, accepted: seq<Notification>, bound: int, id: int)
    requires InOrder(part, accepted, bound)
    ensures Has(part, id) ==> id < bound
  {}
}
