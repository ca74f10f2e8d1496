/**
 The event queue between interrupt handlers and the main loop: one producer and one consumer,
 interleaved at every shared read and write.
 */
module EventRing {
  import opened Words

  const CAP: nat := 128

  datatype Event = Event(kind: int, a: int, b: int, c: int)

  // ---------------------------------------------------------------- the micro-step machine

  /** Where events_enqueue is: next computed, head checked, slot written. */
  datatype Producer =
    | PIdle
    | PNext(ev: Event, next: nat)
    | PChecked(ev: Event, next: nat)
    | PWritten(ev: Event, next: nat)

  /** Where events_dequeue is: found non-empty, slot copied. */
  datatype Consumer =
    | CIdle
    | CChecked
    | CCopied(out: Event)

  /** `accepted` and `delivered` are history: completed enqueues and dequeues in order of their last step. */
  datatype Ring = Ring(q: seq<Event>, head: nat, tail: nat, p: Producer, c: Consumer,
                       accepted: seq<Event>, delivered: seq<Event>)

  datatype Move =
    | Enqueue(ev: Event)
    | Produce
    | Dequeue
    | Consume

  function Init(q: seq<Event>): Ring {
    Ring(q, 0, 0, PIdle, CIdle, [], [])
  }

  /** One shared-memory step. A move that does not fit the caller's position does nothing. */
  function Step(r: Ring, m: Move): Ring
    requires |r.q| == CAP && r.head < CAP && r.tail < CAP
  {
    match m
    case Enqueue(ev) => if r.p.PIdle? then r.(p := PNext(ev, (r.tail + 1) % CAP)) else r
    case Produce =>
      (match r.p
       case PIdle => r
       case PNext(ev, next) => r.(p := if next == r.head then PIdle else PChecked(ev, next))
       case PChecked(ev, next) => r.(q := r.q[r.tail := ev], p := PWritten(ev, next))
       case PWritten(ev, next) => r.(tail := next, p := PIdle, accepted := r.accepted + [ev]))
    case Dequeue => if r.c.CIdle? && r.head != r.tail then r.(c := CChecked) else r
    case Consume =>
      match r.c
      case CIdle => r
      case CChecked => r.(c := CCopied(r.q[r.head]))
      case CCopied(out) => r.(head := (r.head + 1) % CAP, c := CIdle, delivered := r.delivered + [out])
  }

  ghost predicate Inv(r: Ring) {
    var a, d := |r.accepted|, |r.delivered|;
    && |r.q| == CAP && r.tail == a % CAP && r.head == d % CAP
    && d <= a <= d + CAP - 1
    && r.delivered == r.accepted[..d]
    && (forall k :: d <= k < a ==> r.q[k % CAP] == r.accepted[k])
    && (r.p.PIdle? || r.p.next == (a + 1) % CAP)
    && (r.p.PChecked? || r.p.PWritten? ==> a - d < CAP - 1)
    && (r.p.PWritten? ==> r.q[a % CAP] == r.p.ev)
    && (!r.c.CIdle? ==> d < a)
    && (r.c.CCopied? ==> r.c.out == r.accepted[d])
  }

  /** Positions less than a lap apart use different slots. */
  lemma SlotsDiffer(j: nat, k: nat)
    requires j < k < j + CAP
    ensures j % CAP != k % CAP
  {
  }

  lemma Successor(k: nat)
    ensures (k % CAP + 1) % CAP == (k + 1) % CAP
  {
  }

  /** The slot the producer may write is never one that holds an event still to be delivered. */
  lemma WriteIsFree(r: Ring)
    requires Inv(r) && r.p.PChecked?
    ensures forall k :: |r.delivered| <= k < |r.accepted| ==> k % CAP != r.tail
    ensures !r.c.CIdle? ==> r.head != r.tail
  {
    var a, d := |r.accepted|, |r.delivered|;
    forall k | d <= k < a
      ensures k % CAP != r.tail
    {
      SlotsDiffer(k, a);
    }
    if !r.c.CIdle? { SlotsDiffer(d, a); }
  }

  lemma StepInv(r: Ring, m: Move)
    requires Inv(r)
    ensures Inv(Step(r, m))
  {
    var a, d := |r.accepted|, |r.delivered|;
    Successor(a);
    Successor(d);
    if m.Produce? {
      ProduceInv(r);
    } else if m.Consume? && r.c.CCopied? {
      assert r.accepted[..d + 1] == r.accepted[..d] + [r.accepted[d]];
    } else if m.Dequeue? && r.head != r.tail {
      assert a != d;
    }
  }

  /** The slot write and the publishing of the new tail. */
  lemma WriteInv(r: Ring)
    requires Inv(r) && r.p.PChecked?
    ensures Inv(Step(r, Produce))
  {
    WriteIsFree(r);
    assert Step(r, Produce).q[|r.accepted| % CAP] == r.p.ev;
  }

  lemma PublishInv(r: Ring)
    requires Inv(r) && r.p.PWritten?
    ensures Inv(Step(r, Produce))
  {
    var a, d, r' := |r.accepted|, |r.delivered|, Step(r, Produce);
    assert r'.accepted[a] == r.p.ev;
    assert r'.accepted[..d] == r.accepted[..d];
  }

  lemma ProduceInv(r: Ring)
    requires Inv(r)
    ensures Inv(Step(r, Produce))
  {
    var a, d := |r.accepted|, |r.delivered|;
    match r.p
    case PIdle =>
    case PNext(ev, next) =>
      if a - d == CAP - 1 { assert (a + 1) % CAP == (d + CAP) % CAP == d % CAP; }
    case PChecked(ev, next) => WriteInv(r);
    case PWritten(ev, next) => PublishInv(r);
  }

  function Run(r: Ring, ms: seq<Move>): Ring
    requires Inv(r)
    decreases |ms|
  {
    if ms == [] then r else StepInv(r, ms[0]); Run(Step(r, ms[0]), ms[1..])
  }

  /**
   Linearizable FIFO: in every interleaving the delivered events are a prefix of the accepted ones, and
   between 0 and 127 events are held.
   */
  lemma {:induction false} EveryInterleaving(q: seq<Event>, ms: seq<Move>)
    requires |q| == CAP
    ensures Inv(Init(q))
    ensures var r := Run(Init(q), ms);
            && r.delivered <= r.accepted
            && |r.accepted| - |r.delivered| <= 127
  {
    RunInv(Init(q), ms);
  }

  lemma {:induction false} RunInv(r: Ring, ms: seq<Move>)
    requires Inv(r)
    ensures Inv(Run(r, ms))
    ensures r.accepted <= Run(r, ms).accepted && r.delivered <= Run(r, ms).delivered
    decreases |ms|
  {
    if ms != [] {
      StepInv(r, ms[0]);
      var r1 := Step(r, ms[0]);
      assert r.accepted <= r1.accepted && r.delivered <= r1.delivered;
      RunInv(r1, ms[1..]);
    }
  }

  /** Tail and head meet when nothing is held, the slot behind the tail and the head when 127 events are. */
  lemma SlotsMeet(a: nat, d: nat)
    requires d <= a <= d + CAP - 1
    ensures (a + 1) % CAP == d % CAP <==> a - d == CAP - 1
    ensures a % CAP == d % CAP <==> a == d
  {
    if d < a { SlotsDiffer(d, a); }
    if a - d < CAP - 1 { SlotsDiffer(d, a + 1); } else { assert (a + 1) % CAP == (d + CAP) % CAP == d % CAP; }
  }

  /** A refused enqueue found the queue with all 127 places taken; a refused dequeue found it empty. */
  lemma RefusalsAreHonest(r: Ring)
    requires Inv(r)
    ensures r.p.PNext? && Step(r, Produce).p.PIdle? <==> r.p.PNext? && |r.accepted| - |r.delivered| == 127
    ensures r.c.CIdle? ==> (Step(r, Dequeue).c.CIdle? <==> r.accepted == r.delivered)
  {
    SlotsMeet(|r.accepted|, |r.delivered|);
    assert r.accepted[..|r.accepted|] == r.accepted;
  }

  // ---------------------------------------------------------------- the calls, uninterrupted

  /** The slots from head up to tail, round the end of the array. */
  function Stored(q: seq<Event>, head: nat, tail: nat): seq<Event>
    requires |q| == CAP && head < CAP && tail < CAP
  {
    if head <= tail then q[head..tail] else q[head..] + q[..tail]
  }

  class Queue {
    const q: array<Event>
    var head: nat
    var tail: nat

    ghost predicate Valid()
      reads this
    {
      q.Length == CAP && head < CAP && tail < CAP
    }

    /** The events held, oldest first. */
    function Contents(): seq<Event>
      requires q.Length == CAP && head < CAP && tail < CAP
      reads this, q
    {
      Stored(q[..], head, tail)
    }

    constructor ()
      ensures Valid() && fresh(q) && Contents() == []
    {
      q := new Event[CAP](_ => Event(0, 0, 0, 0));
      head, tail := 0, 0;
    }

    method Enqueue(ev: Event) returns (code: int)
      requires Valid()
      modifies this`tail, q
      ensures Valid()
      ensures code == if |old(Contents())| == 127 then -1 else 0
      ensures Contents() == if code == 0 then old(Contents()) + [ev] else old(Contents())
    {
      var next := (tail + 1) % CAP;
      assert next == if tail == CAP - 1 then 0 else tail + 1;
      if next == head { return -1; }
      ghost var was := Contents();
      q[tail] := ev;
      assert Contents() == was;
      tail := next;
      assert Contents() == was + [ev];
      return 0;
    }

    /** `wanted` is false for a NULL out-pointer. */
    method Dequeue(wanted: bool) returns (code: int, out: Option<Event>)
      requires Valid()
      modifies this`head
      ensures Valid()
      ensures code == if wanted && old(Contents()) != [] then 0 else -1
      ensures code == 0 ==> out == Some(old(Contents())[0]) && Contents() == old(Contents())[1..]
      ensures code != 0 ==> out == None && Contents() == old(Contents())
    {
      if !wanted { return -1, None; }
      if head == tail { return -1, None; }
      out := Some(q[head]);
      var next := (head + 1) % CAP;
      assert next == if head == CAP - 1 then 0 else head + 1;
      ghost var was := Contents();
      head := next;
      assert Contents() == was[1..];
      return 0, out;
    }
  }
}
