/** Whole calls on the event ring: what an enqueue and a dequeue achieve, whatever the other side does meanwhile. */
module EventCalls {
  import opened EventRing

  predicate ByConsumer(ms: seq<Move>) {
    forall i :: 0 <= i < |ms| ==> ms[i].Dequeue? || ms[i].Consume?
  }

  predicate ByProducer(ms: seq<Move>) {
    forall i :: 0 <= i < |ms| ==> ms[i].Enqueue? || ms[i].Produce?
  }

  /** The events accepted and not delivered, oldest first. */
  function Held(r: Ring): seq<Event>
    requires Inv(r)
  {
    r.accepted[|r.delivered|..]
  }

  lemma {:induction false} RunAppend(r: Ring, a: seq<Move>, b: seq<Move>)
    requires Inv(r)
    ensures Inv(Run(r, a)) && Run(r, a + b) == Run(Run(r, a), b)
    decreases |a|
  {
    RunInv(r, a);
    if a == [] {
      assert a + b == b;
    } else {
      StepInv(r, a[0]);
      assert (a + b)[1..] == a[1..] + b;
      RunAppend(Step(r, a[0]), a[1..], b);
    }
  }

  /** The consumer leaves the producer's side alone. */
  lemma {:induction false} ConsumerLeaves(r: Ring, ms: seq<Move>)
    requires Inv(r) && ByConsumer(ms)
    ensures var r' := Run(r, ms); Inv(r') && r'.p == r.p && r'.accepted == r.accepted
    decreases |ms|
  {
    if ms != [] {
      StepInv(r, ms[0]);
      hide Inv;
      ConsumerLeaves(Step(r, ms[0]), ms[1..]);
    }
  }

  /** And the producer the consumer's. */
  lemma {:induction false} ProducerLeaves(r: Ring, ms: seq<Move>)
    requires Inv(r) && ByProducer(ms)
    ensures var r' := Run(r, ms); Inv(r') && r'.c == r.c && r'.delivered == r.delivered && r.accepted <= r'.accepted
    decreases |ms|
  {
    if ms != [] {
      StepInv(r, ms[0]);
      assert r.accepted <= Step(r, ms[0]).accepted;
      hide Inv;
      ProducerLeaves(Step(r, ms[0]), ms[1..]);
    }
  }

  // ---------------------------------------------------------------- an enqueue among consumer moves

  /** One move of the producer and then any of the consumer's. */
  lemma ProducerMove(r: Ring, m: Move, after: seq<Move>)
    requires Inv(r) && ByConsumer(after)
    ensures Inv(Step(r, m)) && Inv(Run(r, [m] + after))
    ensures Run(r, [m] + after).p == Step(r, m).p && Run(r, [m] + after).accepted == Step(r, m).accepted
  {
    StepInv(r, m);
    hide Inv;
    assert ([m] + after)[1..] == after;
    ConsumerLeaves(Step(r, m), after);
  }

  /** The head check is met by exactly 127 held events. */
  lemma CheckIs(r: Ring)
    requires Inv(r) && r.p.PNext?
    ensures Step(r, Produce).accepted == r.accepted
    ensures Step(r, Produce).p == if |Held(r)| == 127 then PIdle else PChecked(r.p.ev, r.p.next)
  {
    RefusalsAreHonest(r);
  }

  /** The moves of one enqueue with the consumer moves `c0` to `c3` in between and behind. */
  function EnqueueCall(ev: Event, c0: seq<Move>, c1: seq<Move>, c2: seq<Move>, c3: seq<Move>): seq<Move> {
    ([Enqueue(ev)] + c0) + (([Produce] + c1) + (([Produce] + c2) + ([Produce] + c3)))
  }

  /**
   An enqueue accepts exactly its event if fewer than 127 events were held when it looked at the head, and
   nothing otherwise; afterwards the producer is idle again.
   */
  lemma EnqueueAccepts(r: Ring, ev: Event, c0: seq<Move>, c1: seq<Move>, c2: seq<Move>, c3: seq<Move>)
    requires Inv(r) && r.p.PIdle? && ByConsumer(c0) && ByConsumer(c1) && ByConsumer(c2) && ByConsumer(c3)
    ensures var (check, r') := (Run(r, [Enqueue(ev)] + c0), Run(r, EnqueueCall(ev, c0, c1, c2, c3)));
            && Inv(check) && Inv(r') && r'.p == PIdle
            && r'.accepted == r.accepted + if |Held(check)| < 127 then [ev] else []
  {
    hide Inv, Run, ByConsumer, Held;
    var m0, m1, m2, m3 := [Enqueue(ev)] + c0, [Produce] + c1, [Produce] + c2, [Produce] + c3;
    ProducerMove(r, Enqueue(ev), c0);
    var r0 := Run(r, m0);
    FewHeld(r0);
    CheckIs(r0);
    ProducerMove(r0, Produce, c1);
    var r1 := Run(r0, m1);
    ProducerMove(r1, Produce, c2);
    var r2 := Run(r1, m2);
    ProducerMove(r2, Produce, c3);
    RunAppend(r, m0, m1 + (m2 + m3));
    RunAppend(r0, m1, m2 + m3);
    RunAppend(r1, m2, m3);
  }

  lemma FewHeld(r: Ring)
    requires Inv(r)
    ensures |Held(r)| <= 127
  {
  }

  // ---------------------------------------------------------------- a dequeue among producer moves

  lemma ConsumerMove(r: Ring, m: Move, after: seq<Move>)
    requires Inv(r) && ByProducer(after)
    ensures Inv(Step(r, m)) && Inv(Run(r, [m] + after))
    ensures var r' := Run(r, [m] + after);
            r'.c == Step(r, m).c && r'.delivered == Step(r, m).delivered && Step(r, m).accepted <= r'.accepted
  {
    StepInv(r, m);
    hide Inv;
    assert ([m] + after)[1..] == after;
    ProducerLeaves(Step(r, m), after);
  }

  lemma CopyIs(r: Ring)
    requires Inv(r) && r.c.CChecked?
    ensures Held(r) != [] && Step(r, Consume).c == CCopied(Held(r)[0])
    ensures Step(r, Consume).delivered == r.delivered && Step(r, Consume).accepted == r.accepted
  {
  }

  function DequeueCall(p0: seq<Move>, p1: seq<Move>, p2: seq<Move>): seq<Move> {
    ([Dequeue] + p0) + (([Consume] + p1) + ([Consume] + p2))
  }

  /** A dequeue delivers exactly the oldest event held when it began, and nothing if there was none. */
  lemma DequeueDelivers(r: Ring, p0: seq<Move>, p1: seq<Move>, p2: seq<Move>)
    requires Inv(r) && r.c.CIdle? && ByProducer(p0) && ByProducer(p1) && ByProducer(p2)
    ensures var r' := Run(r, DequeueCall(p0, p1, p2));
            && Inv(r') && r'.c == CIdle
            && r'.delivered == r.delivered + Held(r)[..if Held(r) == [] then 0 else 1]
  {
    var m0, m1, m2 := [Dequeue] + p0, [Consume] + p1, [Consume] + p2;
    RefusalsAreHonest(r);
    HeldNone(r);
    hide Inv, Run, ByProducer, Held;
    ConsumerMove(r, Dequeue, p0);
    var r0 := Run(r, m0);
    if r0.c.CChecked? {
      CopyIs(r0);
      SameOldest(r, r0);
    }
    ConsumerMove(r0, Consume, p1);
    var r1 := Run(r0, m1);
    ConsumerMove(r1, Consume, p2);
    RunAppend(r, m0, m1 + m2);
    RunAppend(r0, m1, m2);
  }

  lemma HeldNone(r: Ring)
    requires Inv(r)
    ensures Held(r) == [] <==> r.accepted == r.delivered
  {
    assert r.accepted[..|r.accepted|] == r.accepted;
  }

  /** The oldest event held stays the oldest while only more are accepted. */
  lemma SameOldest(r: Ring, r': Ring)
    requires Inv(r) && Inv(r') && Held(r) != [] && r'.delivered == r.delivered && r.accepted <= r'.accepted
    ensures Held(r') != [] && Held(r')[0] == Held(r)[0] && Held(r)[..1] == [Held(r)[0]]
  {
  }

  // ---------------------------------------------------------------- against the calls in one piece

  /** The events held are those between head and tail, as the calls of `Queue` see them. */
  lemma HeldIs(r: Ring)
    requires Inv(r)
    ensures Stored(r.q, r.head, r.tail) == Held(r)
  {
    var d, n := |r.delivered|, |Held(r)|;
    var s := Stored(r.q, r.head, r.tail);
    Distance(|r.accepted|, d);
    forall i | 0 <= i < n
      ensures i < |s| && s[i] == Held(r)[i]
    {
      PlaceOf(d, i);
      assert r.q[(d + i) % CAP] == r.accepted[d + i];
    }
  }

  lemma Distance(a: nat, d: nat)
    requires d <= a <= d + CAP - 1
    ensures a - d == if d % CAP <= a % CAP then a % CAP - d % CAP else CAP - d % CAP + a % CAP
  {
    var k, l := a / CAP, d / CAP;
    assert a == k * CAP + a % CAP && d == l * CAP + d % CAP;
  }

  lemma PlaceOf(d: nat, i: nat)
    requires i < CAP
    ensures (d + i) % CAP == if d % CAP + i < CAP then d % CAP + i else d % CAP + i - CAP
  {
    var l := d / CAP;
    assert d + i == l * CAP + (d % CAP + i);
  }

  /** Alone, the micro-steps of an enqueue do to the ring what `Queue.Enqueue` does. */
  lemma EnqueueAlone(r: Ring, ev: Event)
    requires Inv(r) && r.p.PIdle?
    ensures var r' := Run(r, EnqueueCall(ev, [], [], [], []));
            && Inv(r') && r'.head == r.head
            && var (was, now) := (Stored(r.q, r.head, r.tail), Stored(r'.q, r'.head, r'.tail));
               now == if |was| == 127 then was else was + [ev]
  {
    EnqueueAccepts(r, ev, [], [], [], []);
    var r' := Run(r, EnqueueCall(ev, [], [], [], []));
    ProducerMoves(ev);
    ProducerLeaves(r, EnqueueCall(ev, [], [], [], []));
    HeldIs(r);
    HeldIs(r');
    SameHeldAtCheck(r, ev);
    SameHead(r, r');
    hide Inv, Run, EnqueueCall, Stored;
  }

  lemma ProducerMoves(ev: Event)
    ensures ByProducer(EnqueueCall(ev, [], [], [], []))
  {
  }

  lemma SameHead(r: Ring, r': Ring)
    requires Inv(r) && Inv(r') && r'.delivered == r.delivered
    ensures r'.head == r.head
  {
  }

  lemma SameHeldAtCheck(r: Ring, ev: Event)
    requires Inv(r) && r.p.PIdle?
    ensures var check := Run(r, [Enqueue(ev)] + []); Inv(check) && Held(check) == Held(r)
  {
    ProducerMove(r, Enqueue(ev), []);
    assert Run(Step(r, Enqueue(ev)), []) == Step(r, Enqueue(ev));
    assert ([Enqueue(ev)] + [])[1..] == [];
  }

  /** And those of a dequeue what `Queue.Dequeue` does. */
  lemma DequeueAlone(r: Ring)
    requires Inv(r) && r.c.CIdle?
    ensures var r' := Run(r, DequeueCall([], [], []));
            && Inv(r') && r'.tail == r.tail
            && var (was, now) := (Stored(r.q, r.head, r.tail), Stored(r'.q, r'.head, r'.tail));
               if was == [] then now == [] && r'.delivered == r.delivered
               else now == was[1..] && r'.delivered == r.delivered + [was[0]]
  {
    DequeueDelivers(r, [], [], []);
    var r' := Run(r, DequeueCall([], [], []));
    assert ByConsumer(DequeueCall([], [], []));
    ConsumerLeaves(r, DequeueCall([], [], []));
    HeldIs(r);
    HeldIs(r');
    SameTail(r, r');
    HeldNone(r);
    hide Run, DequeueCall, Stored;
  }

  lemma SameTail(r: Ring, r': Ring)
    requires Inv(r) && Inv(r') && r'.accepted == r.accepted
    ensures r'.tail == r.tail
  {
  }
}
