/** The cooperative scheduler: run queue, zombie list and current process, over every run. */
module Scheduling {
  import opened Words

  datatype ProcState = Running | Ready | Blocked | Terminated

  /** A process by the address of its process_t. */
  type Proc = nat

  datatype Sched = Sched(
    queue: seq<Proc>,
    zombies: seq<Proc>,
    current: Option<Proc>,
    state: map<Proc, ProcState>,
    pid: map<Proc, nat>)

  const EMPTY := Sched([], [], None, map[], map[])

  function StateOf(s: Sched, p: Proc): ProcState {
    if p in s.state then s.state[p] else Terminated
  }

  predicate IsReady(s: Sched, p: Proc) {
    StateOf(s, p) == Ready
  }

  predicate Distinct(q: seq<Proc>) {
    forall i, j :: 0 <= i < j < |q| ==> q[i] != q[j]
  }

  /** The position of `p`, or the length when it is absent. */
  function IndexOf(q: seq<Proc>, p: Proc): (i: nat)
    ensures i <= |q|
    ensures i < |q| ==> q[i] == p
    ensures p in q <==> i < |q|
    ensures forall j :: 0 <= j < i ==> q[j] != p
  {
    if q == [] || q[0] == p then 0 else 1 + IndexOf(q[1..], p)
  }

  function Without(q: seq<Proc>, p: Proc): seq<Proc> {
    var i := IndexOf(q, p);
    if i < |q| then q[..i] + q[i + 1..] else q
  }

  // ---------------------------------------------------------------- operations

  /** The members pick_next looks at, in order: everything after `cur`, then what precedes it, but
      nothing at all when `cur` is the tail; the whole queue when `cur` is not on it. */
  function Candidates(q: seq<Proc>, cur: Proc): seq<Proc> {
    var i := IndexOf(q, cur);
    if i == |q| then q
    else if i + 1 == |q| then []
    else q[i + 1..] + q[..i]
  }

  function FirstReady(s: Sched, ps: seq<Proc>): (r: Option<Proc>) {
    if ps == [] then None
    else if IsReady(s, ps[0]) then Some(ps[0])
    else FirstReady(s, ps[1..])
  }

  function PickNext(s: Sched): Option<Proc> {
    if s.queue == [] then None
    else if s.current.None? then Some(s.queue[0])
    else
      var r := FirstReady(s, Candidates(s.queue, s.current.value));
      if r.None? then s.current else r
  }

  /** What is left of the round from position `c` back to position `i`. */
  function Rest(q: seq<Proc>, i: nat, c: nat): seq<Proc>
    requires i <= |q| && c <= |q|
  {
    if i == |q| then q[c..] else if i < c then q[c..] + q[..i] else q[c..i]
  }

  lemma RestStep(q: seq<Proc>, i: nat, c: nat)
    requires i <= |q| && c < |q| && c != i
    ensures Rest(q, i, c) != [] && Rest(q, i, c)[0] == q[c]
    ensures var c' := if c + 1 < |q| then c + 1 else 0;
            if c' == i || (i == |q| && c' == 0) then Rest(q, i, c)[1..] == []
            else Rest(q, i, c)[1..] == Rest(q, i, c')
  {
  }

  function Add(s: Sched, p: Proc): Sched {
    s.(queue := s.queue + [p])
  }

  function RemoveCurrent(s: Sched): Sched {
    match s.current
    case None => s
    case Some(c) =>
      var s1 := s.(state := s.state[c := Terminated]);
      if c !in s.queue then s1
      else s1.(queue := Without(s.queue, c), zombies := [c] + s.zombies)
  }

  /** Giving the CPU to what pick_next chose. */
  function SwitchTo(s: Sched, next: Option<Proc>): Sched {
    if next.None? || next == s.current then s
    else
      var left := match s.current
        case None => s.state
        case Some(prev) => if StateOf(s, prev) == Terminated then s.state else s.state[prev := Ready];
      s.(state := left[next.value := Running], current := next)
  }

  function Yield(s: Sched): Sched {
    SwitchTo(s, PickNext(s))
  }

  function Exit(s: Sched): Sched {
    if s.current.None? then s else Yield(RemoveCurrent(s))
  }

  predicate HasPid(s: Sched, p: Proc, pid: nat) {
    p in s.pid && s.pid[p] == pid
  }

  function FirstWithPid(s: Sched, ps: seq<Proc>, pid: nat): Option<Proc> {
    if ps == [] then None
    else if HasPid(s, ps[0], pid) then Some(ps[0])
    else FirstWithPid(s, ps[1..], pid)
  }

  function FindByPid(s: Sched, pid: nat): Option<Proc> {
    var r := FirstWithPid(s, s.queue, pid);
    if r.Some? then r
    else if s.current.Some? && HasPid(s, s.current.value, pid) then s.current
    else FirstWithPid(s, s.zombies, pid)
  }

  function Kill(s: Sched, pid: nat): (Sched, int) {
    match FindByPid(s, pid)
    case None => (s, -1)
    case Some(p) =>
      if s.current == Some(p) then (Yield(RemoveCurrent(s)), 0)
      else if p !in s.queue then (s, -1)
      else (s.(queue := Without(s.queue, p), state := s.state[p := Terminated]), 0)
  }

  /** A new process, already READY, joins the queue. */
  function Spawn(s: Sched, p: Proc, pid: nat): Sched {
    Add(s.(state := s.state[p := Ready], pid := s.pid[p := pid]), p)
  }

  // ---------------------------------------------------------------- the invariant

  ghost predicate Inv(s: Sched) {
    && Distinct(s.queue) && Distinct(s.zombies)
    && (forall p :: p in s.queue ==> p !in s.zombies)
    && (forall p :: p in s.queue ==> p in s.state && s.state[p] == if s.current == Some(p) then Running else Ready)
    && (forall p :: p in s.zombies ==> p in s.state && s.state[p] == Terminated)
    && (forall p :: p in s.state && p !in s.queue ==> s.state[p] == Terminated)
    && (s.current.Some? ==> s.current.value in s.queue || s.current.value in s.zombies)
    && s.pid.Keys == s.state.Keys
    && (forall p, q :: p in s.pid && q in s.pid && s.pid[p] == s.pid[q] ==> p == q)
  }

  lemma WithoutMember(q: seq<Proc>, p: Proc)
    requires Distinct(q)
    ensures Distinct(Without(q, p)) && p !in Without(q, p)
    ensures forall x :: x in Without(q, p) <==> x in q && x != p
    ensures |Without(q, p)| == if p in q then |q| - 1 else |q|
  {
    var i := IndexOf(q, p);
    if i < |q| {
      var w := Without(q, p);
      forall x | x in q && x != p
        ensures x in w
      {
        var j :| 0 <= j < |q| && q[j] == x;
        assert w[if j < i then j else j - 1] == x;
      }
    }
  }

  lemma {:induction false} FirstReadyIs(s: Sched, ps: seq<Proc>)
    ensures var r := FirstReady(s, ps);
            if r.None? then forall p :: p in ps ==> !IsReady(s, p)
            else exists k :: 0 <= k < |ps| && ps[k] == r.value && IsReady(s, ps[k]) && (forall j :: 0 <= j < k ==> !IsReady(s, ps[j]))
  {
    if ps != [] && !IsReady(s, ps[0]) {
      FirstReadyIs(s, ps[1..]);
      var r := FirstReady(s, ps[1..]);
      if r.Some? {
        var k :| 0 <= k < |ps[1..]| && ps[1..][k] == r.value && IsReady(s, ps[1..][k]) && (forall j :: 0 <= j < k ==> !IsReady(s, ps[1..][j]));
        forall j | 0 <= j < k + 1
          ensures !IsReady(s, ps[j])
        {
          if j > 0 { assert ps[j] == ps[1..][j - 1]; }
        }
        assert ps[k + 1] == r.value;
      }
    }
  }

  /** Under the invariant pick_next returns the successor in the queue, the tail itself at the tail,
      and the head when the caller is not on the queue. */
  lemma PickNextInv(s: Sched)
    requires Inv(s)
    ensures PickNext(s) ==
            if s.queue == [] then None
            else if s.current.None? then Some(s.queue[0])
            else
              var i := IndexOf(s.queue, s.current.value);
              if i == |s.queue| then Some(s.queue[0])
              else if i + 1 == |s.queue| then s.current
              else Some(s.queue[i + 1])
  {
    if s.queue != [] && s.current.Some? {
      var i := IndexOf(s.queue, s.current.value);
      var cs := Candidates(s.queue, s.current.value);
      if cs != [] {
        assert cs[0] == if i == |s.queue| then s.queue[0] else s.queue[i + 1];
        assert IsReady(s, cs[0]);
      }
    }
  }

  /** Where pick_next starts behind current, what it finds there, and current itself for want of anything else. */
  lemma PickFrom(s: Sched, c: Proc, i: nat)
    requires s.queue != [] && s.current == Some(c) && i == IndexOf(s.queue, c)
    ensures var start := if i == |s.queue| then 0 else i + 1;
            var f := if start == |s.queue| then None else FirstReady(s, Rest(s.queue, i, start));
            PickNext(s) == if f.None? then Some(c) else f
  {
    assert i == |s.queue| ==> s.queue[0..] == s.queue;
  }

  /** The caller's side of termination of pick_next. */
  ghost predicate Pickable(s: Sched) {
    s.queue == [] || s.current.None? || s.current.value in s.queue || exists p :: p in s.queue && IsReady(s, p)
  }

  lemma PickableInv(s: Sched)
    requires Inv(s)
    ensures Pickable(s)
  {
    if s.queue != [] && s.current.Some? && s.current.value !in s.queue {
      assert IsReady(s, s.queue[0]);
    }
  }

  /** Terminating twice is terminating once. */
  lemma RemoveCurrentMarked(s: Sched, c: Proc)
    requires s.current == Some(c)
    ensures RemoveCurrent(s.(state := s.state[c := Terminated])) == RemoveCurrent(s)
  {
    assert s.state[c := Terminated][c := Terminated] == s.state[c := Terminated];
  }

  /** Giving the CPU to a queued process. */
  lemma SwitchInv(s: Sched, next: Option<Proc>)
    requires Inv(s) && (next.Some? ==> next.value in s.queue || next == s.current)
    ensures Inv(SwitchTo(s, next))
    ensures SwitchTo(s, next).queue == s.queue && SwitchTo(s, next).zombies == s.zombies && SwitchTo(s, next).pid == s.pid
    ensures next.Some? ==> SwitchTo(s, next).current == next
    ensures next.None? ==> SwitchTo(s, next) == s
  {
  }

  lemma YieldInv(s: Sched)
    requires Inv(s)
    ensures Inv(Yield(s))
    ensures Yield(s).queue == s.queue && Yield(s).zombies == s.zombies && Yield(s).pid == s.pid
    ensures s.queue != [] ==> Yield(s).current.Some? && Yield(s).current.value in s.queue
    ensures s.queue == [] ==> Yield(s) == s
  {
    hide Inv, PickNext, SwitchTo;
    PickNextInv(s);
    SwitchInv(s, PickNext(s));
  }

  lemma RemoveCurrentInv(s: Sched)
    requires Inv(s)
    ensures Inv(RemoveCurrent(s))
    ensures s.current.Some? ==> s.current.value in RemoveCurrent(s).zombies && s.current.value !in RemoveCurrent(s).queue
  {
    hide Without, IndexOf, Distinct;
    if s.current.Some? {
      WithoutMember(s.queue, s.current.value);
      if s.current.value in s.queue { DistinctMore(s.zombies, s.current.value); }
    }
  }

  lemma DistinctMore(q: seq<Proc>, p: Proc)
    requires Distinct(q) && p !in q
    ensures Distinct([p] + q)
  {
  }

  lemma {:induction false} FirstWithPidIs(s: Sched, ps: seq<Proc>, pid: nat)
    ensures var r := FirstWithPid(s, ps, pid);
            if r.Some? then r.value in ps && HasPid(s, r.value, pid) else forall p :: p in ps ==> !HasPid(s, p, pid)
  {
    if ps != [] {
      FirstWithPidIs(s, ps[1..], pid);
      assert ps == [ps[0]] + ps[1..];
    }
  }

  /** Lookup finds exactly the queued process, the current process or the zombie with that pid. */
  lemma FindByPidIs(s: Sched, pid: nat)
    requires Inv(s)
    ensures forall p: Proc :: FindByPid(s, pid) == Some(p) <==> HasPid(s, p, pid) && (p in s.queue || p in s.zombies)
  {
    FirstWithPidIs(s, s.queue, pid);
    FirstWithPidIs(s, s.zombies, pid);
  }

  lemma KillInv(s: Sched, pid: nat)
    requires Inv(s)
    ensures Inv(Kill(s, pid).0)
    ensures exists newer :: Kill(s, pid).0.zombies == newer + s.zombies
    ensures Kill(s, pid).0.pid == s.pid
  {
    var (s', code) := Kill(s, pid);
    match FindByPid(s, pid)
    case None =>
      assert s'.zombies == [] + s.zombies;
    case Some(p) =>
      if s.current == Some(p) {
        RemoveCurrentInv(s);
        YieldInv(RemoveCurrent(s));
        assert s'.zombies == (if p in s.queue then [p] else []) + s.zombies;
      } else {
        if p in s.queue { DropInv(s, p); }
        assert s'.zombies == [] + s.zombies;
      }
  }

  /** Taking a member other than the current one off the queue. */
  lemma DropInv(s: Sched, p: Proc)
    requires Inv(s) && p in s.queue && s.current != Some(p)
    ensures var s' := s.(queue := Without(s.queue, p), state := s.state[p := Terminated]);
            Inv(s') && p !in s'.queue && p !in s'.zombies && StateOf(s', p) == Terminated
  {
    WithoutMember(s.queue, p);
  }

  /** Kill succeeds exactly on queued processes and on the current one; when it fails nothing has changed. */
  lemma KillCode(s: Sched, pid: nat)
    requires Inv(s)
    ensures Kill(s, pid).1 == 0 <==> exists p :: HasPid(s, p, pid) && (p in s.queue || s.current == Some(p))
    ensures Kill(s, pid).1 == 0 || Kill(s, pid) == (s, -1)
  {
    FindByPidIs(s, pid);
  }

  /** A process killed while it is not running is on neither list afterwards and cannot be found again. */
  lemma KillOther(s: Sched, pid: nat, p: Proc)
    requires Inv(s) && HasPid(s, p, pid) && p in s.queue && s.current != Some(p)
    ensures var s' := Kill(s, pid).0;
            p !in s'.queue && p !in s'.zombies && StateOf(s', p) == Terminated && FindByPid(s', pid) == None
  {
    FindByPidIs(s, pid);
    DropInv(s, p);
    FindByPidIs(Kill(s, pid).0, pid);
  }

  /** After a successful kill the pid is found again exactly when it was the current process's. */
  lemma KillFound(s: Sched, pid: nat)
    requires Inv(s) && Kill(s, pid).1 == 0
    ensures FindByPid(Kill(s, pid).0, pid).Some? <==> s.current.Some? && HasPid(s, s.current.value, pid)
  {
    FindByPidIs(s, pid);
    var p := FindByPid(s, pid).value;
    if s.current == Some(p) {
      KillCurrentFound(s, pid, p);
    } else {
      KillOther(s, pid, p);
    }
  }

  lemma KillCurrentFound(s: Sched, pid: nat, c: Proc)
    requires Inv(s) && s.current == Some(c) && FindByPid(s, pid) == Some(c)
    ensures FindByPid(Kill(s, pid).0, pid) == Some(c)
  {
    var s1 := RemoveCurrent(s);
    FindByPidIs(s, pid);
    RemoveCurrentMarked(s, c);
    RemoveCurrentInv(s);
    YieldInv(s1);
    FindByPidIs(Yield(s1), pid);
  }

  // ---------------------------------------------------------------- what each operation leaves

  /** `q'` is `q` with the member at position `i` taken out. */
  predicate TakenAt(q: seq<Proc>, i: nat, q': seq<Proc>) {
    i < |q| && |q'| == |q| - 1 && q'[..i] == q[..i] && q'[i..] == q[i + 1..]
  }

  /** No state but those of `a` and `b` has changed. */
  predicate OnlyStates(s: Sched, s': Sched, a: Option<Proc>, b: Option<Proc>) {
    && s'.state.Keys == s.state.Keys && s'.pid == s.pid
    && forall r :: r in s.state && a != Some(r) && b != Some(r) ==> s'.state[r] == s.state[r]
  }

  lemma WithoutAt(q: seq<Proc>, p: Proc, i: nat)
    requires Distinct(q) && i < |q| && q[i] == p
    ensures TakenAt(q, i, Without(q, p))
  {
    assert IndexOf(q, p) == i;
  }

  /** Who has the CPU after a yield: the successor, the tail itself, or the head for a caller off the queue. */
  lemma YieldLeaves(s: Sched)
    requires Inv(s)
    ensures var s' := Yield(s);
            && Inv(s') && s'.queue == s.queue && s'.zombies == s.zombies
            && OnlyStates(s, s', s.current, s'.current)
            && (s.queue == [] ==> s' == s)
            && (s.queue != [] && (s.current.None? || s.current.value !in s.queue) ==> s'.current == Some(s.queue[0]))
            && (forall i :: 0 <= i < |s.queue| && s.current == Some(s.queue[i]) ==>
                  s'.current == Some(s.queue[if i + 1 < |s.queue| then i + 1 else i]))
  {
    YieldInv(s);
    PickNextInv(s);
    SwitchStates(s, PickNext(s));
    forall i | 0 <= i < |s.queue| && s.current == Some(s.queue[i])
      ensures IndexOf(s.queue, s.queue[i]) == i
    {
      WithoutAt(s.queue, s.queue[i], i);
    }
    hide Inv, PickNext, SwitchTo, OnlyStates, IndexOf;
  }

  lemma SwitchStates(s: Sched, next: Option<Proc>)
    requires Inv(s) && (next.Some? ==> next.value in s.queue || next == s.current)
    ensures OnlyStates(s, SwitchTo(s, next), s.current, SwitchTo(s, next).current)
    ensures SwitchTo(s, next).current == if next.None? then s.current else next
  {
  }

  /** A kill of a queued process that has not got the CPU takes it off the queue and touches nothing else. */
  lemma KillQueued(s: Sched, pid: nat, p: Proc, i: nat)
    requires Inv(s) && HasPid(s, p, pid) && i < |s.queue| && s.queue[i] == p && s.current != Some(p)
    ensures var (s', code) := Kill(s, pid);
            && code == 0 && s'.current == s.current && s'.zombies == s.zombies
            && TakenAt(s.queue, i, s'.queue)
            && OnlyStates(s, s', Some(p), None) && StateOf(s', p) == Terminated
  {
    FindByPidIs(s, pid);
    WithoutAt(s.queue, p, i);
  }

  /** The end of the current process: to the head of the zombies, and the CPU to the head of what is left. */
  predicate Ended(s: Sched, s': Sched, c: Proc, i: nat)
    requires i < |s.queue|
  {
    && s'.zombies == [c] + s.zombies && TakenAt(s.queue, i, s'.queue)
    && s'.current == Some(if s'.queue == [] then c else s'.queue[0])
    && StateOf(s', c) == Terminated && OnlyStates(s, s', Some(c), s'.current)
  }

  lemma RemovedLeaves(s: Sched, c: Proc, i: nat)
    requires Inv(s) && s.current == Some(c) && i < |s.queue| && s.queue[i] == c
    ensures var s1 := RemoveCurrent(s);
            && Inv(s1) && s1.zombies == [c] + s.zombies && TakenAt(s.queue, i, s1.queue)
            && s1.current == Some(c) && c !in s1.queue && c in s1.state && OnlyStates(s, s1, Some(c), None)
  {
    RemoveCurrentInv(s);
    WithoutAt(s.queue, c, i);
    hide Without, Distinct, IndexOf;
  }

  lemma EndLeaves(s: Sched, c: Proc, i: nat)
    requires Inv(s) && s.current == Some(c) && i < |s.queue| && s.queue[i] == c
    ensures Ended(s, Yield(RemoveCurrent(s)), c, i)
  {
    RemovedLeaves(s, c, i);
    var s1 := RemoveCurrent(s);
    YieldLeaves(s1);
    YieldInv(s1);
    hide RemoveCurrent, Yield;
    assert c !in Yield(s1).queue;
  }

  /** A kill of the process that has the CPU ends it; if it had been ended before, the CPU goes to the head. */
  lemma KillCurrent(s: Sched, pid: nat, c: Proc)
    requires Inv(s) && HasPid(s, c, pid) && s.current == Some(c)
    ensures Kill(s, pid).1 == 0
    ensures forall i :: 0 <= i < |s.queue| && s.queue[i] == c ==> Ended(s, Kill(s, pid).0, c, i)
    ensures c !in s.queue ==> Kill(s, pid).0 == Yield(s)
  {
    FindByPidIs(s, pid);
    assert FindByPid(s, pid) == Some(c);
    forall i | 0 <= i < |s.queue| && s.queue[i] == c
      ensures Ended(s, Kill(s, pid).0, c, i)
    {
      EndLeaves(s, c, i);
    }
    if c !in s.queue { RemovedAlready(s, c); }
  }

  lemma RemovedAlready(s: Sched, c: Proc)
    requires Inv(s) && s.current == Some(c) && c !in s.queue
    ensures RemoveCurrent(s) == s
  {
    assert s.state[c := Terminated] == s.state;
  }

  /** So does its own exit. */
  lemma ExitLeaves(s: Sched, c: Proc)
    requires Inv(s) && s.current == Some(c)
    ensures forall i :: 0 <= i < |s.queue| && s.queue[i] == c ==> Ended(s, Exit(s), c, i)
    ensures c !in s.queue ==> Exit(s) == Yield(s)
  {
    forall i | 0 <= i < |s.queue| && s.queue[i] == c
      ensures Ended(s, Exit(s), c, i)
    {
      EndLeaves(s, c, i);
    }
    if c !in s.queue { RemovedAlready(s, c); }
  }
}
