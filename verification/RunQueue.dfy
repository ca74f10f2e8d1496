/** The scheduler's linked lists, changed in place, against the sequences of Scheduling. */
module RunQueue {
  import opened Words
  import opened Scheduling

  class Process {
    const addr: Proc
    const pid: nat
    var state: ProcState
    var next: Process?

    constructor (addr: Proc, pid: nat)
      ensures this.addr == addr && this.pid == pid && state == Ready && next == null
    {
      this.addr, this.pid, state, next := addr, pid, Ready, null;
    }
  }

  function Addrs(ps: seq<Process>): (a: seq<Proc>)
    ensures |a| == |ps| && forall i :: 0 <= i < |ps| ==> a[i] == ps[i].addr
  {
    seq(|ps|, i requires 0 <= i < |ps| => ps[i].addr)
  }

  lemma AddrsWithout(ps: seq<Process>, i: nat)
    requires i < |ps| && Distinct(Addrs(ps))
    ensures Without(Addrs(ps), ps[i].addr) == Addrs(ps[..i] + ps[i + 1..])
  {
    assert Addrs(ps)[i] == ps[i].addr;
    assert IndexOf(Addrs(ps), ps[i].addr) == i;
    assert Addrs(ps[..i] + ps[i + 1..]) == Addrs(ps)[..i] + Addrs(ps)[i + 1..];
  }

  /** The node at position `i`, NULL past the end. */
  function At(ps: seq<Process>, i: nat): Process? {
    if i < |ps| then ps[i] else null
  }

  ghost predicate NoRepeats(ps: seq<Process>) {
    forall i, j :: 0 <= i < j < |ps| ==> ps[i] != ps[j]
  }

  lemma PickIdle(s: Sched)
    requires s.queue == [] || s.current.None?
    ensures Scheduling.PickNext(s) == if s.queue == [] then None else Some(s.queue[0])
  {
  }

  lemma SomeReady(s: Sched)
    requires Pickable(s) && s.queue != [] && s.current.Some? && s.current.value !in s.queue
    ensures FirstReady(s, s.queue).Some?
  {
    FirstReadyIs(s, s.queue);
  }

  lemma NotTwice(ps: seq<Process>, i: nat)
    requires NoRepeats(ps) && i < |ps|
    ensures ps[i] !in ps[..i] + ps[i + 1..]
  {
  }

  class Scheduler {
    var runqueueHead: Process?
    var current: Process?
    var zombieHead: Process?

    ghost var procs: set<Process>
    ghost var queue: seq<Process>
    ghost var zombies: seq<Process>
    ghost var byAddr: map<Proc, Process>
    ghost var model: Sched

    ghost predicate Linked(ps: seq<Process>, head: Process?)
      requires forall p :: p in ps ==> p in procs
      reads this`procs, procs`next
    {
      head == At(ps, 0) && forall i {:trigger ps[i].next} :: 0 <= i < |ps| ==> ps[i].next == At(ps, i + 1)
    }

    /** The two lists are what they seem. */
    ghost predicate Lists()
      reads this`runqueueHead, this`zombieHead, this`procs, this`queue, this`zombies, procs`next
    {
      && (forall p :: p in queue ==> p in procs && p !in zombies)
      && (forall p :: p in zombies ==> p in procs)
      && Linked(queue, runqueueHead) && Linked(zombies, zombieHead)
      && NoRepeats(queue) && NoRepeats(zombies)
    }

    /** The states and pids in `model` are those of the processes. */
    ghost predicate States()
      reads this`procs, this`model, procs`state
    {
      && (forall p :: p in procs ==> p.addr in model.state && model.state[p.addr] == p.state)
      && (forall p :: p in procs ==> p.addr in model.pid && model.pid[p.addr] == p.pid)
    }

    ghost predicate Names()
      reads this`procs, this`queue, this`zombies, this`model, this`current, this`byAddr
    {
      && (forall p :: p in procs ==> p.addr in byAddr && byAddr[p.addr] == p)
      && (current != null ==> current in procs)
      && model.queue == Addrs(queue) && model.zombies == Addrs(zombies)
      && model.current == (if current == null then None else Some(current.addr))
    }

    /** `model` describes the lists and every process ever added. */
    ghost predicate Valid()
      reads this, procs
    {
      Lists() && States() && Names()
    }

    constructor ()
      ensures Valid() && model == EMPTY && procs == {}
    {
      runqueueHead, current, zombieHead := null, null, null;
      procs, queue, zombies, byAddr, model := {}, [], [], map[], EMPTY;
    }

    lemma Positions()
      requires Valid()
      ensures Distinct(model.queue) && Distinct(model.zombies)
      ensures forall p :: p in procs ==> (p in queue <==> p.addr in model.queue)
      ensures forall i :: 0 <= i < |queue| ==> IndexOf(model.queue, queue[i].addr) == i
    {
      forall p | p in procs && p.addr in model.queue
        ensures p in queue
      {
        var i := IndexOf(model.queue, p.addr);
        assert queue[i].addr == p.addr;
      }
      forall i | 0 <= i < |queue|
        ensures IndexOf(model.queue, queue[i].addr) == i
      {
        var j := IndexOf(model.queue, queue[i].addr);
        assert model.queue[i] == queue[i].addr && model.queue[j] == queue[i].addr;
      }
    }

    /** scheduler_add. */
    method Append(p: Process)
      requires Lists() && p !in procs
      modifies this`runqueueHead, this`procs, this`queue, procs`next, p`next
      ensures Lists() && queue == old(queue) + [p] && procs == old(procs) + {p}
    {
      p.next := null;
      if runqueueHead == null {
        runqueueHead := p;
      } else {
        var it := runqueueHead;
        ghost var i := 0;
        while it.next != null
          invariant 0 <= i < |queue| && it == queue[i]
          decreases |queue| - i
        {
          it := it.next;
          i := i + 1;
        }
        it.next := p;
      }
      procs, queue := procs + {p}, queue + [p];
    }

    /** A process that has just been made joins the queue. */
    method Add(p: Process)
      requires Valid() && p !in procs && p.state == Ready
      requires p.addr !in byAddr
      modifies this`runqueueHead, this`procs, this`queue, this`byAddr, this`model, procs`next, p`next
      ensures Valid() && model == Spawn(old(model), p.addr, p.pid)
      ensures procs == old(procs) + {p} && byAddr == old(byAddr)[p.addr := p]
    {
      hide Lists;
      Append(p);
      byAddr := byAddr[p.addr := p];
      assert Addrs(queue) == model.queue + [p.addr];
      model := Spawn(model, p.addr, p.pid);
    }

    /** Walks the queue up to `p`; `prev` is the node before it. */
    method Locate(p: Process) returns (prev: Process?, it: Process?, ghost i: nat)
      requires Lists()
      ensures i <= |queue| && it == At(queue, i) && (it != null ==> it == p)
      ensures prev == if i == 0 then null else queue[i - 1]
      ensures forall j :: 0 <= j < i ==> queue[j] != p
    {
      prev, it, i := null, runqueueHead, 0;
      while it != null
        invariant i <= |queue| && it == At(queue, i)
        invariant prev == if i == 0 then null else queue[i - 1]
        invariant forall j :: 0 <= j < i ==> queue[j] != p
        decreases |queue| - i
      {
        if it == p { break; }
        prev := it;
        it := it.next;
        i := i + 1;
      }
    }

    /** The two pointer writes that take a node out, leaving its own link as it was. */
    method Snip(prev: Process?, it: Process, ghost i: nat)
      requires Lists() && i < |queue| && it == queue[i] && prev == if i == 0 then null else queue[i - 1]
      modifies this`runqueueHead, this`queue, procs`next
      ensures Lists() && queue == old(queue)[..i] + old(queue)[i + 1..]
    {
      if prev == null { runqueueHead := it.next; } else { prev.next := it.next; }
      queue := queue[..i] + queue[i + 1..];
    }

    lemma TakenOut(i: nat)
      requires Valid() && i < |queue|
      ensures var rest := queue[..i] + queue[i + 1..];
              queue[i] !in rest && Addrs(rest) == Without(model.queue, queue[i].addr)
    {
      NotTwice(queue, i);
      Positions();
      AddrsWithout(queue, i);
    }

    method Unlink(prev: Process?, it: Process, ghost i: nat)
      requires Valid() && i < |queue| && it == queue[i] && prev == if i == 0 then null else queue[i - 1]
      modifies this`runqueueHead, this`queue, this`model, procs`next
      ensures Valid() && model == old(model).(queue := Without(old(model).queue, it.addr))
      ensures queue == old(queue)[..i] + old(queue)[i + 1..] && it !in queue
    {
      hide Lists, NoRepeats, Addrs, Without;
      TakenOut(i);
      Snip(prev, it, i);
      model := model.(queue := Addrs(queue));
    }

    method SetState(p: Process, st: ProcState)
      requires Valid() && p in procs
      modifies p`state, this`model
      ensures Valid() && model == old(model).(state := old(model).state[p.addr := st])
    {
      p.state := st;
      model := model.(state := model.state[p.addr := st]);
    }

    method Bury(p: Process)
      requires Valid() && p in procs && p !in queue && p !in zombies
      modifies this`zombieHead, this`zombies, this`model, p`next
      ensures Valid() && model == old(model).(zombies := [p.addr] + old(model).zombies)
    {
      p.next := zombieHead;
      zombieHead := p;
      zombies := [p] + zombies;
      model := model.(zombies := [p.addr] + model.zombies);
      assert model.zombies == Addrs(zombies);
    }

    /** From the queue, if it is there, to the front of the zombies. */
    method MoveToZombies(p: Process)
      requires Valid() && p in procs
      modifies this`runqueueHead, this`zombieHead, this`queue, this`zombies, this`model, procs`next
      ensures Valid()
      ensures var s := old(model);
              model == if p.addr in s.queue then s.(queue := Without(s.queue, p.addr), zombies := [p.addr] + s.zombies) else s
    {
      Positions();
      var prev, it, i := Locate(p);
      if it == null { return; }
      Unlink(prev, it, i);
      Bury(it);
    }

    method RemoveCurrent()
      requires Valid()
      modifies this`runqueueHead, this`zombieHead, this`queue, this`zombies, this`model, procs`next, procs`state
      ensures Valid() && model == Scheduling.RemoveCurrent(old(model))
    {
      if current == null { return; }
      SetState(current, Terminated);
      MoveToZombies(current);
    }

    method FindByPid(pid: nat) returns (r: Process?)
      requires Valid()
      ensures r != null ==> r in procs
      ensures Scheduling.FindByPid(model, pid) == if r == null then None else Some(r.addr)
    {
      var it := runqueueHead;
      ghost var i := 0;
      while it != null
        invariant 0 <= i <= |queue|
        invariant it == At(queue, i)
        invariant FirstWithPid(model, model.queue, pid) == FirstWithPid(model, model.queue[i..], pid)
        decreases |queue| - i
      {
        if it.pid == pid { return it; }
        it := it.next;
        i := i + 1;
      }
      if current != null && current.pid == pid { return current; }
      it := zombieHead;
      i := 0;
      while it != null
        invariant 0 <= i <= |zombies|
        invariant it == At(zombies, i)
        invariant FirstWithPid(model, model.zombies, pid) == FirstWithPid(model, model.zombies[i..], pid)
        decreases |zombies| - i
      {
        if it.pid == pid { return it; }
        it := it.next;
        i := i + 1;
      }
      return null;
    }

    lemma Heads()
      requires Valid()
      ensures runqueueHead == At(queue, 0) && (forall p :: p in queue ==> p in procs)
      ensures forall i {:trigger queue[i].next} :: 0 <= i < |queue| ==> queue[i].next == At(queue, i + 1)
    {
    }

    lemma QueueIs()
      requires Valid()
      ensures |model.queue| == |queue| && (forall i :: 0 <= i < |queue| ==> model.queue[i] == queue[i].addr)
      ensures model.current == if current == null then None else Some(current.addr)
      ensures current != null ==> current in procs
    {
    }

    lemma IndexIs(i: nat)
      requires Valid() && current != null && i <= |queue| && (i < |queue| ==> queue[i] == current)
      requires forall j :: 0 <= j < i ==> queue[j] != current
      ensures i == IndexOf(model.queue, current.addr)
      ensures i == |queue| ==> current.addr !in model.queue
    {
      Positions();
      hide Lists, States;
      if i == |queue| { assert current !in queue; }
    }

    method PickNext() returns (r: Process?)
      requires Valid() && Pickable(model)
      ensures r != null ==> r in procs
      ensures Scheduling.PickNext(model) == if r == null then None else Some(r.addr)
    {
      hide Lists, States, Names, Scheduling.PickNext, FirstReady, Pickable;
      Positions();
      Heads();
      QueueIs();
      if runqueueHead == null {
        PickIdle(model);
        return null;
      }
      if current == null {
        PickIdle(model);
        return runqueueHead;
      }
      var _, it, i := Locate(current);
      IndexIs(i);
      PickFrom(model, current.addr, i);
      if i == |queue| { SomeReady(model); }
      var cand := if it != null then it.next else runqueueHead;
      r := Scan(it, cand, i, if it == null then 0 else i + 1);
    }

    /** The second loop of pick_next. */
    method Scan(it: Process?, first: Process?, ghost i: nat, ghost start: nat) returns (r: Process?)
      requires Valid() && current != null && i <= |queue| && start <= |queue|
      requires it == At(queue, i) && (it != null ==> it == current)
      requires first == At(queue, start) && start == if i == |queue| then 0 else i + 1
      requires i == |queue| ==> FirstReady(model, model.queue).Some?
      ensures r != null && r in procs
      ensures var f := if start == |queue| then None else FirstReady(model, Rest(model.queue, i, start));
              r.addr == if f.None? then current.addr else f.value
    {
      ghost var q := model.queue;
      ghost var c: nat := start;
      var cand := first;
      while cand != null && cand.state != Ready
        invariant c <= |queue| && cand == At(queue, c)
        invariant cand == null ==> start == |queue|
        invariant cand != null ==>
                    c != i && start < |queue| && FirstReady(model, Rest(q, i, start)) == FirstReady(model, Rest(q, i, c))
        decreases if cand == null then 0 else |Rest(q, i, c)|
      {
        RestStep(q, i, c);
        cand := if cand.next != null then cand.next else runqueueHead;
        c := if c + 1 < |queue| then c + 1 else 0;
        if cand == it { return current; }
      }
      if cand == null || cand.state != Ready { return current; }
      RestStep(q, i, c);
      return cand;
    }

    /** What scheduler_yield does with its choice, up to the context switch. */
    method Switch(next: Process?)
      requires Valid() && (next != null ==> next in procs)
      modifies this`current, this`model, procs`state
      ensures Valid() && model == SwitchTo(old(model), if next == null then None else Some(next.addr))
    {
      hide Lists;
      if next == null || next == current { return; }
      ghost var before := model;
      if current == null {
        next.state := Running;
        current := next;
      } else {
        var prev := current;
        if prev.state != Terminated { prev.state := Ready; }
        current := next;
        current.state := Running;
      }
      model := SwitchTo(before, Some(next.addr));
    }

    method Yield()
      requires Valid() && Pickable(model)
      modifies this`current, this`model, procs`state
      ensures Valid() && model == Scheduling.Yield(old(model))
    {
      var next := PickNext();
      Switch(next);
    }

    /** The shared end of kill and exit: terminate the current process, unlink it, give up the CPU. */
    method Finish()
      requires Valid() && current != null && Pickable(Scheduling.RemoveCurrent(model))
      modifies this`runqueueHead, this`zombieHead, this`current, this`queue, this`zombies, this`model, procs`next, procs`state
      ensures Valid()
      ensures model == Scheduling.Exit(old(model))
    {
      RemoveCurrentMarked(model, current.addr);
      SetState(current, Terminated);
      RemoveCurrent();
      Yield();
    }

    /** Out of the queue, but onto no other list. */
    method Drop(p: Process) returns (code: int)
      requires Valid() && p in procs
      modifies this`runqueueHead, this`queue, this`model, procs`next, procs`state
      ensures Valid()
      ensures var s := old(model);
              (model, code) == if p.addr !in s.queue then (s, -1)
                               else (s.(queue := Without(s.queue, p.addr), state := s.state[p.addr := Terminated]), 0)
    {
      Positions();
      var prev, it, i := Locate(p);
      if it == null { return -1; }
      Unlink(prev, it, i);
      SetState(it, Terminated);
      return 0;
    }

    lemma CurrentIs()
      requires Valid()
      ensures model.current == (if current == null then None else Some(current.addr))
      ensures forall p, q :: p in procs && q in procs && p.addr == q.addr ==> p == q
      ensures current != null ==> current in procs
      ensures forall p :: p in procs ==> (p in queue <==> p.addr in model.queue)
    {
      forall p | p in procs
        ensures p in queue <==> p.addr in model.queue
      {
        if p in queue {
          var i :| 0 <= i < |queue| && queue[i] == p;
          assert model.queue[i] == p.addr;
        }
        if p.addr in model.queue {
          var i :| 0 <= i < |model.queue| && model.queue[i] == p.addr;
          assert queue[i].addr == p.addr && queue[i] in procs;
        }
      }
    }

    method Kill(pid: nat) returns (code: int)
      requires Valid() && Inv(model)
      modifies this`runqueueHead, this`zombieHead, this`current, this`queue, this`zombies, this`model, procs`next, procs`state
      ensures Valid()
      ensures (model, code) == Scheduling.Kill(old(model), pid)
    {
      hide Valid, Lists, States, Inv, SwitchTo;
      CurrentIs();
      var p := FindByPid(pid);
      if p == null { return -1; }
      if p == current {
        RemoveCurrentInv(model);
        PickableInv(Scheduling.RemoveCurrent(model));
        Finish();
        return 0;
      }
      code := Drop(p);
    }

    /** process_exit_current. */
    method Exit()
      requires Valid() && Inv(model)
      modifies this`runqueueHead, this`zombieHead, this`current, this`queue, this`zombies, this`model, procs`next, procs`state
      ensures Valid()
      ensures model == Scheduling.Exit(old(model))
    {
      if current == null { return; }
      RemoveCurrentInv(model);
      PickableInv(Scheduling.RemoveCurrent(model));
      Finish();
    }
  }
}
