/** Whole runs of the scheduler: safety, liveness, the exact reach of round robin, and pid supply. */
module SchedulerRuns {
  import opened Words
  import opened Scheduling
  import Heap
  import Paging

  // ---------------------------------------------------------------- process creation and its memory

  const PROC_STRUCT_SIZE: nat := 2424
  const STACK_SIZE: nat := 16 * 1024

  /** The kernel state that process_create and the scheduler share. */
  datatype Kernel = Kernel(sched: Sched, heap: Heap.State, nextPid: nat)

  /** The heap traffic of vmm_create_address_space. */
  function SpaceHeap(h: Heap.State): Heap.State {
    var (h1, r) := Heap.Kmalloc(h, Paging.AS_STRUCT_SIZE);
    if r.None? then h1 else Heap.Kmalloc(h1, PAGE).0
  }

  /** process_create with a non-NULL entry, as far as memory, pids and scheduling go. */
  function Create(k: Kernel): (Kernel, Option<Proc>) {
    var (h1, p) := Heap.Kmalloc(k.heap, PROC_STRUCT_SIZE);
    if p.None? then (k.(heap := h1), None)
    else
      var (h2, stack) := Heap.Kmalloc(h1, STACK_SIZE);
      if stack.None? then (k.(heap := h2), None)
      else (Kernel(Spawn(k.sched, p.value, k.nextPid), SpaceHeap(h2), (k.nextPid + 1) % TWO32), p)
  }

  datatype Op =
    | DoCreate
    | DoYield
    | DoExit
    | DoKill(pid: nat)

  function Step(k: Kernel, op: Op): Kernel {
    match op
    case DoCreate => Create(k).0
    case DoYield => k.(sched := Yield(k.sched))
    case DoExit => k.(sched := Exit(k.sched))
    case DoKill(pid) => k.(sched := Kill(k.sched, pid).0)
  }

  function Run(k: Kernel, ops: seq<Op>): Kernel
    decreases |ops|
  {
    if ops == [] then k else Run(Step(k, ops[0]), ops[1..])
  }

  /** Boot: no process yet, and whatever else was allocated before. */
  function Boot(kernelEnd: nat, ptr: nat): Kernel {
    Kernel(EMPTY, Heap.State(kernelEnd, ptr, kernelEnd + Heap.KERNEL_HEAP_SIZE), 1)
  }

  /** Bytes that every process takes for good. */
  const PER_PROCESS: nat := PROC_STRUCT_SIZE + STACK_SIZE

  /** Every process lies below the heap pointer, and the pids given out have been paid for in memory. */
  ghost predicate Supply(h: Heap.State, nextPid: nat, pid: map<Proc, nat>) {
    && Heap.Valid(h)
    && h.limit == h.kernelEnd + Heap.KERNEL_HEAP_SIZE < TWO64 - 0x1_0000
    && h.kernelEnd <= h.ptr
    && (forall p :: p in pid ==> p < h.ptr && 1 <= pid[p] < nextPid)
    && 1 <= nextPid
    && h.kernelEnd + (nextPid - 1) * PER_PROCESS <= h.ptr
  }

  ghost predicate KernelInv(k: Kernel) {
    Inv(k.sched) && Supply(k.heap, k.nextPid, k.sched.pid)
  }

  lemma SpaceHeapGrows(h: Heap.State)
    requires Heap.Valid(h) && h.limit < TWO64 - 0x1_0000
    ensures var h' := SpaceHeap(h); Heap.Valid(h') && h.ptr <= h'.ptr && h'.limit == h.limit && h'.kernelEnd == h.kernelEnd
  {
    Heap.KmallocGrants(h, Paging.AS_STRUCT_SIZE);
    Heap.KmallocGrants(Heap.Kmalloc(h, Paging.AS_STRUCT_SIZE).0, PAGE);
  }

  lemma SpawnInv(s: Sched, p: Proc, pid: nat)
    requires Inv(s) && p !in s.pid && forall q :: q in s.pid ==> s.pid[q] != pid
    ensures Inv(Spawn(s, p, pid))
  {
    assert p !in s.state;
  }

  /** The three ways process_create ends. */
  lemma CreateCases(k: Kernel)
    requires Heap.Valid(k.heap) && k.heap.limit < TWO64 - 0x1_0000
    ensures var (k', r) := Create(k);
            && Heap.Valid(k'.heap) && k'.heap.limit == k.heap.limit && k'.heap.kernelEnd == k.heap.kernelEnd
            && k.heap.ptr <= k'.heap.ptr
            && (r.None? ==> k'.sched == k.sched && k'.nextPid == k.nextPid)
            && (r.Some? ==>
                  && r.value == k.heap.ptr && k.heap.ptr + PER_PROCESS <= k'.heap.ptr
                  && k'.sched == Spawn(k.sched, r.value, k.nextPid) && k'.nextPid == (k.nextPid + 1) % TWO32)
  {
    Heap.KmallocGrants(k.heap, PROC_STRUCT_SIZE);
    var (h1, p) := Heap.Kmalloc(k.heap, PROC_STRUCT_SIZE);
    Heap.KmallocGrants(h1, STACK_SIZE);
    SpaceHeapGrows(Heap.Kmalloc(h1, STACK_SIZE).0);
  }

  /** Creation is all or nothing, keeps the invariant and hands out a pid nobody has had. */
  lemma CreateInv(k: Kernel)
    requires KernelInv(k)
    ensures var (k', r) := Create(k);
            && KernelInv(k')
            && (if r.None? then k'.sched == k.sched && k'.nextPid == k.nextPid
                else r.value !in k.sched.pid && k'.sched == Spawn(k.sched, r.value, k.nextPid) && k'.nextPid == k.nextPid + 1)
  {
    hide Inv;
    CreateCases(k);
    var (k', r) := Create(k);
    if r.Some? {
      CreatedInv(k.sched, k.heap, k'.heap, k.nextPid);
    }
  }

  /** A created process is READY at the tail of the queue, under its own pid, and nothing else has changed. */
  lemma CreatedLast(k: Kernel)
    requires KernelInv(k) && Create(k).1.Some?
    ensures var (k', r) := Create(k);
            var (s, s', p) := (k.sched, k'.sched, r.value);
            && s'.queue == s.queue + [p] && s'.zombies == s.zombies && s'.current == s.current
            && p !in s.state && s'.state.Keys == s.state.Keys + {p} && s'.state[p] == Ready
            && (forall q :: q in s.state ==> s'.state[q] == s.state[q])
            && HasPid(s', p, k.nextPid) && FindByPid(s', k.nextPid) == Some(p)
  {
    CreateInv(k);
    var (k', r) := Create(k);
    hide Create;
    NewState(k.sched, r.value);
    FindByPidIs(k'.sched, k.nextPid);
    assert r.value in k'.sched.queue by { assert k'.sched.queue[|k.sched.queue|] == r.value; }
  }

  lemma NewState(s: Sched, p: Proc)
    requires Inv(s) && p !in s.pid
    ensures p !in s.state
  {
  }

  lemma CreatedInv(s: Sched, h: Heap.State, h': Heap.State, nextPid: nat)
    requires Inv(s) && Supply(h, nextPid, s.pid)
    requires Heap.Valid(h') && h'.limit == h.limit && h'.kernelEnd == h.kernelEnd && h.ptr + PER_PROCESS <= h'.ptr
    ensures h.ptr !in s.pid && (nextPid + 1) % TWO32 == nextPid + 1
    ensures KernelInv(Kernel(Spawn(s, h.ptr, nextPid), h', nextPid + 1))
  {
    hide Inv;
    SupplyAfterCreate(h, h', nextPid, s.pid);
    SpawnInv(s, h.ptr, nextPid);
  }

  lemma SupplyAfterCreate(h: Heap.State, h': Heap.State, nextPid: nat, pid: map<Proc, nat>)
    requires Supply(h, nextPid, pid)
    requires Heap.Valid(h') && h'.limit == h.limit && h'.kernelEnd == h.kernelEnd && h.ptr + PER_PROCESS <= h'.ptr
    ensures Supply(h', nextPid + 1, pid[h.ptr := nextPid]) && (nextPid + 1) % TWO32 == nextPid + 1
    ensures h.ptr !in pid && forall q :: q in pid ==> pid[q] != nextPid
  {
    PidsFit(h.kernelEnd, nextPid, h.ptr, h'.ptr, h'.limit);
  }

  lemma PidsFit(base: nat, nextPid: nat, ptr: nat, ptr': nat, limit: nat)
    requires 1 <= nextPid && base + (nextPid - 1) * PER_PROCESS <= ptr
    requires ptr + PER_PROCESS <= ptr' <= limit == base + Heap.KERNEL_HEAP_SIZE
    ensures nextPid <= 446 && (nextPid + 1) % TWO32 == nextPid + 1
    ensures base + nextPid * PER_PROCESS <= ptr'
  {
  }

  lemma CreateSched(k: Kernel)
    requires KernelInv(k)
    ensures var s' := Create(k).0.sched;
            s'.zombies == k.sched.zombies && forall p :: p in k.sched.pid ==> p in s'.pid && s'.pid[p] == k.sched.pid[p]
  {
    CreateInv(k);
    hide Inv, Create;
  }

  lemma ExitKeeps(s: Sched)
    requires Inv(s)
    ensures Inv(Exit(s)) && Exit(s).pid == s.pid && exists newer :: Exit(s).zombies == newer + s.zombies
  {
    RemoveCurrentInv(s);
    YieldInv(RemoveCurrent(s));
    hide Inv, Yield;
    if s.current.Some? && s.current.value in s.queue {
      assert Exit(s).zombies == [s.current.value] + s.zombies;
    } else {
      assert Exit(s).zombies == [] + s.zombies;
    }
  }

  /** Every step keeps the invariant; zombies are only ever added in front and pids are never reassigned. */
  lemma StepInv(k: Kernel, op: Op)
    requires KernelInv(k)
    ensures var k' := Step(k, op);
            && KernelInv(k')
            && (exists newer :: k'.sched.zombies == newer + k.sched.zombies)
            && (forall p :: p in k.sched.pid ==> p in k'.sched.pid && k'.sched.pid[p] == k.sched.pid[p])
            && k.nextPid <= k'.nextPid
  {
    hide Inv, PickNext, SwitchTo, Create, RemoveCurrent, FindByPid, Kill, Spawn;
    var s := k.sched;
    match op
    case DoCreate =>
      CreateSched(k);
      CreateInv(k);
      assert Create(k).0.sched.zombies == [] + s.zombies;
    case DoYield =>
      YieldInv(s);
      assert Yield(s).zombies == [] + s.zombies;
    case DoExit =>
      ExitKeeps(s);
    case DoKill(pid) =>
      KillInv(s, pid);
  }

  /**
   Safety over every run: the invariant holds, zombies stay zombies and stay findable by their pid,
   and at most 446 processes are ever created, so pids neither wrap nor repeat.
   */
  lemma {:induction false} RunSafe(k: Kernel, ops: seq<Op>)
    requires KernelInv(k)
    ensures var k' := Run(k, ops);
            && KernelInv(k')
            && (forall p :: p in k.sched.zombies ==>
                  p in k'.sched.zombies && FindByPid(k'.sched, k.sched.pid[p]) == Some(p))
            && (forall p :: p in k.sched.pid ==> p in k'.sched.pid && k'.sched.pid[p] == k.sched.pid[p])
            && k'.nextPid <= 447
    decreases |ops|
  {
    if ops == [] {
      ZombiesFindable(k.sched);
      FewPids(k);
    } else {
      StepInv(k, ops[0]);
      RunSafe(Step(k, ops[0]), ops[1..]);
    }
  }

  /** Created, but neither queued nor on the CPU. */
  predicate Gone(s: Sched, p: Proc) {
    p in s.pid && p !in s.queue && s.current != Some(p)
  }

  lemma YieldGone(s: Sched, p: Proc)
    requires Inv(s) && Gone(s, p)
    ensures Gone(Yield(s), p)
  {
    YieldInv(s);
    hide Inv, Yield;
  }

  lemma RemoveGone(s: Sched, p: Proc)
    requires Inv(s) && Gone(s, p)
    ensures Inv(RemoveCurrent(s)) && Gone(RemoveCurrent(s), p)
  {
    RemoveCurrentInv(s);
    if s.current.Some? { WithoutMember(s.queue, s.current.value); }
  }

  lemma KillGone(s: Sched, pid: nat, p: Proc)
    requires Inv(s) && Gone(s, p)
    ensures Gone(Kill(s, pid).0, p)
  {
    RemoveGone(s, p);
    YieldGone(RemoveCurrent(s), p);
    hide Yield, RemoveCurrent, Inv, FindByPid;
    if q :| FindByPid(s, pid) == Some(q) {
      assert Inv(s) && Distinct(s.queue) by { QueueDistinct(s); }
      WithoutMember(s.queue, q);
    }
  }

  lemma QueueDistinct(s: Sched)
    requires Inv(s)
    ensures Distinct(s.queue)
  {
  }

  lemma StepGone(k: Kernel, op: Op, p: Proc)
    requires KernelInv(k) && Gone(k.sched, p)
    ensures Gone(Step(k, op).sched, p)
  {
    hide Inv, Yield, RemoveCurrent, Kill, Create;
    match op
    case DoCreate => CreateInv(k);
    case DoYield => YieldGone(k.sched, p);
    case DoExit =>
      RemoveGone(k.sched, p);
      YieldGone(RemoveCurrent(k.sched), p);
    case DoKill(pid) => KillGone(k.sched, pid, p);
  }

  /** A process that is neither queued nor on the CPU never runs again. */
  lemma {:induction false} GoneForever(k: Kernel, ops: seq<Op>, p: Proc)
    requires KernelInv(k) && Gone(k.sched, p)
    ensures Gone(Run(k, ops).sched, p)
    decreases |ops|
  {
    if ops != [] {
      StepInv(k, ops[0]);
      StepGone(k, ops[0], p);
      GoneForever(Step(k, ops[0]), ops[1..], p);
    }
  }

  /** That is where a kill by another process and an exit with anybody left to run lead. */
  lemma LeavesForGood(s: Sched, p: Proc)
    requires Inv(s) && p in s.queue
    ensures s.current != Some(p) ==> Gone(Kill(s, s.pid[p]).0, p)
    ensures s.current == Some(p) && s.queue != [p] ==> Gone(Exit(s), p)
  {
    if s.current != Some(p) {
      KilledIsGone(s, p);
    } else if s.queue != [p] {
      RemoveCurrentInv(s);
      WithoutMember(s.queue, p);
      YieldInv(RemoveCurrent(s));
      hide Inv, Yield;
    }
  }

  lemma KilledIsGone(s: Sched, p: Proc)
    requires Inv(s) && p in s.queue && s.current != Some(p)
    ensures Gone(Kill(s, s.pid[p]).0, p)
  {
    KillOther(s, s.pid[p], p);
    FindByPidIs(s, s.pid[p]);
  }

  lemma ZombiesFindable(s: Sched)
    requires Inv(s)
    ensures forall p :: p in s.zombies ==> FindByPid(s, s.pid[p]) == Some(p)
  {
    forall p | p in s.zombies
      ensures FindByPid(s, s.pid[p]) == Some(p)
    {
      FindByPidIs(s, s.pid[p]);
    }
  }

  lemma FewPids(k: Kernel)
    requires KernelInv(k)
    ensures k.nextPid <= 447
  {
    if k.nextPid > 1 {
      var ptr := k.heap.ptr - PER_PROCESS;
      assert (k.nextPid - 1) * PER_PROCESS >= PER_PROCESS;
      PidsFit(k.heap.kernelEnd, k.nextPid - 1, ptr, k.heap.ptr, k.heap.limit);
    }
  }

  /** Every run from boot is safe. */
  lemma BootInv(kernelEnd: nat, ptr: nat)
    requires 0 < kernelEnd <= ptr <= kernelEnd + Heap.KERNEL_HEAP_SIZE < TWO64 - 0x1_0000
    ensures KernelInv(Boot(kernelEnd, ptr))
  {
  }

  // ---------------------------------------------------------------- how far round robin goes

  function Yields(s: Sched, j: nat): Sched
    decreases j
  {
    if j == 0 then s else Yield(Yields(s, j - 1))
  }

  /** The process at position `i` of `q` runs, in a state that satisfies the invariant. */
  ghost predicate RunsAt(s: Sched, q: seq<Proc>, i: nat) {
    Inv(s) && s.queue == q && i < |q| && s.current == Some(q[i])
  }

  lemma YieldAt(s: Sched, q: seq<Proc>, i: nat)
    requires RunsAt(s, q, i)
    ensures RunsAt(Yield(s), q, if i + 1 < |q| then i + 1 else i)
  {
    PickNextInv(s);
    YieldInv(s);
    assert IndexOf(q, q[i]) == i;
  }

  /** j yields from position k of n leave position min(k + j, n - 1) running: there is no wrap-around. */
  lemma {:induction false} YieldsStopAtTail(s: Sched, k: nat, j: nat)
    requires k < |s.queue| && RunsAt(s, s.queue, k)
    ensures RunsAt(Yields(s, j), s.queue, if k + j < |s.queue| then k + j else |s.queue| - 1)
    decreases j
  {
    hide RunsAt, Yield;
    if j > 0 {
      YieldsStopAtTail(s, k, j - 1);
      var before := Yields(s, j - 1);
      YieldAt(before, s.queue, if k + (j - 1) < |s.queue| then k + (j - 1) else |s.queue| - 1);
      var after := Yield(before);
      assert Yields(s, j) == after;
    }
  }

  // ---------------------------------------------------------------- liveness

  /** How much is left to do: two for every yield or exit to come, one if the CPU is off the queue. */
  function Todo(q: seq<Proc>, work: map<Proc, nat>): nat {
    if q == [] then 0 else WorkOf(work, q[0]) + 1 + Todo(q[1..], work)
  }

  function WorkOf(work: map<Proc, nat>, p: Proc): nat {
    if p in work then work[p] else 0
  }

  function Measure(s: Sched, work: map<Proc, nat>): nat {
    2 * Todo(s.queue, work) + if s.current.Some? && s.current.value in s.queue then 0 else 1
  }

  /**
   One turn of whoever has the CPU: a queued process yields while it has work left and then exits;
   the kernel, or a process that has exited, just yields.
   */
  function Turn(s: Sched, work: map<Proc, nat>): (Sched, map<Proc, nat>) {
    match s.current
    case None => (Yield(s), work)
    case Some(c) =>
      if c !in s.queue then (Yield(s), work)
      else if WorkOf(work, c) > 0 then (Yield(s), work[c := WorkOf(work, c) - 1])
      else (Exit(s), work)
  }

  lemma {:induction false} TodoUpdate(q: seq<Proc>, work: map<Proc, nat>, c: Proc, w: nat)
    requires Distinct(q)
    ensures c in q ==> Todo(q, work[c := w]) == Todo(q, work) - WorkOf(work, c) + w
    ensures c !in q ==> Todo(q, work[c := w]) == Todo(q, work)
  {
    if q != [] {
      TodoUpdate(q[1..], work, c, w);
      assert q == [q[0]] + q[1..];
    }
  }

  lemma {:induction false} TodoRemove(q: seq<Proc>, work: map<Proc, nat>, i: nat)
    requires i < |q|
    ensures Todo(q, work) == Todo(q[..i] + q[i + 1..], work) + WorkOf(work, q[i]) + 1
  {
    var w := q[..i] + q[i + 1..];
    if i == 0 {
      assert w == q[1..];
    } else {
      assert w[1..] == q[1..][..i - 1] + q[1..][i..];
      TodoRemove(q[1..], work, i - 1);
    }
  }

  lemma ExitRemoves(s: Sched)
    requires Inv(s) && s.current.Some? && s.current.value in s.queue
    ensures var c := s.current.value;
            && Inv(Exit(s))
            && Exit(s).queue == Without(s.queue, c) && Exit(s).zombies == [c] + s.zombies
            && (Exit(s).queue != [] ==> Exit(s).current.Some? && Exit(s).current.value in Exit(s).queue)
  {
    RemoveCurrentInv(s);
    YieldInv(RemoveCurrent(s));
  }

  /** A turn that only yields: the queue stays, and its work shrinks or the CPU comes onto it. */
  lemma YieldTurn(s: Sched, work: map<Proc, nat>, work': map<Proc, nat>)
    requires Inv(s) && s.queue != []
    requires if s.current.Some? && s.current.value in s.queue then Todo(s.queue, work') < Todo(s.queue, work) else work' == work
    ensures Inv(Yield(s)) && Yield(s).queue == s.queue && Yield(s).zombies == s.zombies
    ensures Measure(Yield(s), work') < Measure(s, work)
  {
    YieldInv(s);
  }

  lemma ExitTurn(s: Sched, work: map<Proc, nat>)
    requires Inv(s) && s.current.Some? && s.current.value in s.queue
    ensures Inv(Exit(s)) && Measure(Exit(s), work) < Measure(s, work)
    ensures forall p :: p in s.queue ==> p in Exit(s).queue || p in Exit(s).zombies
    ensures forall p :: p in s.zombies ==> p in Exit(s).zombies
  {
    var c := s.current.value;
    ExitRemoves(s);
    WithoutMember(s.queue, c);
    TodoRemove(s.queue, work, IndexOf(s.queue, c));
  }

  lemma TurnProgress(s: Sched, work: map<Proc, nat>)
    requires Inv(s) && s.queue != []
    ensures var (s', work') := Turn(s, work);
            && Inv(s')
            && Measure(s', work') < Measure(s, work)
            && (forall p :: p in s.queue ==> p in s'.queue || p in s'.zombies)
            && (forall p :: p in s.zombies ==> p in s'.zombies)
  {
    if s.current.Some? && s.current.value in s.queue {
      var c := s.current.value;
      if WorkOf(work, c) > 0 {
        TodoUpdate(s.queue, work, c, WorkOf(work, c) - 1);
        YieldTurn(s, work, work[c := WorkOf(work, c) - 1]);
      } else {
        ExitTurn(s, work);
      }
    } else {
      YieldTurn(s, work, work);
    }
  }

  /** Turns until the queue is empty. */
  ghost function Drain(s: Sched, work: map<Proc, nat>): Sched
    requires Inv(s)
    decreases Measure(s, work)
  {
    if s.queue == [] then s
    else
      TurnProgress(s, work);
      var (s', work') := Turn(s, work);
      Drain(s', work')
  }

  /** Liveness without fairness: whatever each process still has to do, all of them end up as zombies. */
  lemma {:induction false} EveryoneFinishes(s: Sched, work: map<Proc, nat>)
    requires Inv(s)
    ensures var s' := Drain(s, work);
            && Inv(s') && s'.queue == []
            && (forall p :: p in s.queue || p in s.zombies ==> p in s'.zombies)
    decreases Measure(s, work)
  {
    if s.queue != [] {
      TurnProgress(s, work);
      var (s', work') := Turn(s, work);
      EveryoneFinishes(s', work');
    }
  }

  // ---------------------------------------------------------------- the loop of pick_next

  datatype ScanResult = Chosen(p: Proc) | StayWithCurrent | StillLooping

  /**
   The second loop of pick_next after at most `fuel` rounds, from candidate position `c`. `i` is the
   position of current, or the length of the queue when current is not on it.
   */
  function Scan(s: Sched, i: nat, c: nat, fuel: nat): ScanResult
    requires c < |s.queue|
    decreases fuel
  {
    if IsReady(s, s.queue[c]) then Chosen(s.queue[c])
    else if fuel == 0 then StillLooping
    else
      var c' := if c + 1 < |s.queue| then c + 1 else 0;
      if i < |s.queue| && c' == i then StayWithCurrent
      else Scan(s, i, c', fuel - 1)
  }

  /** Where the second loop starts; None when it is not entered because current is the tail. */
  function ScanStart(s: Sched, i: nat): Option<nat>
    requires s.queue != [] && i <= |s.queue|
  {
    if i == |s.queue| then Some(0) else if i + 1 == |s.queue| then None else Some(i + 1)
  }

  ghost predicate Terminates(s: Sched, i: nat)
    requires s.queue != [] && i <= |s.queue|
  {
    ScanStart(s, i).None? || exists fuel: nat :: !Scan(s, i, ScanStart(s, i).value, fuel).StillLooping?
  }

  lemma {:induction false} ScanSpins(s: Sched, i: nat, c: nat, fuel: nat)
    requires c < |s.queue| && i == |s.queue|
    requires forall p :: p in s.queue ==> !IsReady(s, p)
    ensures Scan(s, i, c, fuel).StillLooping?
    decreases fuel
  {
    if fuel > 0 {
      ScanSpins(s, i, if c + 1 < |s.queue| then c + 1 else 0, fuel - 1);
    }
  }

  /** From any other position round to current. */
  lemma {:induction false} ScanRound(s: Sched, i: nat, c: nat, fuel: nat)
    requires i < |s.queue| && c < |s.queue| && c != i
    requires fuel >= if i < c then |s.queue| - c + i else i - c
    ensures var rest := if i < c then s.queue[c..] + s.queue[..i] else s.queue[c..i];
            var r := FirstReady(s, rest);
            Scan(s, i, c, fuel) == if r.Some? then Chosen(r.value) else StayWithCurrent
    decreases fuel
  {
    var q := s.queue;
    var rest := if i < c then q[c..] + q[..i] else q[c..i];
    assert rest[0] == q[c];
    if !IsReady(s, q[c]) {
      var c' := if c + 1 < |q| then c + 1 else 0;
      if c' == i {
        assert rest[1..] == [];
      } else {
        assert rest[1..] == if i < c' then q[c'..] + q[..i] else q[c'..i];
        ScanRound(s, i, c', fuel - 1);
      }
    }
  }

  /** With current off the queue a READY member ahead is found. */
  lemma {:induction false} ScanAhead(s: Sched, c: nat, fuel: nat)
    requires c < |s.queue| && fuel >= |s.queue| - c
    requires FirstReady(s, s.queue[c..]).Some?
    ensures Scan(s, |s.queue|, c, fuel) == Chosen(FirstReady(s, s.queue[c..]).value)
    decreases fuel
  {
    var q := s.queue;
    assert q[c..][0] == q[c] && q[c..][1..] == q[c + 1..];
    if !IsReady(s, q[c]) {
      assert q[c + 1..] != [];
      ScanAhead(s, c + 1, fuel - 1);
    }
  }

  /**
   The loop against its meaning, for arbitrary member states: it yields PickNext whenever it stops,
   and it runs for ever exactly when current is off a non-empty queue without a READY member.
   */
  lemma PickNextLoop(s: Sched)
    requires Distinct(s.queue) && s.queue != [] && s.current.Some?
    ensures var i := IndexOf(s.queue, s.current.value);
            && (Terminates(s, i) <==> i < |s.queue| || exists p :: p in s.queue && IsReady(s, p))
            && (Terminates(s, i) ==>
                  PickNext(s) == match ScanStart(s, i)
                                 case None => s.current
                                 case Some(c) =>
                                   match Scan(s, i, c, |s.queue|)
                                   case Chosen(p) => Some(p)
                                   case _ => s.current)
  {
    var q := s.queue;
    var i := IndexOf(q, s.current.value);
    if i == |q| {
      assert q[0..] == q;
      FirstReadyIs(s, q);
      if exists p :: p in q && IsReady(s, p) {
        ScanAhead(s, 0, |q|);
      } else {
        hide IsReady, FirstReady, ScanStart;
        forall fuel: nat
          ensures Scan(s, i, 0, fuel).StillLooping?
        {
          ScanSpins(s, i, 0, fuel);
        }
      }
    } else if i + 1 < |q| {
      ScanRound(s, i, i + 1, |q|);
      assert !Scan(s, i, i + 1, |q|).StillLooping?;
    }
  }
}
