/** Where process_create's memory lies: stacks apart from each other, and level 4 tables off page boundaries. */
module ProcessMemory {
  import opened Words
  import opened Paging
  import opened SchedulerRuns
  import ContextSwitch

  /** The heap traffic of process creation is that of the address space it creates. */
  lemma SpaceHeapIs(vm: Vm, kernelPml4: nat)
    ensures CreateSpace(vm, kernelPml4).0.heap == SpaceHeap(vm.heap)
  {
  }

  // ---------------------------------------------------------------- level 4 tables

  /** Heap bytes from one level 4 table of process creation to the next, and in front of the first. */
  const PER_SPACE: nat := PER_PROCESS + AS_STRUCT_SIZE + PAGE
  const BEFORE_TABLE: nat := PER_PROCESS + AS_STRUCT_SIZE

  /** The level 4 table that process_create makes in this state. */
  function TableOf(k: Kernel): Option<nat> {
    var (h1, p) := Heap.Kmalloc(k.heap, PROC_STRUCT_SIZE);
    var (h2, stack) := Heap.Kmalloc(h1, STACK_SIZE);
    var (h3, space) := Heap.Kmalloc(h2, AS_STRUCT_SIZE);
    if p.None? || stack.None? || space.None? then None else Heap.Kmalloc(h3, PAGE).1
  }

  /** All level 4 tables made in a run, in order. */
  function Tables(k: Kernel, ops: seq<Op>): seq<nat>
    decreases |ops|
  {
    if ops == [] then []
    else (if ops[0].DoCreate? && TableOf(k).Some? then [TableOf(k).value] else []) + Tables(Step(k, ops[0]), ops[1..])
  }

  /** The space process_create gets has that table, and the address an entry keeps of it as its cr3. */
  lemma TableOfIs(vm: Vm, k: Kernel, kernelPml4: nat)
    requires k.heap == vm.heap
    ensures var (h1, p) := Heap.Kmalloc(k.heap, PROC_STRUCT_SIZE);
            var (h2, stack) := Heap.Kmalloc(h1, STACK_SIZE);
            p.Some? && stack.Some? ==>
              CreateSpace(vm.(heap := h2), kernelPml4).1 ==
              match TableOf(k) case None => None case Some(t) => Some(Space(t, EntryAddr(Wrap(t))))
  {
    hide Heap.Kmalloc, ZeroTable, WriteWords, TableWords, EntryAddr, Wrap;
  }

  predicate Sound(h: Heap.State) {
    Heap.Valid(h) && h.limit < TWO64 - 0x1_0000
  }

  lemma Plain(h: Heap.State, size: nat)
    requires Sound(h) && 0 < size < 0x8000 && size % 8 == 0
    ensures var (h', r) := Heap.Kmalloc(h, size);
            && Sound(h') && h'.limit == h.limit
            && if h.ptr + size <= h.limit then r == Some(h.ptr) && h' == h.(ptr := h.ptr + size) else r == None && h' == h
  {
    hide Heap.Kmalloc;
    Heap.KmallocPlain(h, size);
  }

  /** One creation: either the table lies at its fixed distance, or no stack will ever fit again. */
  lemma CreateTable(k: Kernel)
    requires Sound(k.heap)
    ensures var h' := Create(k).0.heap;
            && Sound(h') && h'.limit == k.heap.limit && h'.ptr >= k.heap.ptr
            && if TableOf(k).Some? then TableOf(k) == Some(k.heap.ptr + BEFORE_TABLE) && h'.ptr == k.heap.ptr + PER_SPACE
               else h'.ptr + STACK_SIZE > h'.limit
  {
    hide Heap.Kmalloc;
    Plain(k.heap, PROC_STRUCT_SIZE);
    var h1 := Heap.Kmalloc(k.heap, PROC_STRUCT_SIZE).0;
    Plain(h1, STACK_SIZE);
    var h2 := Heap.Kmalloc(h1, STACK_SIZE).0;
    Plain(h2, AS_STRUCT_SIZE);
    Plain(Heap.Kmalloc(h2, AS_STRUCT_SIZE).0, PAGE);
  }

  lemma {:induction false} NoMoreTables(k: Kernel, ops: seq<Op>)
    requires Sound(k.heap) && k.heap.ptr + STACK_SIZE > k.heap.limit
    ensures Tables(k, ops) == []
    decreases |ops|
  {
    if ops != [] {
      if ops[0].DoCreate? {
        CreateTable(k);
        hide TableOf, Create;
      }
      NoMoreTables(Step(k, ops[0]), ops[1..]);
    }
  }

  /** Where the tables of later creations lie, and how much heap they take. */
  function TableAddr(ptr: nat, i: nat): nat {
    ptr + BEFORE_TABLE + i * PER_SPACE
  }

  function PtrAfter(ptr: nat, n: nat): nat {
    ptr + n * PER_SPACE
  }

  lemma OneLater(ptr: nat, i: nat)
    ensures TableAddr(ptr + PER_SPACE, i) == TableAddr(ptr, i + 1) && TableAddr(ptr, 0) == ptr + BEFORE_TABLE
    ensures PtrAfter(ptr + PER_SPACE, i) == PtrAfter(ptr, i + 1) && PtrAfter(ptr, 1) == ptr + PER_SPACE
  {
  }

  ghost predicate EvenlySpaced(ts: seq<nat>, h: Heap.State) {
    && (forall i :: 0 <= i < |ts| ==> ts[i] == TableAddr(h.ptr, i))
    && (ts != [] ==> PtrAfter(h.ptr, |ts|) <= h.limit)
  }

  /** In every run the tables lie at equal distances. */
  lemma {:induction false} TablesAt(k: Kernel, ops: seq<Op>)
    requires Sound(k.heap)
    ensures EvenlySpaced(Tables(k, ops), k.heap)
    decreases |ops|
  {
    if ops != [] {
      hide TableOf, Create, TableAddr, PtrAfter;
      var k1 := Step(k, ops[0]);
      if ops[0].DoCreate? {
        CreateTable(k);
        if TableOf(k).None? {
          NoMoreTables(k1, ops[1..]);
        } else {
          TablesAt(k1, ops[1..]);
          OneLater(k.heap.ptr, 0);
          TablesAfter(k.heap, k1.heap, TableOf(k).value, Tables(k1, ops[1..]));
        }
      } else {
        TablesAt(k1, ops[1..]);
      }
    }
  }

  lemma TablesAfter(h: Heap.State, h1: Heap.State, first: nat, rest: seq<nat>)
    requires EvenlySpaced(rest, h1) && Sound(h1) && h1.ptr == h.ptr + PER_SPACE && h1.limit == h.limit
    requires first == TableAddr(h.ptr, 0)
    ensures EvenlySpaced([first] + rest, h)
  {
    hide TableAddr, PtrAfter;
    var ts := [first] + rest;
    forall i | 0 <= i < |ts|
      ensures ts[i] == TableAddr(h.ptr, i)
    {
      if i > 0 { OneLater(h.ptr, i - 1); }
    }
    OneLater(h.ptr, |rest|);
  }

  lemma Multiple512(d: int, m: int)
    requires 2865 * d == 512 * m
    ensures d == 512 * (465 * m - 2602 * d)
  {
  }

  /** Fewer than 512 steps of 22920 bytes never end where they began in a page: 22920 is 8 times an odd number. */
  lemma StepsNeverAlign(d: nat)
    requires 0 < d < 512
    ensures d * PER_SPACE % PAGE != 0
  {
    var w := d * 22920;
    assert w == w / 4096 * 4096 + w % 4096;
    if w % 4096 == 0 { Multiple512(d, w / 4096); }
  }

  /**
   Process creation as the only user of the heap: in every run of create, yield, exit and kill at most one
   process has a level 4 table on a page boundary, and so a cr3 that is its table.
   */
  lemma OneUsableSpace(k: Kernel, ops: seq<Op>, i: nat, j: nat)
    requires KernelInv(k) && i < j < |Tables(k, ops)|
    ensures Tables(k, ops)[i] % PAGE != 0 || Tables(k, ops)[j] % PAGE != 0
    ensures EntryAddr(Wrap(Tables(k, ops)[i])) != Tables(k, ops)[i] || EntryAddr(Wrap(Tables(k, ops)[j])) != Tables(k, ops)[j]
  {
    hide Tables, EntryAddr;
    TablesAt(k, ops);
    var ti, tj := Tables(k, ops)[i], Tables(k, ops)[j];
    FewTables(k.heap.ptr, k.heap.limit, |Tables(k, ops)|, k.heap.kernelEnd);
    StepsNeverAlign(j - i);
    assert tj == ti + (j - i) * PER_SPACE;
    Difference(ti, (j - i) * PER_SPACE);
    EntryAligned(Wrap(ti));
    EntryAligned(Wrap(tj));
    TableFitsWord(k, |Tables(k, ops)|, i);
    TableFitsWord(k, |Tables(k, ops)|, j);
  }

  lemma EntryAligned(a: Word)
    ensures EntryAddr(a) % PAGE == 0
  {
  }

  lemma Difference(a: nat, d: nat)
    requires d % PAGE != 0
    ensures a % PAGE != 0 || (a + d) % PAGE != 0
  {
  }

  lemma TableFitsWord(k: Kernel, n: nat, i: nat)
    requires Sound(k.heap) && i < n && k.heap.ptr + n * PER_SPACE <= k.heap.limit
    ensures var t := k.heap.ptr + BEFORE_TABLE + i * PER_SPACE; t < TWO64 && Wrap(t) == t
  {
    Monotone(i + 1, n, PER_SPACE);
  }

  lemma FewTables(ptr: nat, limit: nat, n: nat, kernelEnd: nat)
    requires kernelEnd <= ptr && limit == kernelEnd + Heap.KERNEL_HEAP_SIZE && ptr + n * PER_SPACE <= limit
    ensures n < 512
  {
    if n >= 512 { Monotone(512, n, PER_SPACE); }
  }

  // ---------------------------------------------------------------- stacks

  /** Where process_t keeps the saved stack pointer. */
  const STACK_PTR_OFFSET: nat := 40

  /** The thread whose process_t and stack were allocated at these addresses; the stack's top is rounded to 16. */
  function ThreadOf(process: nat, stack: nat): ContextSwitch.Thread {
    var top := stack + STACK_SIZE;
    ContextSwitch.Thread(stack, top - top % 16, process + STACK_PTR_OFFSET)
  }

  /** Every thread's stack and saved stack pointer lie below the heap pointer. */
  predicate Below(threads: seq<ContextSwitch.Thread>, h: Heap.State) {
    && h.ptr % 8 == 0
    && forall t :: 0 <= t < |threads| ==> threads[t].hi <= h.ptr && threads[t].cell + 8 <= h.ptr
  }

  /** Other allocations keep this true. */
  lemma BelowKept(threads: seq<ContextSwitch.Thread>, h: Heap.State, size: nat)
    requires Below(threads, h) && Sound(h) && size + h.limit + 8 < TWO64
    ensures Below(threads, Heap.Kmalloc(h, size).0) && Sound(Heap.Kmalloc(h, size).0)
    ensures Heap.Kmalloc(h, size).0.limit == h.limit
  {
    Heap.KmallocGrants(h, size);
  }

  lemma NewThreadPlaced(process: nat, stack: nat)
    requires process % 8 == 0 && stack % 8 == 0 && process + PROC_STRUCT_SIZE <= stack && stack + STACK_SIZE < TWO64
    ensures var t := ThreadOf(process, stack);
            && ContextSwitch.WellPlaced(t) && !ContextSwitch.InStack(t, t.cell)
            && stack == t.lo && t.hi <= stack + STACK_SIZE && process <= t.cell < t.cell + 8 <= stack
  {
  }

  lemma NewThreadApart(u: ContextSwitch.Thread, t: ContextSwitch.Thread, ptr: nat)
    requires ContextSwitch.WellPlaced(u) && ContextSwitch.WellPlaced(t)
    requires u.hi <= ptr && u.cell + 8 <= ptr <= t.cell && ptr <= t.lo
    ensures ContextSwitch.Apart(u, t)
  {
  }

  /** The thread that process_create makes in this state. */
  function ThreadMade(k: Kernel): Option<ContextSwitch.Thread> {
    var (h1, p) := Heap.Kmalloc(k.heap, PROC_STRUCT_SIZE);
    var stack := Heap.Kmalloc(h1, STACK_SIZE).1;
    if p.None? || stack.None? then None else Some(ThreadOf(p.value, stack.value))
  }

  /** A thread in two blocks at the heap pointer may be started. */
  lemma NewThreadLegal(w: ContextSwitch.World, h: Heap.State, arg: Word, entry: Word)
    requires ContextSwitch.Inv(w) && Below(w.threads, h) && Sound(h) && h.ptr + PER_PROCESS <= h.limit
    ensures var t := ThreadOf(h.ptr, h.ptr + PROC_STRUCT_SIZE);
            && ContextSwitch.Legal(w, ContextSwitch.Action.Spawn(t, arg, entry))
            && Below(w.threads + [t], h.(ptr := h.ptr + PER_PROCESS))
  {
    hide ContextSwitch.InStack, ContextSwitch.Parked, ContextSwitch.Apart, ThreadOf;
    NewThreadPlaced(h.ptr, h.ptr + PROC_STRUCT_SIZE);
    var t := ThreadOf(h.ptr, h.ptr + PROC_STRUCT_SIZE);
    forall u | 0 <= u < |w.threads|
      ensures ContextSwitch.Apart(w.threads[u], t)
    {
      NewThreadApart(w.threads[u], t, h.ptr);
    }
  }

  /** The heap with one of the blocks gone, if it fits. */
  lemma OneBlockBelow(threads: seq<ContextSwitch.Thread>, h: Heap.State)
    requires Below(threads, h) && Sound(h)
    ensures h.ptr + PROC_STRUCT_SIZE <= h.limit ==>
              Sound(h.(ptr := h.ptr + PROC_STRUCT_SIZE)) && Below(threads, h.(ptr := h.ptr + PROC_STRUCT_SIZE))
  {
  }

  lemma SpaceBelow(threads: seq<ContextSwitch.Thread>, h: Heap.State)
    requires Below(threads, h) && Sound(h)
    ensures Below(threads, SpaceHeap(h)) && Sound(SpaceHeap(h))
  {
    hide Below, Heap.Kmalloc;
    BelowKept(threads, h, AS_STRUCT_SIZE);
    BelowKept(threads, Heap.Kmalloc(h, AS_STRUCT_SIZE).0, PAGE);
  }

  lemma NewThreadKept(threads: seq<ContextSwitch.Thread>, h: Heap.State, t: ContextSwitch.Thread)
    requires Sound(h) && h.ptr + PER_PROCESS <= h.limit && Below(threads + [t], h.(ptr := h.ptr + PER_PROCESS))
    ensures var h' := SpaceHeap(h.(ptr := h.ptr + PER_PROCESS)); Below(threads + [t], h') && Sound(h')
  {
    hide Below, SpaceHeap;
    SpaceBelow(threads + [t], h.(ptr := h.ptr + PER_PROCESS));
  }

  /** The thread lies in the first two blocks; without both there is none. */
  lemma ThreadBlocks(k: Kernel)
    requires Sound(k.heap)
    ensures var h := k.heap;
            if h.ptr + PER_PROCESS <= h.limit then
              && ThreadMade(k) == Some(ThreadOf(h.ptr, h.ptr + PROC_STRUCT_SIZE))
              && Create(k).1.Some? && Create(k).0.heap == SpaceHeap(h.(ptr := h.ptr + PER_PROCESS))
            else
              && ThreadMade(k) == None && Create(k).1 == None
              && Create(k).0.heap == if h.ptr + PROC_STRUCT_SIZE <= h.limit then h.(ptr := h.ptr + PROC_STRUCT_SIZE) else h
  {
    hide Heap.Kmalloc, ThreadOf, SpaceHeap;
    Plain(k.heap, PROC_STRUCT_SIZE);
    var h1 := Heap.Kmalloc(k.heap, PROC_STRUCT_SIZE).0;
    Plain(h1, STACK_SIZE);
  }

  /**
   The two blocks of process_create make a thread that the context switch may be given: well placed, and
   apart from every thread there is. After the whole call, address space included, that is true again for
   the next one.
   */
  lemma SpawnIsLegal(w: ContextSwitch.World, k: Kernel, arg: Word, entry: Word)
    requires ContextSwitch.Inv(w) && Below(w.threads, k.heap) && Sound(k.heap)
    ensures ThreadMade(k).Some? <==> Create(k).1.Some?
    ensures Sound(Create(k).0.heap)
    ensures match ThreadMade(k)
            case None => Below(w.threads, Create(k).0.heap)
            case Some(t) =>
              && ContextSwitch.Legal(w, ContextSwitch.Action.Spawn(t, arg, entry))
              && Below(w.threads + [t], Create(k).0.heap)
  {
    hide Heap.Kmalloc, ThreadOf, ThreadMade, Create, SpaceHeap, Below, Sound, ContextSwitch.Inv, ContextSwitch.Legal;
    var h := k.heap;
    ThreadBlocks(k);
    if h.ptr + PER_PROCESS <= h.limit {
      NewThreadLegal(w, h, arg, entry);
      NewThreadKept(w.threads, h, ThreadMade(k).value);
    } else {
      OneBlockBelow(w.threads, h);
    }
  }

  // ---------------------------------------------------------------- runs of threads and creations

  /** What happens next: the running thread does something, a process is created, or somebody allocates. */
  datatype Move =
    | Own(act: ContextSwitch.Action)
    | Make(arg: Word, entry: Word)
    | Allocate(size: nat)

  function Moved(k: Kernel, m: Move): Kernel {
    match m
    case Own(_) => k
    case Make(_, _) => Create(k).0
    case Allocate(size) => k.(heap := Heap.Kmalloc(k.heap, size).0)
  }

  /** What the processor sees of it. */
  function ActOf(k: Kernel, m: Move): seq<ContextSwitch.Action> {
    match m
    case Own(act) => [act]
    case Make(arg, entry) =>
      (match ThreadMade(k) case None => [] case Some(t) => [ContextSwitch.Action.Spawn(t, arg, entry)])
    case Allocate(_) => []
  }

  function Acts(k: Kernel, ms: seq<Move>): seq<ContextSwitch.Action>
    decreases |ms|
  {
    if ms == [] then [] else ActOf(k, ms[0]) + Acts(Moved(k, ms[0]), ms[1..])
  }

  function Final(k: Kernel, ms: seq<Move>): Kernel
    decreases |ms|
  {
    if ms == [] then k else Final(Moved(k, ms[0]), ms[1..])
  }

  predicate Placed(w: ContextSwitch.World) {
    w.cur < |w.threads| == |w.due|
  }

  /** Threads keep to their own stacks and requests do not wrap; nothing is assumed of creations. */
  predicate Behaves(w: ContextSwitch.World, k: Kernel, ms: seq<Move>)
    requires Placed(w)
    decreases |ms|
  {
    ms == [] || (
      var k1, acts := Moved(k, ms[0]), ActOf(k, ms[0]);
      && (ms[0].Own? ==> !ms[0].act.Spawn? && ContextSwitch.Legal(w, ms[0].act))
      && (ms[0].Allocate? ==> ms[0].size + k.heap.limit + 8 < TWO64)
      && if acts == [] then Behaves(w, k1, ms[1..])
         else ContextSwitch.Legal(w, acts[0]) && Placed(ContextSwitch.Next(w, acts[0])) ==> Behaves(ContextSwitch.Next(w, acts[0]), k1, ms[1..]))
  }

  lemma MoveKeeps(w: ContextSwitch.World, k: Kernel, m: Move)
    requires ContextSwitch.Inv(w) && Below(w.threads, k.heap) && Sound(k.heap)
    requires m.Own? ==> !m.act.Spawn? && ContextSwitch.Legal(w, m.act)
    requires m.Allocate? ==> m.size + k.heap.limit + 8 < TWO64
    ensures Sound(Moved(k, m).heap)
    ensures var acts := ActOf(k, m);
            if acts == [] then Below(w.threads, Moved(k, m).heap)
            else
              && acts == [acts[0]] && ContextSwitch.Legal(w, acts[0])
              && ContextSwitch.Inv(ContextSwitch.Next(w, acts[0])) && Below(ContextSwitch.Next(w, acts[0]).threads, Moved(k, m).heap)
  {
    hide Below, Heap.Kmalloc, ThreadMade, Create, ContextSwitch.Switch, ContextSwitch.InitialFrame, ContextSwitch.InitialContext, ContextSwitch.CallSite;
    match m
    case Own(act) => ContextSwitch.StepInv(w, act);
    case Make(arg, entry) =>
      SpawnIsLegal(w, k, arg, entry);
      if t :| ThreadMade(k) == Some(t) { ContextSwitch.StepInv(w, ContextSwitch.Action.Spawn(t, arg, entry)); }
    case Allocate(size) => BelowKept(w.threads, k.heap, size);
  }

  /**
   Process creation at any point of a run makes legal threads: what ContextSwitch assumes of new stacks
   holds in every run of threads, creations and other allocations.
   */
  lemma {:induction false} CreationsAreLegal(w: ContextSwitch.World, k: Kernel, ms: seq<Move>)
    requires ContextSwitch.Inv(w) && Below(w.threads, k.heap) && Sound(k.heap) && Behaves(w, k, ms)
    ensures ContextSwitch.LegalRun(w, Acts(k, ms))
    ensures Below(ContextSwitch.Run(w, Acts(k, ms)).threads, Final(k, ms).heap)
    decreases |ms|
  {
    if ms != [] {
      hide Below, Sound, Moved, ContextSwitch.Inv, ContextSwitch.Legal, ContextSwitch.Next;
      MoveKeeps(w, k, ms[0]);
      var acts := ActOf(k, ms[0]);
      if acts == [] {
        assert Acts(k, ms) == Acts(Moved(k, ms[0]), ms[1..]);
        CreationsAreLegal(w, Moved(k, ms[0]), ms[1..]);
      } else {
        var w1 := ContextSwitch.Next(w, acts[0]);
        InvPlaced(w1);
        CreationsAreLegal(w1, Moved(k, ms[0]), ms[1..]);
        assert Acts(k, ms)[0] == acts[0] && Acts(k, ms)[1..] == Acts(Moved(k, ms[0]), ms[1..]);
      }
    }
  }

  lemma InvPlaced(w: ContextSwitch.World)
    requires ContextSwitch.Inv(w)
    ensures Placed(w)
  {
  }
}
