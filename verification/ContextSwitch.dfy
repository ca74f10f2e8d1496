/**
 The register save, stack swap and register restore of context_switch, the frame that
 process_create builds for it, and what both mean over whole runs of several threads.
 */
module ContextSwitch {
  import opened Words
  import opened Paging
  import opened PageTree

  /** rax, rbx, rcx, rdx, rsi, rdi, rbp, r8, ..., r15: the order in which they are popped. */
  const RSI: nat := 4
  const RDI: nat := 5

  type Registers = r: seq<Word> | |r| == 15 witness seq(15, _ => 0)

  datatype Cpu = Cpu(regs: Registers, rsp: nat, rip: Word, mem: Memory)

  /** What a thread sees of the machine: its registers, where it executes and its stack pointer. */
  datatype Context = Context(regs: Registers, rip: Word, rsp: nat)

  function ContextOf(c: Cpu): Context {
    Context(c.regs, c.rip, c.rsp)
  }

  /** The context that popping a saved frame at `sp` and returning through it gives. */
  function FrameAt(m: Memory, sp: nat): Context {
    Context(seq(15, i requires 0 <= i => Read(m, Slot(sp, i))), Read(m, Slot(sp, 15)), sp + 128)
  }

  /** The last `n` of `rs` pushed from `sp` down, last one first. */
  function Pushed(m: Memory, sp: nat, rs: seq<Word>, n: nat): Memory
    requires n <= |rs| && 8 * n <= sp
  {
    if n == 0 then m else Pushed(m, sp, rs, n - 1)[sp - 8 * n := rs[|rs| - n]]
  }

  /** context_switch(rdi = where to save rsp, rsi = the stack pointer to load), the return address on top of the stack. */
  function Switch(c: Cpu): Cpu
    requires c.rsp >= 120
  {
    var m1 := Pushed(c.mem, c.rsp, c.regs, |c.regs|)[c.regs[RDI] := Wrap(c.rsp - 120)];
    var f := FrameAt(m1, c.regs[RSI]);
    Cpu(f.regs, f.rsp, f.rip, m1)
  }

  lemma {:induction false} PushedRead(m: Memory, sp: nat, rs: seq<Word>, n: nat, a: nat)
    requires n <= |rs| && 8 * n <= sp
    ensures forall i: nat :: |rs| - n <= i < |rs| && a + 8 * |rs| == sp + 8 * i ==> Read(Pushed(m, sp, rs, n), a) == rs[i]
    ensures (a < sp - 8 * n || a >= sp || (sp - a) % 8 != 0) ==> Read(Pushed(m, sp, rs, n), a) == Read(m, a)
  {
    if n > 0 {
      PushedRead(m, sp, rs, n - 1, a);
    }
  }

  /** What process_create leaves in the 16 words at `sp`. */
  function InitialFrame(m: Memory, sp: nat, arg: Word, entry: Word): Memory {
    WriteWords(m, sp, seq(16, _ => 0))[Slot(sp, RDI) := arg][Slot(sp, 15) := entry]
  }

  function InitialContext(sp: nat, arg: Word, entry: Word): Context {
    Context(seq(15, i => if i == RDI then arg else 0), entry, sp + 128)
  }

  /** The hand-made frame is what the pops due: the first resume enters `entry` with rdi = arg. */
  lemma InitialFrameIs(m: Memory, sp: nat, arg: Word, entry: Word)
    ensures FrameAt(InitialFrame(m, sp, arg, entry), sp) == InitialContext(sp, arg, entry)
    ensures forall a: nat :: (a < sp || a >= sp + 128) ==> Read(InitialFrame(m, sp, arg, entry), a) == Read(m, a)
  {
    var zeros: seq<Word> := seq(16, _ => 0);
    forall i: nat | i < 16
      ensures Read(WriteWords(m, sp, zeros), Slot(sp, i)) == 0
    {
      WriteWordsRead(m, sp, zeros, Slot(sp, i));
    }
    forall a: nat | a < sp || a >= sp + 128
      ensures Read(InitialFrame(m, sp, arg, entry), a) == Read(m, a)
    {
      WriteWordsRead(m, sp, zeros, a);
    }
    var f := FrameAt(InitialFrame(m, sp, arg, entry), sp);
    assert f.regs == InitialContext(sp, arg, entry).regs;
  }

  // ---------------------------------------------------------------- threads

  /** A stack [lo, hi) and the word that holds the saved stack pointer. */
  datatype Thread = Thread(lo: nat, hi: nat, cell: nat)

  /** `due` is history: the context each thread had when it last gave up the CPU, or is to start with. */
  datatype World = World(cpu: Cpu, threads: seq<Thread>, cur: nat, due: seq<Context>)

  datatype Action =
    | Compute(regs: Registers, rsp: nat, rip: Word)
    | Store(addr: nat, value: Word)
    | Spawn(thread: Thread, arg: Word, entry: Word)
    | SwitchTo(next: nat)

  predicate InStack(t: Thread, a: nat) {
    t.lo <= a && a + 8 <= t.hi
  }

  predicate WellPlaced(t: Thread) {
    t.lo % 8 == 0 && t.hi % 8 == 0 && t.cell % 8 == 0 && t.lo + 128 <= t.hi < TWO64
  }

  predicate Apart(t: Thread, u: Thread) {
    (t.hi <= u.lo || u.hi <= t.lo) && t.cell != u.cell && !InStack(t, u.cell) && !InStack(u, t.cell)
  }

  /** A switched-out thread's saved stack pointer leads to an intact frame with the expected context. */
  predicate Parked(m: Memory, t: Thread, e: Context) {
    var sp := Read(m, t.cell);
    t.lo <= sp && sp + 128 <= t.hi && sp % 8 == 0 && FrameAt(m, sp) == e
  }

  ghost predicate Inv(w: World) {
    && w.cur < |w.threads| == |w.due|
    && (forall t :: 0 <= t < |w.threads| ==> WellPlaced(w.threads[t]) && !InStack(w.threads[t], w.threads[t].cell))
    && (forall t, u :: 0 <= t < u < |w.threads| ==> Apart(w.threads[t], w.threads[u]))
    && (forall t :: 0 <= t < |w.threads| && t != w.cur ==> Parked(w.cpu.mem, w.threads[t], w.due[t]))
  }

  /**
   What the running thread may do: compute anything, store into its own stack, make a thread in fresh
   memory, and call context_switch as scheduler_yield does, with room for the frame on its stack.
   */
  predicate Legal(w: World, act: Action)
    requires w.cur < |w.threads| == |w.due|
  {
    var me := w.threads[w.cur];
    match act
    case Compute(_, _, _) => true
    case Store(a, _) => InStack(me, a) && a % 8 == 0
    case Spawn(t, _, _) =>
      && WellPlaced(t) && !InStack(t, t.cell)
      && forall u :: 0 <= u < |w.threads| ==> Apart(w.threads[u], t)
    case SwitchTo(n) =>
      && n < |w.threads| && n != w.cur
      && w.cpu.rsp % 8 == 0 && InStack(me, w.cpu.rsp) && me.lo + 120 <= w.cpu.rsp
      && w.cpu.regs[RDI] == me.cell && w.cpu.regs[RSI] == Read(w.cpu.mem, w.threads[n].cell)
  }

  /** Where the caller of context_switch continues: after the call, with everything as it was. */
  function CallSite(c: Cpu): Context {
    Context(c.regs, Read(c.mem, c.rsp), c.rsp + 8)
  }

  function Next(w: World, act: Action): World
    requires w.cur < |w.threads| == |w.due| && Legal(w, act)
  {
    match act
    case Compute(regs, rsp, rip) => w.(cpu := Cpu(regs, rsp, rip, w.cpu.mem))
    case Store(a, v) => w.(cpu := w.cpu.(mem := w.cpu.mem[a := v]))
    case Spawn(t, arg, entry) =>
      var sp := t.hi - 128;
      var m := InitialFrame(w.cpu.mem, sp, arg, entry)[t.cell := sp];
      w.(cpu := w.cpu.(mem := m), threads := w.threads + [t], due := w.due + [InitialContext(sp, arg, entry)])
    case SwitchTo(n) =>
      w.(cpu := Switch(w.cpu), cur := n, due := w.due[w.cur := CallSite(w.cpu)])
  }

  lemma FrameWord(t: Thread, sp: nat, i: nat)
    requires t.lo <= sp && sp + 128 <= t.hi && sp % 8 == 0 && i <= 15
    ensures InStack(t, Slot(sp, i)) && Slot(sp, i) % 8 == 0
  {
  }

  lemma SameFrame(m: Memory, m': Memory, sp: nat)
    requires forall i: nat :: i <= 15 ==> Read(m', Slot(sp, i)) == Read(m, Slot(sp, i))
    ensures FrameAt(m', sp) == FrameAt(m, sp)
  {
    hide Read, Slot;
    assert FrameAt(m', sp).regs == FrameAt(m, sp).regs;
  }

  /** Frames depend only on their own sixteen words. */
  lemma ParkedFrame(m: Memory, m': Memory, t: Thread, e: Context)
    requires Parked(m, t, e) && WellPlaced(t)
    requires Read(m', t.cell) == Read(m, t.cell)
    requires forall a :: InStack(t, a) && a % 8 == 0 ==> Read(m', a) == Read(m, a)
    ensures Parked(m', t, e)
  {
    hide FrameAt, InStack, Read, Slot;
    var sp := Read(m, t.cell);
    forall i: nat | i <= 15
      ensures Read(m', Slot(sp, i)) == Read(m, Slot(sp, i))
    {
      FrameWord(t, sp, i);
    }
    SameFrame(m, m', sp);
  }

  /** Writes of one thread inside its own stack and cell leave every other parked thread intact. */
  lemma OthersIntact(w: World, m': Memory)
    requires Inv(w)
    requires forall a: nat :: a % 8 == 0 && !InStack(w.threads[w.cur], a) && a != w.threads[w.cur].cell ==>
               Read(m', a) == Read(w.cpu.mem, a)
    ensures forall t :: 0 <= t < |w.threads| && t != w.cur ==> Parked(m', w.threads[t], w.due[t])
  {
    forall t | 0 <= t < |w.threads| && t != w.cur
      ensures Parked(m', w.threads[t], w.due[t])
    {
      assert if t < w.cur then Apart(w.threads[t], w.threads[w.cur]) else Apart(w.threads[w.cur], w.threads[t]);
      ParkedFrame(w.cpu.mem, m', w.threads[t], w.due[t]);
    }
  }

  /** The fifteen pushes and the saved pointer park the caller with its own context. */
  lemma SwitchParks(c: Cpu, t: Thread)
    requires WellPlaced(t) && !InStack(t, t.cell)
    requires c.rsp % 8 == 0 && InStack(t, c.rsp) && t.lo + 120 <= c.rsp && c.regs[RDI] == t.cell
    ensures Parked(Switch(c).mem, t, CallSite(c))
    ensures forall a: nat :: a % 8 == 0 && !InStack(t, a) && a != t.cell ==> Read(Switch(c).mem, a) == Read(c.mem, a)
    ensures ContextOf(Switch(c)) == FrameAt(Switch(c).mem, c.regs[RSI])
  {
    hide FrameAt, Pushed;
    forall a: nat | a % 8 == 0 && !InStack(t, a) && a != t.cell
      ensures Read(Switch(c).mem, a) == Read(c.mem, a)
    {
      SwitchWrites(c, t, a);
    }
    SavedFrame(c, t);
  }

  /** A switch writes below the caller's stack pointer and its save cell only. */
  lemma SwitchWrites(c: Cpu, t: Thread, a: nat)
    requires WellPlaced(t) && InStack(t, c.rsp) && c.rsp % 8 == 0 && t.lo + 120 <= c.rsp && c.regs[RDI] == t.cell
    requires a % 8 == 0 && !InStack(t, a) && a != t.cell
    ensures Read(Switch(c).mem, a) == Read(c.mem, a)
  {
    hide FrameAt;
    PushedRead(c.mem, c.rsp, c.regs, |c.regs|, a);
    hide Pushed;
  }

  lemma SavedFrame(c: Cpu, t: Thread)
    requires WellPlaced(t) && !InStack(t, t.cell)
    requires c.rsp % 8 == 0 && InStack(t, c.rsp) && t.lo + 120 <= c.rsp && c.regs[RDI] == t.cell
    ensures FrameAt(Switch(c).mem, c.rsp - 120) == CallSite(c)
  {
    var sp := c.rsp - 120;
    var m' := Switch(c).mem;
    forall i: nat | i <= 15
      ensures Read(m', Slot(sp, i)) == if i < 15 then c.regs[i] else Read(c.mem, c.rsp)
    {
      assert InStack(t, Slot(sp, i));
      PushedRead(c.mem, c.rsp, c.regs, |c.regs|, Slot(sp, i));
    }
    assert FrameAt(m', sp).regs == c.regs;
  }

  lemma StepInv(w: World, act: Action)
    requires Inv(w) && Legal(w, act)
    ensures Inv(Next(w, act))
    ensures act.SwitchTo? ==> ContextOf(Next(w, act).cpu) == w.due[act.next]
    ensures forall t :: 0 <= t < |w.threads| && t != w.cur ==> Next(w, act).due[t] == w.due[t]
  {
    var w' := Next(w, act);
    match act
    case Compute(_, _, _) =>
    case Store(_, _) =>
      OthersIntact(w, w'.cpu.mem);
    case Spawn(t, arg, entry) =>
      SpawnInv(w, t, arg, entry);
    case SwitchTo(n) =>
      SwitchParks(w.cpu, w.threads[w.cur]);
      OthersIntact(w, w'.cpu.mem);
  }

  lemma SpawnInv(w: World, t: Thread, arg: Word, entry: Word)
    requires Inv(w) && Legal(w, Spawn(t, arg, entry))
    ensures Inv(Next(w, Spawn(t, arg, entry)))
  {
    var m' := Next(w, Spawn(t, arg, entry)).cpu.mem;
    NewThreadParked(w.cpu.mem, t, arg, entry);
    forall u | 0 <= u < |w.threads| && u != w.cur
      ensures Parked(m', w.threads[u], w.due[u])
    {
      assert Apart(w.threads[u], t);
      ParkedFrame(w.cpu.mem, m', w.threads[u], w.due[u]);
    }
  }

  lemma NewThreadParked(m: Memory, t: Thread, arg: Word, entry: Word)
    requires WellPlaced(t) && !InStack(t, t.cell)
    ensures var sp := t.hi - 128;
            var m' := InitialFrame(m, sp, arg, entry)[t.cell := sp];
            && Parked(m', t, InitialContext(sp, arg, entry))
            && forall a: nat :: a % 8 == 0 && !InStack(t, a) && a != t.cell ==> Read(m', a) == Read(m, a)
  {
    hide InitialFrame, FrameAt, InitialContext;
    var sp := t.hi - 128;
    InitialFrameIs(m, sp, arg, entry);
    CellApart(InitialFrame(m, sp, arg, entry), t, sp);
  }

  /** Storing the stack pointer in its cell leaves the frame alone. */
  lemma CellApart(m: Memory, t: Thread, sp: Word)
    requires WellPlaced(t) && !InStack(t, t.cell) && sp + 128 == t.hi
    ensures FrameAt(m[t.cell := sp], sp) == FrameAt(m, sp)
  {
    hide FrameAt, InStack, Slot;
    var m' := m[t.cell := sp];
    forall i: nat | i <= 15
      ensures Read(m', Slot(sp, i)) == Read(m, Slot(sp, i))
    {
      FrameWord(t, sp, i);
    }
    SameFrame(m, m', sp);
  }

  // ---------------------------------------------------------------- runs

  predicate LegalRun(w: World, acts: seq<Action>)
    requires w.cur < |w.threads| == |w.due|
    decreases |acts|
  {
    acts == [] || (Legal(w, acts[0]) && var w1 := Next(w, acts[0]); w1.cur < |w1.threads| == |w1.due| && LegalRun(w1, acts[1..]))
  }

  function Run(w: World, acts: seq<Action>): World
    requires w.cur < |w.threads| == |w.due| && LegalRun(w, acts)
    decreases |acts|
  {
    if acts == [] then w else Run(Next(w, acts[0]), acts[1..])
  }

  /** Thread `t` never has the CPU before the end of the run. */
  predicate StaysOut(w: World, acts: seq<Action>, t: nat)
    requires w.cur < |w.threads| == |w.due| && LegalRun(w, acts)
    decreases |acts|
  {
    acts == [] || (w.cur != t && StaysOut(Next(w, acts[0]), acts[1..], t))
  }

  /** Over every run each parked thread keeps an intact frame with the context it is to resume with. */
  lemma {:induction false} RunInv(w: World, acts: seq<Action>)
    requires Inv(w) && LegalRun(w, acts)
    ensures Inv(Run(w, acts))
    decreases |acts|
  {
    if acts != [] {
      StepInv(w, acts[0]);
      RunInv(Next(w, acts[0]), acts[1..]);
    }
  }

  lemma {:induction false} ExpectKept(w: World, acts: seq<Action>, t: nat)
    requires Inv(w) && LegalRun(w, acts) && t < |w.threads| && StaysOut(w, acts, t)
    ensures Inv(Run(w, acts)) && t < |Run(w, acts).threads|
    ensures Run(w, acts).due[t] == w.due[t] && Run(w, acts).threads[t] == w.threads[t]
    decreases |acts|
  {
    if acts != [] {
      StepInv(w, acts[0]);
      ExpectKept(Next(w, acts[0]), acts[1..], t);
    }
  }

  /** No step of another thread writes into a stack. */
  lemma StepLeaves(w: World, act: Action, t: nat, a: nat)
    requires Inv(w) && Legal(w, act) && t < |w.threads| && t != w.cur && InStack(w.threads[t], a) && a % 8 == 0
    ensures Read(Next(w, act).cpu.mem, a) == Read(w.cpu.mem, a)
  {
    hide FrameAt, Switch, InitialFrame, InitialContext, CallSite;
    var me, you := w.threads[w.cur], w.threads[t];
    assert if t < w.cur then Apart(you, me) else Apart(me, you);
    match act
    case Compute(_, _, _) =>
    case Store(_, _) =>
    case Spawn(u, arg, entry) =>
      assert Apart(you, u);
      NewThreadParked(w.cpu.mem, u, arg, entry);
    case SwitchTo(n) =>
      SwitchParks(w.cpu, me);
  }

  /** While a thread is switched out, its stack does not change. */
  lemma {:induction false} StackKept(w: World, acts: seq<Action>, t: nat, a: nat)
    requires Inv(w) && LegalRun(w, acts) && t < |w.threads| && StaysOut(w, acts, t) && InStack(w.threads[t], a) && a % 8 == 0
    ensures Read(Run(w, acts).cpu.mem, a) == Read(w.cpu.mem, a)
    decreases |acts|
  {
    if acts != [] {
      StepInv(w, acts[0]);
      StepLeaves(w, acts[0], t, a);
      hide Inv, Legal;
      StackKept(Next(w, acts[0]), acts[1..], t, a);
    }
  }

  /** The call itself writes the fifteen words below the return address only. */
  lemma CallLeaves(w: World, away: nat, a: nat)
    requires Inv(w) && Legal(w, SwitchTo(away)) && InStack(w.threads[w.cur], a) && a % 8 == 0
    requires a < w.cpu.rsp - 120 || w.cpu.rsp <= a
    ensures Read(Next(w, SwitchTo(away)).cpu.mem, a) == Read(w.cpu.mem, a)
  {
    hide FrameAt;
    PushedRead(w.cpu.mem, w.cpu.rsp, w.cpu.regs, |w.cpu.regs|, a);
    hide Pushed;
  }

  /** The running thread switches to `away`, the others run, and one of them switches back. */
  ghost predicate ComesBack(w: World, away: nat, acts: seq<Action>) {
    && Inv(w) && Legal(w, SwitchTo(away))
    && var w1 := Next(w, SwitchTo(away));
       && LegalRun(w1, acts) && StaysOut(w1, acts, w.cur)
       && var w2 := Run(w1, acts);
          w2.cur < |w2.threads| == |w2.due| && w.cur < |w2.threads| && Legal(w2, SwitchTo(w.cur))
  }

  ghost function Back(w: World, away: nat, acts: seq<Action>): World
    requires ComesBack(w, away, acts)
  {
    Next(Run(Next(w, SwitchTo(away)), acts), SwitchTo(w.cur))
  }

  /**
   Context integrity: a thread that calls context_switch and is resumed after any legal run of the
   others continues right after its call with all fifteen registers and its stack pointer as they were, and
   with every word of its stack but the fifteen that the call itself pushed.
   */
  lemma ResumeRestores(w: World, away: nat, acts: seq<Action>)
    requires ComesBack(w, away, acts)
    ensures ContextOf(Back(w, away, acts).cpu) == CallSite(w.cpu)
    ensures forall a: nat :: InStack(w.threads[w.cur], a) && a % 8 == 0 && (a < w.cpu.rsp - 120 || w.cpu.rsp <= a) ==>
              Read(Back(w, away, acts).cpu.mem, a) == Read(w.cpu.mem, a)
  {
    ContextBack(w, away, acts);
    forall a: nat | InStack(w.threads[w.cur], a) && a % 8 == 0 && (a < w.cpu.rsp - 120 || w.cpu.rsp <= a)
      ensures Read(Back(w, away, acts).cpu.mem, a) == Read(w.cpu.mem, a)
    {
      StackBack(w, away, acts, a);
    }
  }

  lemma ContextBack(w: World, away: nat, acts: seq<Action>)
    requires ComesBack(w, away, acts)
    ensures ContextOf(Back(w, away, acts).cpu) == CallSite(w.cpu)
  {
    hide FrameAt, Switch, CallSite;
    StepInv(w, SwitchTo(away));
    var w1 := Next(w, SwitchTo(away));
    ExpectKept(w1, acts, w.cur);
    StepInv(Run(w1, acts), SwitchTo(w.cur));
  }

  lemma StackBack(w: World, away: nat, acts: seq<Action>, a: nat)
    requires ComesBack(w, away, acts)
    requires InStack(w.threads[w.cur], a) && a % 8 == 0 && (a < w.cpu.rsp - 120 || w.cpu.rsp <= a)
    ensures Read(Back(w, away, acts).cpu.mem, a) == Read(w.cpu.mem, a)
  {
    StepInv(w, SwitchTo(away));
    var w1 := Next(w, SwitchTo(away));
    ExpectKept(w1, acts, w.cur);
    hide Inv, LegalRun, StaysOut, Run, InStack, Switch, CallSite, FrameAt;
    CallLeaves(w, away, a);
    StackKept(w1, acts, w.cur, a);
    StepLeaves(Run(w1, acts), SwitchTo(w.cur), w.cur, a);
  }

  /** A new thread's first resume, after any run, enters its entry function with rdi = arg on an empty stack. */
  lemma FirstResume(w: World, t: Thread, arg: Word, entry: Word, acts: seq<Action>)
    requires Inv(w) && Legal(w, Spawn(t, arg, entry))
    requires var w1 := Next(w, Spawn(t, arg, entry));
             && LegalRun(w1, acts) && StaysOut(w1, acts, |w.threads|)
             && (var w2 := Run(w1, acts); |w.threads| < |w2.threads| == |w2.due| && w2.cur < |w2.threads| && Legal(w2, SwitchTo(|w.threads|)))
    ensures var w2 := Run(Next(w, Spawn(t, arg, entry)), acts);
            var c := Next(w2, SwitchTo(|w.threads|)).cpu;
            c.rip == entry && c.regs[RDI] == arg && c.rsp == t.hi
            && forall i :: 0 <= i < 15 && i != RDI ==> c.regs[i] == 0
  {
    StepInv(w, Spawn(t, arg, entry));
    var w1 := Next(w, Spawn(t, arg, entry));
    ExpectKept(w1, acts, |w.threads|);
    StepInv(Run(w1, acts), SwitchTo(|w.threads|));
    var c := Next(Run(w1, acts), SwitchTo(|w.threads|)).cpu;
    assert ContextOf(c) == InitialContext(t.hi - 128, arg, entry);
  }
}
