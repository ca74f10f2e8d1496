/** context_switch instruction by instruction, and the stack process_create prepares for it. */
module SwitchMachine {
  import opened Words
  import opened Paging
  import opened ContextSwitch

  // register numbers, in the order of Registers; RSI and RDI are in ContextSwitch
  const RAX: nat := 0
  const RBX: nat := 1
  const RCX: nat := 2
  const RDX: nat := 3
  const RBP: nat := 6
  const R8: nat := 7
  const R9: nat := 8
  const R10: nat := 9
  const R11: nat := 10
  const R12: nat := 11
  const R13: nat := 12
  const R14: nat := 13
  const R15: nat := 14

  class Machine {
    var gpr: Registers
    var rsp: nat
    var rip: Word
    var mem: Memory

    // where a save or restore began, and how many registers it has moved
    ghost var start: Cpu
    ghost var depth: nat

    function Model(): Cpu
      reads this
    {
      Cpu(gpr, rsp, rip, mem)
    }

    ghost predicate Saving()
      reads this
    {
      depth <= |start.regs| && 8 * depth <= start.rsp && gpr == start.regs
      && mem == Pushed(start.mem, start.rsp, start.regs, depth) && rsp == start.rsp - 8 * depth
    }

    /** pushq of register `r`; the save must take them from the last to the first. */
    method Push(r: nat)
      requires r < 15 && Saving() && r == 14 - depth && 8 <= rsp
      modifies this`rsp, this`mem, this`depth
      ensures Saving() && depth == old(depth) + 1 && rsp == old(rsp) - 8
    {
      rsp := rsp - 8;
      mem := mem[rsp := gpr[r]];
      depth := depth + 1;
    }

    ghost predicate Restoring()
      reads this
    {
      depth <= 15 && rsp == start.rsp + 8 * depth
      && forall i :: 0 <= i < depth ==> gpr[i] == Read(mem, Slot(start.rsp, i))
    }

    /** popq into register `r`; the restore must fill them from the first to the last. */
    method Pop(r: nat)
      requires r < 15 && Restoring() && r == depth
      modifies this`rsp, this`gpr, this`depth
      ensures Restoring() && depth == old(depth) + 1
    {
      gpr := gpr[r := Read(mem, rsp)];
      rsp := rsp + 8;
      depth := depth + 1;
    }

    method SaveRegisters()
      requires rsp >= 120
      modifies this`rsp, this`mem, this`start, this`depth
      ensures mem == Pushed(old(mem), old(rsp), gpr, |gpr|) && rsp == old(rsp) - 120
    {
      start, depth := Model(), 0;
      Push(R15);
      Push(R14);
      Push(R13);
      Push(R12);
      Push(R11);
      Push(R10);
      Push(R9);
      Push(R8);
      Push(RBP);
      Push(RDI);
      Push(RSI);
      Push(RDX);
      Push(RCX);
      Push(RBX);
      Push(RAX);
    }

    lemma NothingMoved()
      requires rsp == start.rsp && depth == 0
      ensures Restoring()
    {
    }

    /** After fifteen pops the registers are the frame's and the return address is on top. */
    lemma Restored()
      requires Restoring() && depth == 15
      ensures rsp == start.rsp + 120 && FrameAt(mem, start.rsp) == Context(gpr, Read(mem, rsp), rsp + 8)
    {
      assert gpr == FrameAt(mem, start.rsp).regs;
    }

    method RestoreRegisters()
      modifies this`gpr, this`rsp, this`rip, this`start, this`depth
      ensures ContextOf(Model()) == FrameAt(mem, old(rsp))
    {
      hide Restoring, FrameAt;
      start, depth := Model(), 0;
      NothingMoved();
      PopClassic();
      PopExtended();
      Restored();
      rip := Read(mem, rsp);
      rsp := rsp + 8;
    }

    method PopClassic()
      requires Restoring() && depth == 0
      modifies this`rsp, this`gpr, this`depth
      ensures Restoring() && depth == 7
    {
      hide Restoring;
      Pop(RAX);
      Pop(RBX);
      Pop(RCX);
      Pop(RDX);
      Pop(RSI);
      Pop(RDI);
      Pop(RBP);
    }

    method PopExtended()
      requires Restoring() && depth == 7
      modifies this`rsp, this`gpr, this`depth
      ensures Restoring() && depth == 15
    {
      hide Restoring;
      Pop(R8);
      Pop(R9);
      Pop(R10);
      Pop(R11);
      Pop(R12);
      Pop(R13);
      Pop(R14);
      Pop(R15);
    }

    method ContextSwitch()
      requires rsp >= 120
      modifies this
      ensures Model() == Switch(old(Model()))
    {
      SaveRegisters();
      mem := mem[gpr[RDI] := Wrap(rsp)];
      rsp := gpr[RSI];
      RestoreRegisters();
    }

    /** The end of process_create: the frame at the top of a new stack; returns the saved stack pointer. */
    method PrepareStack(stack: nat, size: nat, arg: Word, entry: Word) returns (sp: nat)
      requires stack + size >= 144
      modifies this`mem
      ensures var top := stack + size - (stack + size) % 16;
              sp == top - 128 && mem == InitialFrame(old(mem), sp, arg, entry)
    {
      var top := stack + size;
      top := top - top % 16;
      sp := top - 16 * 8;
      ghost var zeros: seq<Word> := seq(16, _ => 0);
      for i := 0 to 16
        invariant mem == WriteWords(old(mem), sp, zeros[..i])
      {
        mem := mem[Slot(sp, i) := 0];
        assert zeros[..i + 1][..i] == zeros[..i];
      }
      assert zeros[..16] == zeros;
      mem := mem[Slot(sp, 5) := arg];
      mem := mem[Slot(sp, 15) := entry];
    }
  }
}
