/** The virtual memory manager as the kernel runs it: loops and writes over one physical memory. */
module Vmm {
  import opened Words
  import opened Paging
  import opened PageTree

  class AddressSpace {
    var pml4: nat
    var cr3: nat

    constructor (pml4: nat, cr3: nat)
      ensures this.pml4 == pml4 && this.cr3 == cr3
    {
      this.pml4, this.cr3 := pml4, cr3;
    }
  }

  class Manager {
    const heap: Heap.BumpHeap
    var mem: Memory
    var kernelPml4: nat

    constructor (heap: Heap.BumpHeap)
      ensures this.heap == heap && mem == map[] && kernelPml4 == 0
    {
      this.heap := heap;
      mem, kernelPml4 := map[], 0;
    }

    function Model(): Vm
      reads this, heap
    {
      Vm(mem, heap.Model())
    }

    ghost predicate Valid()
      reads this, heap
    {
      Heap.Valid(Heap.Ready(heap.Model())) && Heap.Ready(heap.Model()).limit <= 0x10_0000_0000_0000
    }

    /** NULL as 0. */
    static function Pointer(t: Option<nat>): nat {
      match t case None => 0 case Some(a) => a
    }

    method Clear(t: nat)
      modifies this`mem
      ensures mem == ZeroTable(old(mem), t)
    {
      ghost var zeros: seq<Word> := seq(ENTRIES, _ => 0);
      for i := 0 to ENTRIES
        invariant mem == WriteWords(old(mem), t, zeros[..i])
      {
        mem := mem[Slot(t, i) := 0];
        assert zeros[..i + 1][..i] == zeros[..i];
      }
      assert zeros[..ENTRIES] == zeros;
    }

    method NewTable() returns (t: nat)
      requires Valid()
      modifies this`mem, heap
      ensures Valid() && Model() == AllocTable(old(Model())).0
      ensures t == Pointer(AllocTable(old(Model())).1)
      ensures t != 0 <==> AllocTable(old(Model())).1.Some?
    {
      Heap.KmallocPlain(heap.Model(), PAGE);
      t := heap.Allocate(PAGE);
      if t == 0 { return; }
      Clear(t);
    }

    method Next(table: nat, i: nat, flags: Word, create: bool) returns (t: nat)
      requires Valid()
      modifies this`mem, heap
      ensures Valid() && Model() == NextTable(old(Model()), table, i, flags, create).0
      ensures t == Pointer(NextTable(old(Model()), table, i, flags, create).1)
    {
      var e := Read(mem, Slot(table, i));
      if Present(e) { return EntryAddr(e); }
      if !create { return 0; }
      t := NewTable();
      if t == 0 { return; }
      mem := mem[Slot(table, i) := MakeEntry(Wrap(t), flags)];
    }

    method Map(space: AddressSpace?, virt: nat, phys: Word, flags: Word) returns (code: int)
      requires Valid()
      modifies this`mem, heap
      ensures Valid()
      ensures space == null ==> code == -1 && Model() == old(Model())
      ensures space != null ==> (Model(), code) == MapPage(old(Model()), space.pml4, virt, phys, flags)
    {
      if space == null || space.pml4 == 0 { return -1; }
      var i4 := virt / 0x80_0000_0000 % 512;
      var i3 := virt / 0x4000_0000 % 512;
      var i2 := virt / 0x20_0000 % 512;
      var i1 := virt / 0x1000 % 512;
      var pdpt := Next(space.pml4, i4, flags, true);
      if pdpt == 0 { return -2; }
      var pd := Next(pdpt, i3, flags, true);
      if pd == 0 { return -3; }
      var pt := Next(pd, i2, flags, true);
      if pt == 0 { return -4; }
      mem := mem[Slot(pt, i1) := MakeEntry(phys, flags)];
      return 0;
    }

    method Unmap(space: AddressSpace?, virt: nat) returns (code: int)
      requires Valid()
      modifies this`mem, heap
      ensures Valid()
      ensures space == null ==> code == -1 && Model() == old(Model())
      ensures space != null ==> (Model(), code) == UnmapPage(old(Model()), space.pml4, virt)
    {
      if space == null || space.pml4 == 0 { return -1; }
      var i4 := virt / 0x80_0000_0000 % 512;
      var i3 := virt / 0x4000_0000 % 512;
      var i2 := virt / 0x20_0000 % 512;
      var i1 := virt / 0x1000 % 512;
      var pdpt := Next(space.pml4, i4, 0, false);
      if pdpt == 0 { return -2; }
      var pd := Next(pdpt, i3, 0, false);
      if pd == 0 { return -3; }
      var pt := Next(pd, i2, 0, false);
      if pt == 0 { return -4; }
      mem := mem[Slot(pt, i1) := 0];
      return 0;
    }

    /** The loop of vmm_create_address_space; the tables do not overlap. */
    method Copy(from: nat, to: nat)
      requires from + PAGE <= to
      modifies this`mem
      ensures mem == WriteWords(old(mem), to, TableWords(old(mem), from))
    {
      ghost var words := TableWords(mem, from);
      for i := 0 to ENTRIES
        invariant mem == WriteWords(old(mem), to, words[..i])
      {
        WriteWordsRead(old(mem), to, words[..i], Slot(from, i));
        mem := mem[Slot(to, i) := Read(mem, Slot(from, i))];
        assert words[..i + 1][..i] == words[..i];
      }
      assert words[..ENTRIES] == words;
    }

    method Create() returns (space: AddressSpace?)
      requires Valid() && kernelPml4 + PAGE <= Heap.Ready(heap.Model()).ptr
      modifies this`mem, heap
      ensures Valid() && Model() == CreateSpace(old(Model()), kernelPml4).0
      ensures match CreateSpace(old(Model()), kernelPml4).1
              case None => space == null
              case Some(s) => space != null && fresh(space) && space.pml4 == s.pml4 && space.cr3 == s.cr3
    {
      Heap.KmallocPlain(heap.Model(), AS_STRUCT_SIZE);
      var p := heap.Allocate(AS_STRUCT_SIZE);
      if p == 0 { return null; }
      var pml4 := NewTable();
      if pml4 == 0 { return null; }
      if kernelPml4 != 0 { Copy(kernelPml4, pml4); }
      space := new AddressSpace(pml4, EntryAddr(Wrap(pml4)));
    }
  }
}
