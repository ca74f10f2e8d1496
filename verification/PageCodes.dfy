/** Which code a map and an unmap return, and what a space made before the kernel has tables is like. */
module PageCodes {
  import opened Words
  import opened Paging
  import opened PageTree
  import opened PageMapping
  import opened PageLimits

  /** The code when `missing - 1` tables have to be made, from level `missing - 1` down, with `room` bytes of heap. */
  function CodeFor(missing: nat, room: nat): int
    requires 1 <= missing <= 4
  {
    if (missing - 1) * PAGE <= room then 0 else missing - room / PAGE - 6
  }

  /** Below an empty entry every table down to level 1 has to be made. */
  lemma {:induction false} MapFreshCode(vm: Vm, t: nat, virt: Indices, phys: Word, flags: Word, level: nat)
    requires Heap.Valid(vm.heap) && vm.heap.limit <= 0x10_0000_0000_0000
    requires 1 <= level <= 4 && t + PAGE <= vm.heap.ptr
    requires level > 1 ==> !Present(EntryOf(vm.mem, t, Index(virt, level)))
    ensures MapFrom(vm, t, virt, phys, flags, level).1 == CodeFor(level, vm.heap.limit - vm.heap.ptr)
    decreases level
  {
    hide WithTable, Index, Read, Slot, Present, AfterNewTable, MapFrom, NextTable;
    if level == 1 {
      LeafCode(vm, t, virt, phys, flags);
    } else {
      MapNew(vm, t, virt, phys, flags, level);
      if vm.heap.ptr + PAGE <= vm.heap.limit {
        var vm1 := AfterNewTable(vm, t, Index(virt, level), flags);
        NewTableEmpty(vm, t, virt, flags, level);
        MapFreshCode(vm1, vm.heap.ptr, virt, phys, flags, level - 1);
        OneTableLess(level, vm.heap.limit - vm.heap.ptr);
      }
    }
  }

  lemma LeafCode(vm: Vm, t: nat, virt: Indices, phys: Word, flags: Word)
    ensures MapFrom(vm, t, virt, phys, flags, 1).1 == 0
  {
    hide Index, MakeEntry, Slot;
  }

  lemma OneTableLess(level: nat, room: nat)
    requires 1 < level <= 4 && room >= PAGE
    ensures CodeFor(level, room) == CodeFor(level - 1, room - PAGE)
  {
    QuotRem(room, (room - PAGE) / PAGE + 1, (room - PAGE) % PAGE, PAGE);
  }

  lemma NewTableEmpty(vm: Vm, t: nat, virt: Indices, flags: Word, level: nat)
    requires Heap.Valid(vm.heap) && vm.heap.limit <= 0x10_0000_0000_0000 && vm.heap.ptr + PAGE <= vm.heap.limit
    requires 1 < level <= 4 && t + PAGE <= vm.heap.ptr
    ensures var (p, vm1) := (vm.heap.ptr, AfterNewTable(vm, t, Index(virt, level), flags));
            && Heap.Valid(vm1.heap) && vm1.heap.limit == vm.heap.limit && vm1.heap.ptr == p + PAGE
            && !Present(EntryOf(vm1.mem, p, Index(virt, level - 1)))
  {
    hide WithTable, Index, Read;
    NewTableReads(vm.mem, t, Index(virt, level), vm.heap.ptr, flags, Slot(vm.heap.ptr, Index(virt, level - 1)));
  }

  /**
   A map returns 0 if and only if there is heap for every table that is missing on the path; otherwise -2,
   -3 or -4 says that the table of level 3, 2 or 1 could not be had.
   */
  lemma {:induction false} MapCode(vm: Vm, layout: Layout, t: nat, virt: Indices, phys: Word, flags: Word, level: nat)
    requires Shape(vm, layout) && Ready(layout, t, virt, level) && NoLarge(vm.mem, t, virt, level)
    ensures MapFrom(vm, t, virt, phys, flags, level).1 ==
            CodeFor(FirstMissing(vm.mem, t, virt, level), vm.heap.limit - vm.heap.ptr)
    decreases level
  {
    assert TableAt(vm.heap, t);
    if level == 1 {
      LeafCode(vm, t, virt, phys, flags);
    } else if Present(EntryOf(vm.mem, t, Index(virt, level))) {
      StepDown(vm, layout, t, virt, level);
      MapDown(vm, t, virt, phys, flags, level);
      hide Shape, MapFrom, NoLarge;
      MapCode(vm, layout, EntryAddr(EntryOf(vm.mem, t, Index(virt, level))), virt, phys, flags, level - 1);
    } else {
      MapFreshCode(vm, t, virt, phys, flags, level);
    }
  }

  /** An unmap returns 0 if and only if all tables exist; otherwise -2, -3 or -4 names the level that is missing. */
  lemma {:induction false} UnmapCode(vm: Vm, layout: Layout, t: nat, virt: Indices, level: nat)
    requires Shape(vm, layout) && Ready(layout, t, virt, level) && NoLarge(vm.mem, t, virt, level)
    ensures var missing := FirstMissing(vm.mem, t, virt, level);
            UnmapFrom(vm, t, virt, level).1 == if missing == 1 then 0 else missing - 6
    decreases level
  {
    if level > 1 && Present(EntryOf(vm.mem, t, Index(virt, level))) {
      StepDown(vm, layout, t, virt, level);
      hide Shape, NoLarge;
      UnmapCode(vm, layout, EntryAddr(EntryOf(vm.mem, t, Index(virt, level))), virt, level - 1);
    }
  }

  /** A NULL space is refused with -1 and nothing has changed. */
  lemma NullSpace(vm: Vm, virt: nat, phys: Word, flags: Word)
    ensures MapPage(vm, 0, virt, phys, flags) == (vm, -1) && UnmapPage(vm, 0, virt) == (vm, -1)
  {
  }

  /** Before vmm_init a new space is empty, and memory below the old heap pointer is untouched. */
  lemma SpaceWithoutKernel(vm: Vm, i: nat, a: nat)
    requires Heap.Valid(vm.heap) && vm.heap.limit <= 0x10_0000_0000_0000 && vm.heap.ptr % 8 == 0
    requires CreateSpace(vm, 0).1.Some? && i < ENTRIES && a < vm.heap.ptr
    ensures var (vm', r) := CreateSpace(vm, 0);
            && r.value.pml4 == vm.heap.ptr + AS_STRUCT_SIZE
            && EntryOf(vm'.mem, r.value.pml4, i) == 0 && Read(vm'.mem, a) == Read(vm.mem, a)
  {
    Heap.KmallocPlain(vm.heap, AS_STRUCT_SIZE);
    Heap.KmallocPlain(Heap.Kmalloc(vm.heap, AS_STRUCT_SIZE).0, PAGE);
    hide Heap.Kmalloc, ZeroTable, EntryAddr, Wrap;
    var p := vm.heap.ptr + AS_STRUCT_SIZE;
    ZeroTableRead(vm.mem, p, Slot(p, i));
    ZeroTableRead(vm.mem, p, a);
  }

  /** The base a large page entry gives: bits 51:21 at level 2, bits 51:30 at level 3. */
  lemma LargeBaseIs(frame: nat, low: nat)
    ensures frame < 0x8000_0000 && low < 0x20_0000 ==>
              frame * 0x20_0000 + low < TWO64 && LargeBase(frame * 0x20_0000 + low, 2) == frame * 0x20_0000
    ensures frame < 0x40_0000 && low < 0x4000_0000 ==>
              frame * 0x4000_0000 + low < TWO64 && LargeBase(frame * 0x4000_0000 + low, 3) == frame * 0x4000_0000
  {
    if frame < 0x8000_0000 && low < 0x20_0000 { QuotRem(frame * 0x20_0000 + low, frame, low, 0x20_0000); }
    if frame < 0x40_0000 && low < 0x4000_0000 { QuotRem(frame * 0x4000_0000 + low, frame, low, 0x4000_0000); }
  }
}
