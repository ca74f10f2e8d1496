/**
 Exactly when a successful vmm_map_page takes effect. The allocator only rounds to 8 bytes while a
 table entry keeps bits 51:12 of the table's address, and the caller's flags are copied into the
 entries of new tables, where bit 7 means a large page.
 */
module PageLimits {
  import opened Words
  import opened Paging
  import opened PageTree
  import opened PageMapping

  /** The level of the first entry on the path that is not present, 1 when the level 1 table exists. */
  function FirstMissing(m: Memory, t: nat, virt: Indices, level: nat): (l: nat)
    requires 1 <= level <= 4
    ensures 1 <= l <= level
    decreases level
  {
    if level == 1 then 1
    else
      var e := EntryOf(m, t, Index(virt, level));
      if !Present(e) then level else FirstMissing(m, EntryAddr(e), virt, level - 1)
  }

  lemma {:induction false} MapWithoutAllocation(vm: Vm, layout: Layout, t: nat, virt: Indices, phys: Word, flags: Word, level: nat)
    requires Shape(vm, layout) && Ready(layout, t, virt, level) && NoLarge(vm.mem, t, virt, level)
    requires FirstMissing(vm.mem, t, virt, level) == 1
    ensures var (vm', code) := MapFrom(vm, t, virt, phys, flags, level);
            && Kept(vm, layout, vm', layout, t, virt, level, code)
            && code == 0 && vm'.heap == vm.heap
            && Walk(vm'.mem, t, virt, level) == Some(Wanted(phys, flags))
    decreases level
  {
    if level == 1 {
      EntryRoundTrip(phys, flags);
      LeafWrite(vm, layout, t, virt, MakeEntry(phys, flags));
    } else {
      var i := Index(virt, level);
      StepDown(vm, layout, t, virt, level);
      var next := EntryAddr(EntryOf(vm.mem, t, i));
      MapWithoutAllocation(vm, layout, next, virt, phys, flags, level - 1);
      var vm' := MapFrom(vm, next, virt, phys, flags, level - 1).0;
      KeptThrough(vm, layout, vm, layout, vm', layout, t, next, virt, level, 0);
    }
  }

  /** Below an empty slot a map writes that slot and fresh memory only, wherever the fresh memory starts. */
  lemma {:induction false} WritesBelowEmptySlot(vm: Vm, t: nat, virt: Indices, phys: Word, flags: Word, level: nat, a: nat)
    requires Heap.Valid(vm.heap) && vm.heap.limit <= 0x10_0000_0000_0000
    requires 1 <= level <= 4 && t + PAGE <= vm.heap.ptr
    requires level > 1 ==> !Present(EntryOf(vm.mem, t, Index(virt, level)))
    requires a < vm.heap.ptr && a != Slot(t, Index(virt, level))
    ensures Read(MapFrom(vm, t, virt, phys, flags, level).0.mem, a) == Read(vm.mem, a)
    decreases level
  {
    hide MapFrom, WithTable, Index, Read, Slot, Present, AfterNewTable, Heap.Kmalloc;
    if level == 1 {
      LeafWritesOnce(vm, t, virt, phys, flags, a);
    } else {
      MapNew(vm, t, virt, phys, flags, level);
      if vm.heap.ptr + PAGE <= vm.heap.limit {
        NewTableBelow(vm, t, virt, flags, level, a);
        WritesBelowEmptySlot(AfterNewTable(vm, t, Index(virt, level), flags), vm.heap.ptr, virt, phys, flags, level - 1, a);
      }
    }
  }

  lemma LeafWritesOnce(vm: Vm, t: nat, virt: Indices, phys: Word, flags: Word, a: nat)
    requires a != Slot(t, Index(virt, 1))
    ensures Read(MapFrom(vm, t, virt, phys, flags, 1).0.mem, a) == Read(vm.mem, a)
  {
    hide Index, MakeEntry, Slot;
  }

  /** A new table hides nothing old, and its own entries are empty. */
  lemma NewTableBelow(vm: Vm, t: nat, virt: Indices, flags: Word, level: nat, a: nat)
    requires Heap.Valid(vm.heap) && vm.heap.limit <= 0x10_0000_0000_0000 && vm.heap.ptr + PAGE <= vm.heap.limit
    requires 1 < level <= 4 && t + PAGE <= vm.heap.ptr
    requires a < vm.heap.ptr && a != Slot(t, Index(virt, level))
    ensures var (p, vm1) := (vm.heap.ptr, AfterNewTable(vm, t, Index(virt, level), flags));
            && Heap.Valid(vm1.heap) && vm1.heap.limit == vm.heap.limit && p + PAGE <= vm1.heap.ptr
            && Read(vm1.mem, a) == Read(vm.mem, a)
            && a < vm1.heap.ptr && a != Slot(p, Index(virt, level - 1))
            && !Present(EntryOf(vm1.mem, p, Index(virt, level - 1)))
  {
    hide WithTable, Index, Read;
    var i, j, p := Index(virt, level), Index(virt, level - 1), vm.heap.ptr;
    NewTableReads(vm.mem, t, i, p, flags, a);
    NewTableReads(vm.mem, t, i, p, flags, Slot(p, j));
  }

  /** Where the entry is empty, a map goes on in a new table, or stops for want of heap. */
  lemma MapNew(vm: Vm, t: nat, virt: Indices, phys: Word, flags: Word, level: nat)
    requires Heap.Valid(vm.heap) && vm.heap.limit <= 0x10_0000_0000_0000
    requires 1 < level <= 4 && !Present(EntryOf(vm.mem, t, Index(virt, level)))
    ensures MapFrom(vm, t, virt, phys, flags, level) ==
            if vm.heap.ptr + PAGE > vm.heap.limit then (vm, level - 6)
            else MapFrom(AfterNewTable(vm, t, Index(virt, level), flags), vm.heap.ptr, virt, phys, flags, level - 1)
  {
    NextTableAllocates(vm, t, Index(virt, level), flags);
    hide NextTable, Index;
  }

  lemma NewTableReads(m: Memory, t: nat, i: nat, p: Word, flags: Word, a: nat)
    requires a != Slot(t, i)
    ensures Read(WithTable(m, t, i, p, flags), a) == if p <= a < p + PAGE && (a - p) % 8 == 0 then 0 else Read(m, a)
  {
    ZeroTableRead(m, p, a);
    hide ZeroTable;
  }

  /** The first new table would be looked up at an entry that the kernel has just cleared. */
  predicate ReadsCleared(vm: Vm, virt: Indices, missing: nat) {
    1 < missing <= 4 ==> vm.heap.ptr % 8 == 0 && vm.heap.ptr % PAGE <= 8 * Index(virt, missing - 1)
  }

  lemma {:induction false} MapBroken(vm: Vm, layout: Layout, t: nat, virt: Indices, phys: Word, flags: Word, level: nat)
    requires Shape(vm, layout) && Ready(layout, t, virt, level) && NoLarge(vm.mem, t, virt, level)
    requires MapFrom(vm, t, virt, phys, flags, level).1 == 0
    requires FirstMissing(vm.mem, t, virt, level) > 1
    requires Large(flags) || (!Aligned(vm) && ReadsCleared(vm, virt, FirstMissing(vm.mem, t, virt, level)))
    ensures var m' := MapFrom(vm, t, virt, phys, flags, level).0.mem;
            && Walk(m', t, virt, level) != Some(Wanted(phys, flags))
            && (forall u, j :: u in layout && LevelOf(layout[u]) > level && 0 <= j < ENTRIES ==>
                  EntryOf(m', u, j) == EntryOf(vm.mem, u, j))
    decreases level
  {
    var i := Index(virt, level);
    var m' := MapFrom(vm, t, virt, phys, flags, level).0.mem;
    if Present(EntryOf(vm.mem, t, i)) {
      StepDown(vm, layout, t, virt, level);
      MapBroken(vm, layout, EntryAddr(EntryOf(vm.mem, t, i)), virt, phys, flags, level - 1);
      assert EntryOf(m', t, i) == EntryOf(vm.mem, t, i);
    } else {
      forall u, j | u in layout && LevelOf(layout[u]) > level && 0 <= j < ENTRIES
        ensures EntryOf(m', u, j) == EntryOf(vm.mem, u, j)
      {
        if Slot(u, j) == Slot(t, i) {
          SlotsDistinct(u, j, t, i);
        }
        WritesBelowEmptySlot(vm, t, virt, phys, flags, level, Slot(u, j));
      }
      BrokenEntry(vm, t, virt, phys, flags, level);
    }
  }

  /** A map that succeeds although the entry at `level` is empty has made a table at the heap pointer. */
  lemma NewTable(vm: Vm, t: nat, virt: Indices, phys: Word, flags: Word, level: nat)
    requires Heap.Valid(vm.heap) && vm.heap.limit <= 0x10_0000_0000_0000
    requires 1 < level <= 4
    requires !Present(EntryOf(vm.mem, t, Index(virt, level)))
    requires MapFrom(vm, t, virt, phys, flags, level).1 == 0
    ensures vm.heap.ptr + PAGE <= vm.heap.limit
    ensures MapFrom(vm, t, virt, phys, flags, level)
            == MapFrom(AfterNewTable(vm, t, Index(virt, level), flags), vm.heap.ptr, virt, phys, flags, level - 1)
  {
    NextTableAllocates(vm, t, Index(virt, level), flags);
  }

  lemma WithTableCleared(m: Memory, t: nat, i: nat, p: Word, flags: Word, a: nat)
    requires t + PAGE <= p && i < ENTRIES && p <= a < p + PAGE && (a - p) % 8 == 0
    ensures Read(WithTable(m, t, i, p, flags), a) == 0
  {
    ZeroTableRead(m, p, a);
  }

  lemma ShiftedSlot(p: nat, j: nat)
    requires p % 8 == 0 && 0 < p % PAGE <= 8 * j && j < ENTRIES
    ensures p <= Slot(PageDown(p), j) < Slot(p, j) < p + PAGE
    ensures (Slot(PageDown(p), j) - p) % 8 == 0
  {
  }

  /** The rest of the map leaves the new entry, and every cleared word it does not use, as they are. */
  lemma RestLeaves(vm1: Vm, p: Word, virt: Indices, phys: Word, flags: Word, level: nat, a: nat, e: Word)
    requires Heap.Valid(vm1.heap) && vm1.heap.limit <= 0x10_0000_0000_0000 && vm1.heap.ptr == p + PAGE
    requires 1 <= level <= 3 && Read(vm1.mem, Slot(p, Index(virt, level))) == 0
    requires a < p + PAGE && a != Slot(p, Index(virt, level)) && Read(vm1.mem, a) == e
    ensures Read(MapFrom(vm1, p, virt, phys, flags, level).0.mem, a) == e
  {
    WritesBelowEmptySlot(vm1, p, virt, phys, flags, level, a);
  }

  lemma NewEntryStays(vm: Vm, t: nat, i: nat, virt: Indices, phys: Word, flags: Word, level: nat)
    requires 1 <= level <= 3 && t + PAGE <= vm.heap.ptr && i < ENTRIES
    requires 0 < vm.heap.ptr && vm.heap.ptr + PAGE <= vm.heap.limit <= 0x10_0000_0000_0000
    ensures EntryOf(MapFrom(AfterNewTable(vm, t, i, flags), vm.heap.ptr, virt, phys, flags, level).0.mem, t, i)
            == MakeEntry(vm.heap.ptr, flags)
  {
    var p, j := vm.heap.ptr, Index(virt, level);
    WithTableCleared(vm.mem, t, i, p, flags, Slot(p, j));
    RestLeaves(AfterNewTable(vm, t, i, flags), p, virt, phys, flags, level, Slot(t, i), MakeEntry(p, flags));
  }

  /** The address a misaligned table is looked up at holds a cleared word. */
  lemma ShiftedLookup(vm: Vm, t: nat, i: nat, virt: Indices, phys: Word, flags: Word, level: nat)
    requires 1 <= level <= 3 && t + PAGE <= vm.heap.ptr && i < ENTRIES
    requires 0 < vm.heap.ptr && vm.heap.ptr + PAGE <= vm.heap.limit <= 0x10_0000_0000_0000
    requires vm.heap.ptr % 8 == 0 && 0 < vm.heap.ptr % PAGE <= 8 * Index(virt, level)
    ensures EntryOf(MapFrom(AfterNewTable(vm, t, i, flags), vm.heap.ptr, virt, phys, flags, level).0.mem,
                    PageDown(vm.heap.ptr), Index(virt, level)) == 0
  {
    var p, j := vm.heap.ptr, Index(virt, level);
    WithTableCleared(vm.mem, t, i, p, flags, Slot(p, j));
    ShiftedSlot(p, j);
    WithTableCleared(vm.mem, t, i, p, flags, Slot(PageDown(p), j));
    RestLeaves(AfterNewTable(vm, t, i, flags), p, virt, phys, flags, level, Slot(PageDown(p), j), 0);
  }

  lemma BrokenEntry(vm: Vm, t: nat, virt: Indices, phys: Word, flags: Word, level: nat)
    requires Heap.Valid(vm.heap) && vm.heap.limit <= 0x10_0000_0000_0000
    requires 1 < level <= 4 && TableAt(vm.heap, t)
    requires !Present(EntryOf(vm.mem, t, Index(virt, level)))
    requires MapFrom(vm, t, virt, phys, flags, level).1 == 0
    requires Large(flags) || (!Aligned(vm) && ReadsCleared(vm, virt, level))
    ensures Walk(MapFrom(vm, t, virt, phys, flags, level).0.mem, t, virt, level) != Some(Wanted(phys, flags))
  {
    var m' := MapFrom(vm, t, virt, phys, flags, level).0.mem;
    var i := Index(virt, level);
    NewTable(vm, t, virt, phys, flags, level);
    NewEntryStays(vm, t, i, virt, phys, flags, level - 1);
    EntryRoundTrip(vm.heap.ptr, flags);
    if Large(flags) {
      LargeAbove(m', t, virt, level);
    } else {
      SeenAddress(vm.heap.ptr);
      ShiftedLookup(vm, t, i, virt, phys, flags, level - 1);
      FaultsBelow(m', t, PageDown(vm.heap.ptr), virt, level);
    }
  }

  lemma FaultsBelow(m: Memory, t: nat, next: nat, virt: Indices, level: nat)
    requires 1 < level <= 4
    requires var e := EntryOf(m, t, Index(virt, level)); !Large(e) && EntryAddr(e) == next
    requires EntryOf(m, next, Index(virt, level - 1)) == 0
    ensures Walk(m, t, virt, level) == None
  {
  }

  lemma LargeAbove(m: Memory, t: nat, virt: Indices, level: nat)
    requires 1 < level <= 4
    requires Large(EntryOf(m, t, Index(virt, level)))
    ensures Walk(m, t, virt, level).Some? ==> Walk(m, t, virt, level).value.level == level
  {
  }

  lemma SeenAddress(p: nat)
    requires p < 0x10_0000_0000_0000
    ensures EntryAddr(p) == p - p % PAGE
  {
  }

  /** The case without large pages. */
  lemma MapSeenWithoutLarge(vm: Vm, layout: Layout, pml4: nat, virt: nat, phys: Word, flags: Word)
    requires Shape(vm, layout) && Root(layout, pml4) && NoLarge(vm.mem, pml4, Split(virt), 4)
    requires MapPage(vm, pml4, virt, phys, flags).1 == 0
    requires ReadsCleared(vm, Split(virt), FirstMissing(vm.mem, pml4, Split(virt), 4))
    ensures var vm' := MapPage(vm, pml4, virt, phys, flags).0;
            Translate(vm'.mem, pml4, virt) == Some(Wanted(phys, flags))
            <==> FirstMissing(vm.mem, pml4, Split(virt), 4) == 1 || (Aligned(vm) && !Large(flags))
  {
    if FirstMissing(vm.mem, pml4, Split(virt), 4) == 1 {
      MapWithoutAllocation(vm, layout, pml4, Split(virt), phys, flags, 4);
    } else if Aligned(vm) && !Large(flags) {
      MapFromKeeps(vm, layout, pml4, Split(virt), phys, flags, 4);
    } else {
      MapBroken(vm, layout, pml4, Split(virt), phys, flags, 4);
    }
  }

  // ---------------------------------------------------------------- large pages

  /** The source takes what a large page holds for tables; none of those it follows is the page `p`. */
  predicate Avoids(m: Memory, p: nat, t: nat, virt: Indices, level: nat)
    requires 1 <= level <= 4
    decreases level
  {
    && t != p
    && (level > 1 ==>
          var e := EntryOf(m, t, Index(virt, level));
          Present(e) ==> Avoids(m, p, EntryAddr(e), virt, level - 1))
  }

  /** No real table lies where the source looks for tables inside a large page on the path. */
  ghost predicate StraysApart(m: Memory, layout: Layout, t: nat, virt: Indices, level: nat)
    requires 1 <= level <= 4
    decreases level
  {
    level > 1 ==>
      var e := EntryOf(m, t, Index(virt, level));
      Present(e) ==>
        if Large(e) then forall p :: p in layout ==> Avoids(m, p, EntryAddr(e), virt, level - 1)
        else StraysApart(m, layout, EntryAddr(e), virt, level - 1)
  }

  /** A table of which every present entry leads back to it. */
  ghost predicate Closed(m: Memory, c: nat) {
    c % PAGE == 0 && forall j :: 0 <= j < ENTRIES && Present(EntryOf(m, c, j)) ==> EntryAddr(EntryOf(m, c, j)) == c
  }

  lemma SlotElsewhere(t: nat, i: nat, p: nat, a: nat)
    requires t % PAGE == 0 && p % PAGE == 0 && t != p && i < ENTRIES && p <= a < p + PAGE
    ensures Slot(t, i) != a
  {
    assert t == t / PAGE * PAGE && p == p / PAGE * PAGE;
  }

  /** A new table hung into `t`, which may be the very memory it was made from. */
  lemma NewTableClosed(vm: Vm, t: nat, i: nat, flags: Word)
    requires Heap.Valid(vm.heap) && vm.heap.limit <= 0x10_0000_0000_0000 && Aligned(vm) && t % PAGE == 0 && i < ENTRIES
    requires vm.heap.ptr + PAGE <= vm.heap.limit
    ensures Closed(WithTable(vm.mem, t, i, vm.heap.ptr, flags), vm.heap.ptr)
  {
    var c := vm.heap.ptr;
    var m := WithTable(vm.mem, t, i, c, flags);
    EntryRoundTrip(c, flags);
    forall j | 0 <= j < ENTRIES
      ensures Present(EntryOf(m, c, j)) ==> EntryAddr(EntryOf(m, c, j)) == c
    {
      ZeroTableRead(vm.mem, c, Slot(c, j));
    }
  }

  lemma NewTableLeaves(vm: Vm, t: nat, i: nat, flags: Word, p: nat, a: nat)
    requires t % PAGE == 0 && p % PAGE == 0 && t != p && i < ENTRIES && p <= a < p + PAGE <= vm.heap.ptr < TWO64
    ensures Read(WithTable(vm.mem, t, i, vm.heap.ptr, flags), a) == Read(vm.mem, a)
  {
    SlotElsewhere(t, i, p, a);
    ZeroTableRead(vm.mem, vm.heap.ptr, a);
  }

  /** Where the entry is present, a map goes on below it, or stops if it leads to address 0. */
  lemma MapDown(vm: Vm, t: nat, virt: Indices, phys: Word, flags: Word, level: nat)
    requires 1 < level <= 4 && Present(EntryOf(vm.mem, t, Index(virt, level)))
    ensures var next := EntryAddr(EntryOf(vm.mem, t, Index(virt, level)));
            MapFrom(vm, t, virt, phys, flags, level) ==
            if next == 0 then (vm, level - 6) else MapFrom(vm, next, virt, phys, flags, level - 1)
  {
    hide Present, EntryOf, EntryAddr, Index;
  }

  lemma ClosedTable(m: Memory, c: nat, j: nat)
    requires Closed(m, c) && j < ENTRIES
    ensures c % PAGE == 0 && (Present(EntryOf(m, c, j)) ==> EntryAddr(EntryOf(m, c, j)) == c)
  {
    hide Present, EntryAddr, EntryOf;
  }

  lemma AvoidsDown(m: Memory, p: nat, t: nat, virt: Indices, level: nat)
    requires 1 <= level <= 4 && Avoids(m, p, t, virt, level)
    ensures t != p
    ensures level > 1 && Present(EntryOf(m, t, Index(virt, level))) ==>
              Avoids(m, p, EntryAddr(EntryOf(m, t, Index(virt, level))), virt, level - 1)
  {
    hide Present, EntryAddr, EntryOf, Index;
  }

  /** Once in fresh memory, a map stays there. */
  lemma {:induction false} FreshStays(vm: Vm, c: nat, virt: Indices, phys: Word, flags: Word, level: nat, p: nat, a: nat)
    requires Heap.Valid(vm.heap) && vm.heap.limit <= 0x10_0000_0000_0000 && Aligned(vm)
    requires 1 <= level <= 4 && p % PAGE == 0 && p <= a < p + PAGE <= c && c + PAGE <= vm.heap.ptr && Closed(vm.mem, c)
    ensures Read(MapFrom(vm, c, virt, phys, flags, level).0.mem, a) == Read(vm.mem, a)
    decreases level
  {
    hide MapFrom, Closed, Index, Present, Read, EntryOf, Slot, NextTable, EntryAddr;
    var i := Index(virt, level);
    ClosedTable(vm.mem, c, i);
    if level == 1 {
      SlotElsewhere(c, i, p, a);
      LeafWritesOnce(vm, c, virt, phys, flags, a);
    } else if Present(EntryOf(vm.mem, c, i)) {
      MapDown(vm, c, virt, phys, flags, level);
      FreshStays(vm, c, virt, phys, flags, level - 1, p, a);
    } else {
      MapNew(vm, c, virt, phys, flags, level);
      if vm.heap.ptr + PAGE <= vm.heap.limit {
        NewTableClosed(vm, c, i, flags);
        NewTableLeaves(vm, c, i, flags, p, a);
        FreshStays(AfterNewTable(vm, c, i, flags), vm.heap.ptr, virt, phys, flags, level - 1, p, a);
      }
    }
  }

  /** A map inside a large page leaves every page alone that it does not take for a table. */
  lemma {:induction false} StrayWrites(vm: Vm, t: nat, virt: Indices, phys: Word, flags: Word, level: nat, p: nat, a: nat)
    requires Heap.Valid(vm.heap) && vm.heap.limit <= 0x10_0000_0000_0000 && Aligned(vm)
    requires 1 <= level <= 4 && t % PAGE == 0 && p % PAGE == 0 && p <= a < p + PAGE <= vm.heap.ptr
    requires Avoids(vm.mem, p, t, virt, level)
    ensures Read(MapFrom(vm, t, virt, phys, flags, level).0.mem, a) == Read(vm.mem, a)
    decreases level
  {
    hide MapFrom, Closed, Index, Present, Read, Slot, NextTable, EntryAddr, Avoids;
    var i := Index(virt, level);
    AvoidsDown(vm.mem, p, t, virt, level);
    if level == 1 {
      SlotElsewhere(t, i, p, a);
      LeafWritesOnce(vm, t, virt, phys, flags, a);
    } else if Present(EntryOf(vm.mem, t, i)) {
      MapDown(vm, t, virt, phys, flags, level);
      LinkAligned(vm.mem, t, i);
      StrayWrites(vm, EntryAddr(EntryOf(vm.mem, t, i)), virt, phys, flags, level - 1, p, a);
    } else {
      MapNew(vm, t, virt, phys, flags, level);
      if vm.heap.ptr + PAGE <= vm.heap.limit {
        NewTableClosed(vm, t, i, flags);
        NewTableLeaves(vm, t, i, flags, p, a);
        FreshStays(AfterNewTable(vm, t, i, flags), vm.heap.ptr, virt, phys, flags, level - 1, p, a);
      }
    }
  }

  lemma LinkAligned(m: Memory, t: nat, i: nat)
    ensures EntryAddr(EntryOf(m, t, i)) % PAGE == 0
  {
  }

  lemma SmallStep(vm: Vm, layout: Layout, t: nat, virt: Indices, level: nat)
    requires Shape(vm, layout) && Ready(layout, t, virt, level) && level > 1
    requires var e := EntryOf(vm.mem, t, Index(virt, level)); Present(e) && !Large(e)
    ensures Ready(layout, EntryAddr(EntryOf(vm.mem, t, Index(virt, level))), virt, level - 1)
  {
    assert Linked(vm.mem, layout, t, Index(virt, level));
  }

  /** With a large page on the path a map changes no table of the tree. */
  lemma {:induction false} LargeWrites(vm: Vm, layout: Layout, t: nat, virt: Indices, phys: Word, flags: Word, level: nat, p: nat, a: nat)
    requires Shape(vm, layout) && Aligned(vm) && Ready(layout, t, virt, level) && !NoLarge(vm.mem, t, virt, level)
    requires StraysApart(vm.mem, layout, t, virt, level) && p in layout && p <= a < p + PAGE
    ensures Read(MapFrom(vm, t, virt, phys, flags, level).0.mem, a) == Read(vm.mem, a)
    decreases level
  {
    var e := EntryOf(vm.mem, t, Index(virt, level));
    var next := EntryAddr(e);
    assert TableAt(vm.heap, p) && level > 1 && Present(e);
    MapDown(vm, t, virt, phys, flags, level);
    LinkAligned(vm.mem, t, Index(virt, level));
    if Large(e) {
      hide MapFrom, Shape, EntryAddr;
      StrayWrites(vm, next, virt, phys, flags, level - 1, p, a);
    } else {
      SmallStep(vm, layout, t, virt, level);
      hide MapFrom, Shape, EntryAddr;
      LargeWrites(vm, layout, next, virt, phys, flags, level - 1, p, a);
    }
  }

  lemma {:induction false} LargeLeaf(m: Memory, t: nat, virt: Indices, level: nat)
    requires 1 <= level <= 4 && !NoLarge(m, t, virt, level)
    ensures Walk(m, t, virt, level) == None || Walk(m, t, virt, level).value.level > 1
    decreases level
  {
    var e := EntryOf(m, t, Index(virt, level));
    if !Large(e) { LargeLeaf(m, EntryAddr(e), virt, level - 1); }
  }

  /** With a large page on the path, at whatever level, a map changes nothing the hardware sees. */
  lemma MapUnderLarge(vm: Vm, layout: Layout, pml4: nat, virt: nat, phys: Word, flags: Word)
    requires Shape(vm, layout) && Aligned(vm) && Root(layout, pml4) && !NoLarge(vm.mem, pml4, Split(virt), 4)
    requires StraysApart(vm.mem, layout, pml4, Split(virt), 4)
    ensures var vm' := MapPage(vm, pml4, virt, phys, flags).0;
            && Translate(vm'.mem, pml4, virt) == Translate(vm.mem, pml4, virt) != Some(Wanted(phys, flags))
            && forall space, v :: Root(layout, space) ==> Translate(vm'.mem, space, v) == Translate(vm.mem, space, v)
  {
    hide StraysApart, Avoids, NoLarge, MapFrom, Walk;
    var vm' := MapPage(vm, pml4, virt, phys, flags).0;
    assert pml4 != 0 by { assert TableAt(vm.heap, pml4); }
    forall t, i | t in layout && 0 <= i < ENTRIES
      ensures EntryOf(vm'.mem, t, i) == EntryOf(vm.mem, t, i)
    {
      LargeWrites(vm, layout, pml4, Split(virt), phys, flags, 4, t, Slot(t, i));
    }
    forall space, v | Root(layout, space)
      ensures Translate(vm'.mem, space, v) == Translate(vm.mem, space, v)
    {
      WalkFrame(vm, vm'.mem, layout, space, Split(v));
    }
    LargeLeaf(vm.mem, pml4, Split(virt), 4);
  }

  /**
   A map that reports success is seen by the hardware if and only if there is no large page on the path,
   and either no table had to be made or the heap pointer was page-aligned and the flags did not contain
   bit 7. The premises leave out only lookups in memory whose contents the call does not decide: that of a
   misaligned new table in older memory, and, under a large page, that of a real table in the page's data.
   */
  lemma MapSeenExactly(vm: Vm, layout: Layout, pml4: nat, virt: nat, phys: Word, flags: Word)
    requires Shape(vm, layout) && Root(layout, pml4) && MapPage(vm, pml4, virt, phys, flags).1 == 0
    requires if NoLarge(vm.mem, pml4, Split(virt), 4)
             then ReadsCleared(vm, Split(virt), FirstMissing(vm.mem, pml4, Split(virt), 4))
             else Aligned(vm) && StraysApart(vm.mem, layout, pml4, Split(virt), 4)
    ensures var vm' := MapPage(vm, pml4, virt, phys, flags).0;
            Translate(vm'.mem, pml4, virt) == Some(Wanted(phys, flags))
            <==> && NoLarge(vm.mem, pml4, Split(virt), 4)
                 && (FirstMissing(vm.mem, pml4, Split(virt), 4) == 1 || (Aligned(vm) && !Large(flags)))
  {
    if NoLarge(vm.mem, pml4, Split(virt), 4) {
      MapSeenWithoutLarge(vm, layout, pml4, virt, phys, flags);
    } else {
      MapUnderLarge(vm, layout, pml4, virt, phys, flags);
    }
  }

  /**
   Over a 2 MiB page of the boot tables a map reports success, yet the hardware still uses the large
   page; the new entry was written into the memory that page maps.
   */
  lemma MapOverLargePage(vm: Vm, pml4: nat, pdpt: nat, pd: nat, virt: nat, phys: Word, flags: Word)
    requires var e4 := EntryOf(vm.mem, pml4, Split(virt).i4);
             Present(e4) && !Large(e4) && EntryAddr(e4) == pdpt
    requires var e3 := EntryOf(vm.mem, pdpt, Split(virt).i3);
             Present(e3) && !Large(e3) && EntryAddr(e3) == pd
    requires var e2 := EntryOf(vm.mem, pd, Split(virt).i2);
             && Present(e2) && Large(e2)
             && Slot(EntryAddr(e2), Split(virt).i1) !in
                  {Slot(pml4, Split(virt).i4), Slot(pdpt, Split(virt).i3), Slot(pd, Split(virt).i2)}
    requires pml4 != 0 && pdpt != 0 && pd != 0 && EntryAddr(EntryOf(vm.mem, pd, Split(virt).i2)) != 0
    ensures var e2 := EntryOf(vm.mem, pd, Split(virt).i2);
            var (vm', code) := MapPage(vm, pml4, virt, phys, flags);
            && code == 0
            && Translate(vm'.mem, pml4, virt) == Translate(vm.mem, pml4, virt)
            && Translate(vm.mem, pml4, virt) == Some(Leaf(2, LargeBase(e2, 2), e2 % PAGE))
            && EntryOf(vm'.mem, EntryAddr(e2), Split(virt).i1) == MakeEntry(phys, flags)
  {
    var vm' := MapPage(vm, pml4, virt, phys, flags).0;
    assert MapPage(vm, pml4, virt, phys, flags) == MapFrom(vm, pdpt, Split(virt), phys, flags, 3);
    assert MapFrom(vm, pdpt, Split(virt), phys, flags, 3) == MapFrom(vm, pd, Split(virt), phys, flags, 2);
    assert Walk(vm.mem, pdpt, Split(virt), 3) == Walk(vm.mem, pd, Split(virt), 2);
    assert Walk(vm'.mem, pml4, Split(virt), 4) == Walk(vm'.mem, pdpt, Split(virt), 3) == Walk(vm'.mem, pd, Split(virt), 2);
  }
}
