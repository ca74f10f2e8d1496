/** What map and unmap do to every translation, and how address spaces stay apart. */
module PageMapping {
  import opened Words
  import opened Paging
  import opened PageTree

  /** The layout after MapFrom: the tables it allocated take their places. */
  function Grow(vm: Vm, layout: Layout, t: nat, virt: Indices, flags: Word, level: nat): Layout
    requires 1 <= level <= 4
    decreases level
  {
    if level == 1 || t !in layout then layout
    else
      var i := Index(virt, level);
      var (vm1, next) := NextTable(vm, t, i, flags, true);
      if next.None? then layout
      else if Present(EntryOf(vm.mem, t, i)) then Grow(vm1, layout, next.value, virt, flags, level - 1)
      else Grow(vm1, layout[next.value := Child(layout[t], i, next.value)], next.value, virt, flags, level - 1)
  }

  predicate Extends(small: Layout, large: Layout) {
    forall t :: t in small ==> t in large && large[t] == small[t]
  }

  /** The leaf the kernel asked for. */
  function Wanted(phys: Word, flags: Word): Leaf {
    Leaf(1, EntryAddr(phys), if flags % 2 == 1 then flags % PAGE else flags % PAGE + 1)
  }

  /** Walks that an update at `virt` below table `t` must leave alone. */
  predicate Elsewhere(layout: Layout, t: nat, virt: Indices, u: nat, v: Indices)
    requires t in layout
  {
    && OnPath(layout, u, v)
    && (v == virt ==> layout[u].path != [] && layout[t].path != [] && layout[u].top != layout[t].top)
  }

  predicate Ready(layout: Layout, t: nat, virt: Indices, level: nat) {
    1 <= level <= 4 && OnPath(layout, t, virt) && LevelOf(layout[t]) == level
  }

  /** The three indices above level 1 are the whole path of a level 1 table. */
  lemma PrefixSame(v: Indices, w: Indices)
    ensures Prefix(v, 3) == Prefix(w, 3) <==> v.i4 == w.i4 && v.i3 == w.i3 && v.i2 == w.i2
  {
    PrefixWhole(v);
    PrefixWhole(w);
    assert Prefix(v, 3)[0] == v.i4 && Prefix(v, 3)[1] == v.i3 && Prefix(v, 3)[2] == v.i2;
    assert Prefix(w, 3)[0] == w.i4 && Prefix(w, 3)[1] == w.i3 && Prefix(w, 3)[2] == w.i2;
  }

  lemma PrefixWhole(v: Indices)
    ensures Prefix(v, 1) == [v.i4] && Prefix(v, 2) == [v.i4, v.i3] && Prefix(v, 3) == [v.i4, v.i3, v.i2]
  {
    assert Prefix(v, 0) == [];
    assert Prefix(v, 1) == [v.i4];
    assert Prefix(v, 2) == [v.i4, v.i3];
  }

  /** A write to one slot of a level 1 table. */
  lemma LeafWrite(vm: Vm, layout: Layout, t: nat, virt: Indices, e: Word)
    requires Shape(vm, layout) && Ready(layout, t, virt, 1)
    ensures var m' := vm.mem[Slot(t, Index(virt, 1)) := e];
            && Shape(vm.(mem := m'), layout)
            && (forall u, j :: u in layout && 0 <= j < ENTRIES && u != t ==> EntryOf(m', u, j) == EntryOf(vm.mem, u, j))
            && (forall u, v :: OnPath(layout, u, v) ==>
                  NoLarge(m', u, v, LevelOf(layout[u])) == NoLarge(vm.mem, u, v, LevelOf(layout[u])))
            && (forall u, v :: Elsewhere(layout, t, virt, u, v) ==>
                  Walk(m', u, v, LevelOf(layout[u])) == Walk(vm.mem, u, v, LevelOf(layout[u])))
  {
    var i := Index(virt, 1);
    var m' := vm.mem[Slot(t, i) := e];
    forall u, j | u in layout && 0 <= j < ENTRIES
      ensures EntryOf(m', u, j) == if u == t && j == i then e else EntryOf(vm.mem, u, j)
    {
      if Slot(u, j) == Slot(t, i) {
        SlotsDistinct(u, j, t, i);
      }
    }
    forall u, j | u in layout && 0 <= j < ENTRIES
      ensures Linked(m', layout, u, j)
    {
      assert Linked(vm.mem, layout, u, j);
    }
    forall u, v | OnPath(layout, u, v)
      ensures NoLarge(m', u, v, LevelOf(layout[u])) == NoLarge(vm.mem, u, v, LevelOf(layout[u]))
    {
      NoLargeAboveLeaves(vm, m', layout, u, v);
    }
    forall u, v | Elsewhere(layout, t, virt, u, v)
      ensures Walk(m', u, v, LevelOf(layout[u])) == Walk(vm.mem, u, v, LevelOf(layout[u]))
    {
      PrefixSame(v, virt);
      WalkFrame(vm, m', layout, u, v);
    }
  }

  /** Level 1 entries play no part in NoLarge. */
  lemma {:induction false} NoLargeAboveLeaves(vm: Vm, m': Memory, layout: Layout, u: nat, v: Indices)
    requires Shape(vm, layout) && OnPath(layout, u, v)
    requires forall t, j :: t in layout && |layout[t].path| < 3 && 0 <= j < ENTRIES ==>
               EntryOf(m', t, j) == EntryOf(vm.mem, t, j)
    ensures NoLarge(m', u, v, LevelOf(layout[u])) == NoLarge(vm.mem, u, v, LevelOf(layout[u]))
    decreases LevelOf(layout[u])
  {
    var level := LevelOf(layout[u]);
    var i := Index(v, level);
    var e := EntryOf(vm.mem, u, i);
    if level > 1 && Present(e) && !Large(e) {
      assert Linked(vm.mem, layout, u, i);
      NoLargeAboveLeaves(vm, m', layout, EntryAddr(e), v);
    }
  }

  /** What holds after an update at `virt` below table `t` at `level` took `vm` to `vm'`. */
  ghost predicate Kept(vm: Vm, layout: Layout, vm': Vm, layout': Layout, t: nat, virt: Indices, level: nat, code: int)
    requires t in layout && Shape(vm, layout)
  {
    && Shape(vm', layout') && Extends(layout, layout')
    && (forall u, j :: u in layout && 0 <= j < ENTRIES && LevelOf(layout[u]) >= level && u != t ==>
          EntryOf(vm'.mem, u, j) == EntryOf(vm.mem, u, j))
    && (forall u, v :: OnPath(layout, u, v) && NoLarge(vm.mem, u, v, LevelOf(layout[u])) ==>
          NoLarge(vm'.mem, u, v, LevelOf(layout[u])))
    && (forall u, v :: OnPath(layout, u, v) && (code != 0 || Elsewhere(layout, t, virt, u, v)) ==>
          Walk(vm'.mem, u, v, LevelOf(layout[u])) == Walk(vm.mem, u, v, LevelOf(layout[u])))
  }

  /** The step from `t` to the table `next` below it changes no walk and writes only `t`'s entries. */
  ghost predicate Stepped(vm: Vm, layout: Layout, vm1: Vm, layout1: Layout, t: nat, i: nat, next: nat)
    requires t in layout && Shape(vm, layout)
  {
    && Shape(vm1, layout1) && Extends(layout, layout1)
    && next in layout1 && layout1[next] == Child(layout[t], i, next)
    && (var e := EntryOf(vm1.mem, t, i); Present(e) && !Large(e) && EntryAddr(e) == next)
    && (forall u, j :: u in layout && 0 <= j < ENTRIES && u != t ==> EntryOf(vm1.mem, u, j) == EntryOf(vm.mem, u, j))
    && (forall u, v :: OnPath(layout, u, v) ==>
          && NoLarge(vm1.mem, u, v, LevelOf(layout[u])) == NoLarge(vm.mem, u, v, LevelOf(layout[u]))
          && Walk(vm1.mem, u, v, LevelOf(layout[u])) == Walk(vm.mem, u, v, LevelOf(layout[u])))
  }

  lemma KeptThrough(vm: Vm, layout: Layout, vm1: Vm, layout1: Layout, vm': Vm, layout': Layout,
                    t: nat, next: nat, virt: Indices, level: nat, code: int)
    requires Shape(vm, layout) && Ready(layout, t, virt, level) && level > 1
    requires Stepped(vm, layout, vm1, layout1, t, Index(virt, level), next)
    requires Kept(vm1, layout1, vm', layout', next, virt, level - 1, code)
    ensures Kept(vm, layout, vm', layout', t, virt, level, code)
    ensures Walk(vm'.mem, t, virt, level) == Walk(vm'.mem, next, virt, level - 1)
  {
    assert EntryOf(vm'.mem, t, Index(virt, level)) == EntryOf(vm1.mem, t, Index(virt, level));
    forall u, v | OnPath(layout, u, v) && (code != 0 || Elsewhere(layout, t, virt, u, v))
      ensures Walk(vm'.mem, u, v, LevelOf(layout[u])) == Walk(vm.mem, u, v, LevelOf(layout[u]))
    {
      assert OnPath(layout1, u, v);
      assert code != 0 || Elsewhere(layout1, next, virt, u, v);
    }
  }

  lemma StepDown(vm: Vm, layout: Layout, t: nat, virt: Indices, level: nat)
    requires Shape(vm, layout) && Ready(layout, t, virt, level) && level > 1 && NoLarge(vm.mem, t, virt, level)
    requires Present(EntryOf(vm.mem, t, Index(virt, level)))
    ensures var next := EntryAddr(EntryOf(vm.mem, t, Index(virt, level)));
            && next != 0
            && Stepped(vm, layout, vm, layout, t, Index(virt, level), next)
            && Ready(layout, next, virt, level - 1)
            && NoLarge(vm.mem, next, virt, level - 1)
  {
    assert Linked(vm.mem, layout, t, Index(virt, level));
  }

  lemma NextTableStepped(vm: Vm, layout: Layout, t: nat, virt: Indices, flags: Word, level: nat)
    requires Shape(vm, layout) && Aligned(vm) && !Large(flags)
    requires Ready(layout, t, virt, level) && level > 1 && NoLarge(vm.mem, t, virt, level)
    ensures var i := Index(virt, level);
            var (vm1, next) := NextTable(vm, t, i, flags, true);
            if next.None? then vm1 == vm && !Present(EntryOf(vm.mem, t, i))
            else
              var layout1 := if Present(EntryOf(vm.mem, t, i)) then layout
                             else layout[next.value := Child(layout[t], i, next.value)];
              && Stepped(vm, layout, vm1, layout1, t, i, next.value)
              && Aligned(vm1)
              && Ready(layout1, next.value, virt, level - 1)
              && NoLarge(vm1.mem, next.value, virt, level - 1)
  {
    var i := Index(virt, level);
    var (vm1, next) := NextTable(vm, t, i, flags, true);
    if Present(EntryOf(vm.mem, t, i)) {
      StepDown(vm, layout, t, virt, level);
    } else {
      NextTableFresh(vm, layout, t, i, flags);
      if next.Some? {
        forall u, v | OnPath(layout, u, v)
          ensures Walk(vm1.mem, u, v, LevelOf(layout[u])) == Walk(vm.mem, u, v, LevelOf(layout[u]))
          ensures NoLarge(vm1.mem, u, v, LevelOf(layout[u])) == NoLarge(vm.mem, u, v, LevelOf(layout[u]))
        {
          NextTableWalks(vm, layout, t, i, flags, u, v);
        }
      }
    }
  }

  /** What a map below `t` promises; `vm'` and `code` are its outcome. */
  ghost predicate MapDone(vm: Vm, layout: Layout, vm': Vm, layout': Layout, code: int,
                          t: nat, virt: Indices, phys: Word, flags: Word, level: nat)
    requires t in layout && Shape(vm, layout) && 1 <= level <= 4
  {
    && Kept(vm, layout, vm', layout', t, virt, level, code)
    && Aligned(vm')
    && (code == 0 ==> Walk(vm'.mem, t, virt, level) == Some(Wanted(phys, flags)))
    && (code == 0 || level - 6 >= code >= -4)
  }

  lemma MapLeaf(vm: Vm, layout: Layout, t: nat, virt: Indices, phys: Word, flags: Word)
    requires Shape(vm, layout) && Aligned(vm) && Ready(layout, t, virt, 1)
    ensures var (vm', code) := MapFrom(vm, t, virt, phys, flags, 1);
            MapDone(vm, layout, vm', layout, code, t, virt, phys, flags, 1)
  {
    EntryRoundTrip(phys, flags);
    LeafWrite(vm, layout, t, virt, MakeEntry(phys, flags));
  }

  lemma MapGivesUp(vm: Vm, layout: Layout, t: nat, virt: Indices, phys: Word, flags: Word, level: nat)
    requires Shape(vm, layout) && Aligned(vm) && Ready(layout, t, virt, level) && level > 1
    ensures MapDone(vm, layout, vm, layout, level - 6, t, virt, phys, flags, level)
  {
  }

  lemma MapThrough(vm: Vm, layout: Layout, vm1: Vm, layout1: Layout, vm': Vm, layout': Layout, code: int,
                   t: nat, next: nat, virt: Indices, phys: Word, flags: Word, level: nat)
    requires Shape(vm, layout) && Ready(layout, t, virt, level) && level > 1
    requires Stepped(vm, layout, vm1, layout1, t, Index(virt, level), next)
    requires MapDone(vm1, layout1, vm', layout', code, next, virt, phys, flags, level - 1)
    ensures MapDone(vm, layout, vm', layout', code, t, virt, phys, flags, level)
  {
    KeptThrough(vm, layout, vm1, layout1, vm', layout', t, next, virt, level, code);
  }

  /**
   A map below any table of the tree: on success the walk reaches exactly the frame and flags asked
   for; every other page, and on failure every page, is translated as before; the tree stays a tree.
   */
  lemma {:induction false} MapFromKeeps(vm: Vm, layout: Layout, t: nat, virt: Indices, phys: Word, flags: Word, level: nat)
    requires Shape(vm, layout) && Aligned(vm) && !Large(flags)
    requires Ready(layout, t, virt, level) && NoLarge(vm.mem, t, virt, level)
    ensures var (vm', code) := MapFrom(vm, t, virt, phys, flags, level);
            MapDone(vm, layout, vm', Grow(vm, layout, t, virt, flags, level), code, t, virt, phys, flags, level)
    decreases level
  {
    hide Shape, Walk, NoLarge, Stepped, MapDone, NextTable;
    if level == 1 {
      MapLeaf(vm, layout, t, virt, phys, flags);
    } else {
      var i := Index(virt, level);
      var (vm1, next) := NextTable(vm, t, i, flags, true);
      NextTableStepped(vm, layout, t, virt, flags, level);
      if next.Some? {
        var layout1 := if Present(EntryOf(vm.mem, t, i)) then layout
                       else layout[next.value := Child(layout[t], i, next.value)];
        MapFromKeeps(vm1, layout1, next.value, virt, phys, flags, level - 1);
        var (vm', code) := MapFrom(vm1, next.value, virt, phys, flags, level - 1);
        var layout' := Grow(vm1, layout1, next.value, virt, flags, level - 1);
        MapThrough(vm, layout, vm1, layout1, vm', layout', code, t, next.value, virt, phys, flags, level);
      } else {
        MapGivesUp(vm, layout, t, virt, phys, flags, level);
      }
    }
  }

  lemma KeptEntry(vm: Vm, layout: Layout, vm': Vm, layout': Layout, t: nat, u: nat, j: nat, virt: Indices, level: nat, code: int)
    requires t in layout && Shape(vm, layout) && Kept(vm, layout, vm', layout', t, virt, level, code)
    requires u in layout && u != t && LevelOf(layout[u]) >= level && j < ENTRIES
    ensures EntryOf(vm'.mem, u, j) == EntryOf(vm.mem, u, j)
  {
  }

  /** Unmapping below any table of the tree; on failure nothing at all has changed and the page was not mapped. */
  lemma {:induction false} UnmapFromKeeps(vm: Vm, layout: Layout, t: nat, virt: Indices, level: nat)
    requires Shape(vm, layout) && Ready(layout, t, virt, level) && NoLarge(vm.mem, t, virt, level)
    ensures var (vm', code) := UnmapFrom(vm, t, virt, level);
            && Kept(vm, layout, vm', layout, t, virt, level, code)
            && vm'.heap == vm.heap
            && Walk(vm'.mem, t, virt, level) == None
            && (code == 0 || (vm' == vm && level - 6 >= code >= -4))
    decreases level
  {
    var i := Index(virt, level);
    if level == 1 {
      LeafWrite(vm, layout, t, virt, 0);
    } else if Present(EntryOf(vm.mem, t, i)) {
      StepDown(vm, layout, t, virt, level);
      var next := EntryAddr(EntryOf(vm.mem, t, i));
      UnmapFromKeeps(vm, layout, next, virt, level - 1);
      var (vm', code) := UnmapFrom(vm, next, virt, level - 1);
      KeptThrough(vm, layout, vm, layout, vm', layout, t, next, virt, level, code);
    }
  }

  predicate Root(layout: Layout, pml4: nat) {
    pml4 in layout && layout[pml4].path == []
  }

  /** Mapping a page: exactly that page changes on success, no page changes on failure. */
  lemma MapPageCorrect(vm: Vm, layout: Layout, pml4: nat, virt: nat, phys: Word, flags: Word)
    requires Shape(vm, layout) && Aligned(vm) && !Large(flags)
    requires Root(layout, pml4) && NoLarge(vm.mem, pml4, Split(virt), 4)
    ensures var (vm', code) := MapPage(vm, pml4, virt, phys, flags);
            && Shape(vm', Grow(vm, layout, pml4, Split(virt), flags, 4)) && Aligned(vm')
            && Extends(layout, Grow(vm, layout, pml4, Split(virt), flags, 4))
            && code in {0, -2, -3, -4}
            && (code == 0 ==> Translate(vm'.mem, pml4, virt) == Some(Wanted(phys, flags)))
            && (forall space, v :: Root(layout, space) && (code != 0 || PageNumber(v) != PageNumber(virt)) ==>
                  Translate(vm'.mem, space, v) == Translate(vm.mem, space, v))
  {
    MapFromKeeps(vm, layout, pml4, Split(virt), phys, flags, 4);
    var (vm', code) := MapPage(vm, pml4, virt, phys, flags);
    forall space, v | Root(layout, space) && (code != 0 || PageNumber(v) != PageNumber(virt))
      ensures Translate(vm'.mem, space, v) == Translate(vm.mem, space, v)
    {
      IndexSplitInjective(v, virt);
      assert OnPath(layout, space, Split(v));
    }
  }

  /** Unmapping a page: it is gone afterwards whatever the return code, and no other page changes. */
  lemma UnmapPageCorrect(vm: Vm, layout: Layout, pml4: nat, virt: nat)
    requires Shape(vm, layout) && Root(layout, pml4) && NoLarge(vm.mem, pml4, Split(virt), 4)
    ensures var (vm', code) := UnmapPage(vm, pml4, virt);
            && Shape(vm', layout) && vm'.heap == vm.heap
            && code in {0, -2, -3, -4}
            && (code != 0 ==> vm' == vm)
            && Translate(vm'.mem, pml4, virt) == None
            && (forall space, v :: Root(layout, space) && PageNumber(v) != PageNumber(virt) ==>
                  Translate(vm'.mem, space, v) == Translate(vm.mem, space, v))
  {
    UnmapFromKeeps(vm, layout, pml4, Split(virt), 4);
    var (vm', code) := UnmapPage(vm, pml4, virt);
    forall space, v | Root(layout, space) && PageNumber(v) != PageNumber(virt)
      ensures Translate(vm'.mem, space, v) == Translate(vm.mem, space, v)
    {
      IndexSplitInjective(v, virt);
      assert OnPath(layout, space, Split(v));
    }
  }

  /** A page mapped and then unmapped leaves every space translating as if the page had only been unmapped. */
  lemma MapThenUnmap(vm: Vm, layout: Layout, pml4: nat, virt: nat, phys: Word, flags: Word)
    requires Shape(vm, layout) && Aligned(vm) && !Large(flags)
    requires Root(layout, pml4) && NoLarge(vm.mem, pml4, Split(virt), 4)
    ensures var vm1 := MapPage(vm, pml4, virt, phys, flags).0;
            var vm2 := UnmapPage(vm1, pml4, virt).0;
            && Translate(vm2.mem, pml4, virt) == None
            && (forall space, v :: Root(layout, space) && PageNumber(v) != PageNumber(virt) ==>
                  Translate(vm2.mem, space, v) == Translate(vm.mem, space, v))
  {
    MapPageCorrect(vm, layout, pml4, virt, phys, flags);
    MapFromKeeps(vm, layout, pml4, Split(virt), phys, flags, 4);
    var vm1 := MapPage(vm, pml4, virt, phys, flags).0;
    var layout1 := Grow(vm, layout, pml4, Split(virt), flags, 4);
    assert OnPath(layout, pml4, Split(virt));
    assert NoLarge(vm1.mem, pml4, Split(virt), 4);
    UnmapPageCorrect(vm1, layout1, pml4, virt);
  }
}
