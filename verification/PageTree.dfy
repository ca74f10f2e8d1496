/** The tree invariant of the page tables and what every map and unmap keeps. */
module PageTree {
  import opened Words
  import opened Paging

  /**
   Where a table sits: the indices that lead to it from any level 4 table, and the level 3 table its
   subtree hangs from. Level 4 tables have the empty path; tables may be shared below them.
   */
  datatype Node = Node(top: nat, path: seq<nat>)

  type Layout = map<nat, Node>

  function LevelOf(n: Node): int {
    4 - |n.path|
  }

  function Child(n: Node, i: nat, addr: nat): Node {
    Node(if n.path == [] then addr else n.top, n.path + [i])
  }

  /** The indices of `virt` at levels 4, 3, ..., 5 - n. */
  function Prefix(virt: Indices, n: nat): (p: seq<nat>)
    requires n <= 3
    ensures |p| == n
  {
    if n == 0 then [] else Prefix(virt, n - 1) + [Index(virt, 5 - n)]
  }

  predicate TableAt(h: Heap.State, t: nat) {
    t % PAGE == 0 && 0 < t && t + PAGE <= h.ptr
  }

  predicate OnPath(layout: Layout, t: nat, virt: Indices) {
    t in layout && |layout[t].path| <= 3 && layout[t].path == Prefix(virt, |layout[t].path|)
  }

  /** A present, non-large entry above level 1 leads to the table whose place in the tree is below it. */
  predicate Linked(m: Memory, layout: Layout, t: nat, i: nat)
    requires t in layout
  {
    var e := EntryOf(m, t, i);
    |layout[t].path| < 3 && Present(e) && !Large(e) ==>
      EntryAddr(e) in layout && layout[EntryAddr(e)] == Child(layout[t], i, EntryAddr(e))
  }

  ghost predicate Shape(vm: Vm, layout: Layout) {
    && Heap.Valid(vm.heap)
    && vm.heap.limit <= 0x10_0000_0000_0000
    && (forall t :: t in layout ==> TableAt(vm.heap, t) && |layout[t].path| <= 3)
    && (forall t, i :: t in layout && 0 <= i < ENTRIES ==> Linked(vm.mem, layout, t, i))
  }

  predicate Aligned(vm: Vm) {
    vm.heap.ptr % PAGE == 0
  }

  lemma SlotsDistinct(t: nat, i: nat, u: nat, j: nat)
    requires t % PAGE == 0 && u % PAGE == 0 && i < ENTRIES && j < ENTRIES
    requires Slot(t, i) == Slot(u, j)
    ensures t == u && i == j
  {
    var a, b := t / PAGE, u / PAGE;
    assert t == PAGE * a && u == PAGE * b;
  }

  lemma EntryRoundTrip(addr: Word, flags: Word)
    ensures Present(MakeEntry(addr, flags))
    ensures Large(MakeEntry(addr, flags)) == Large(flags)
    ensures EntryAddr(MakeEntry(addr, flags)) == EntryAddr(addr)
    ensures MakeEntry(addr, flags) % PAGE == (if flags % 2 == 1 then flags % PAGE else flags % PAGE + 1)
    ensures EntryAddr(addr) == addr <==> addr % PAGE == 0 && addr < 0x10_0000_0000_0000
  {
    EntryAddrBack(addr, flags);
    EntryLargeBack(addr, flags);
    if addr % PAGE == 0 && addr < 0x10_0000_0000_0000 { AlignedAddr(addr); }
  }

  lemma EntryAddrBack(addr: Word, flags: Word)
    ensures Present(MakeEntry(addr, flags))
    ensures EntryAddr(MakeEntry(addr, flags)) == EntryAddr(addr)
    ensures MakeEntry(addr, flags) % PAGE == (if flags % 2 == 1 then flags % PAGE else flags % PAGE + 1)
  {
    hide MakeEntry, EntryAddr;
    EntryFieldsAre(addr, flags);
    LowParity(flags);
    var low := flags % PAGE;
    FieldsBack(EntryAddr(addr) / PAGE, if low % 2 == 1 then low else low + 1);
  }

  /** An entry as page address and low bits. */
  lemma EntryFieldsAre(addr: Word, flags: Word)
    ensures var (k, low) := (EntryAddr(addr) / PAGE, flags % PAGE);
            && k < 0x100_0000_0000 && EntryAddr(addr) == PAGE * k
            && MakeEntry(addr, flags) == PAGE * k + if low % 2 == 1 then low else low + 1
  {
    SplitFields(addr / PAGE % 0x100_0000_0000, 0);
  }

  lemma LowParity(flags: Word)
    ensures flags % PAGE % 2 == flags % 2
  {
    SplitFields(flags / PAGE, flags % PAGE);
  }

  lemma FieldsBack(k: nat, l: nat)
    requires k < 0x100_0000_0000 && l < PAGE
    ensures PAGE * k + l < TWO64 && EntryAddr(PAGE * k + l) == PAGE * k
    ensures (PAGE * k + l) % PAGE == l && (PAGE * k + l) % 2 == l % 2
  {
    SplitFields(k, l);
    QuotRem(k, 0, k, 0x100_0000_0000);
  }

  lemma EntryLargeBack(addr: Word, flags: Word)
    ensures Large(MakeEntry(addr, flags)) == Large(flags)
  {
    var k := addr / PAGE % 0x100_0000_0000;
    var low := flags % PAGE;
    var l := if low % 2 == 1 then low else low + 1;
    SplitFields(k, l);
    SplitFields(flags / PAGE, low);
    SetLowBit(low, l);
  }

  lemma AlignedAddr(addr: Word)
    requires addr % PAGE == 0 && addr < 0x10_0000_0000_0000
    ensures EntryAddr(addr) == addr
  {
    QuotRem(addr / PAGE, 0, addr / PAGE, 0x100_0000_0000);
  }

  /** Setting bit 0 does not touch bit 7. */
  lemma SetLowBit(low: nat, l: nat)
    requires l == if low % 2 == 1 then low else low + 1
    ensures l / LARGE_BIT == low / LARGE_BIT && l % 2 == 1
  {
    var q, r := low / LARGE_BIT, low % LARGE_BIT;
    if low % 2 == 0 {
      QuotRem(low, 64 * q + r / 2, r % 2, 2);
      assert r == 2 * (r / 2);
      QuotRem(l, q, r + 1, LARGE_BIT);
      QuotRem(l, 64 * q + r / 2, 1, 2);
    }
  }

  /** The fields of a word written as page number and low bits. */
  lemma SplitFields(k: nat, l: nat)
    requires l < PAGE
    ensures (PAGE * k + l) / PAGE == k && (PAGE * k + l) % PAGE == l
    ensures (PAGE * k + l) % 2 == l % 2
    ensures (PAGE * k + l) / LARGE_BIT % 2 == l / LARGE_BIT % 2
  {
    var w := PAGE * k + l;
    QuotRem(w, k, l, PAGE);
    QuotRem(w, 32 * k + l / LARGE_BIT, l % LARGE_BIT, LARGE_BIT);
    QuotRem(w, 2048 * k + l / 2, l % 2, 2);
    QuotRem(32 * k + l / LARGE_BIT, 16 * k + l / LARGE_BIT / 2, l / LARGE_BIT % 2, 2);
  }

  lemma {:induction false} WriteWordsRead(m: Memory, t: nat, ws: seq<Word>, a: nat)
    ensures t <= a < t + 8 * |ws| && (a - t) % 8 == 0 ==> Read(WriteWords(m, t, ws), a) == ws[(a - t) / 8]
    ensures !(t <= a < t + 8 * |ws| && (a - t) % 8 == 0) ==> Read(WriteWords(m, t, ws), a) == Read(m, a)
  {
    if ws != [] {
      WriteWordsRead(m, t, ws[..|ws| - 1], a);
    }
  }

  lemma ZeroTableRead(m: Memory, t: nat, a: nat)
    ensures Read(ZeroTable(m, t), a) == if t <= a < t + PAGE && (a - t) % 8 == 0 then 0 else Read(m, a)
  {
    WriteWordsRead(m, t, seq(ENTRIES, _ => 0), a);
  }

  /** Memory just after a table was made at `p` and hung into entry `i` of `t`. */
  function WithTable(m: Memory, t: nat, i: nat, p: Word, flags: Word): Memory {
    ZeroTable(m, p)[Slot(t, i) := MakeEntry(p, flags)]
  }

  function AfterNewTable(vm: Vm, t: nat, i: nat, flags: Word): Vm
    requires vm.heap.ptr < TWO64
  {
    Vm(WithTable(vm.mem, t, i, vm.heap.ptr, flags), vm.heap.(ptr := vm.heap.ptr + PAGE))
  }

  lemma NextTableAllocates(vm: Vm, t: nat, i: nat, flags: Word)
    requires Heap.Valid(vm.heap) && vm.heap.limit <= 0x10_0000_0000_0000
    requires !Present(EntryOf(vm.mem, t, i))
    ensures NextTable(vm, t, i, flags, true) ==
            if vm.heap.ptr + PAGE > vm.heap.limit then (vm, None)
            else (AfterNewTable(vm, t, i, flags), Some(vm.heap.ptr))
  {
    Heap.KmallocPlain(vm.heap, PAGE);
  }

  lemma NewTableEntries(vm: Vm, layout: Layout, t: nat, i: nat, flags: Word)
    requires Shape(vm, layout) && Aligned(vm) && t in layout && i < ENTRIES
    ensures var (p, m1) := (vm.heap.ptr, AfterNewTable(vm, t, i, flags).mem);
            && p !in layout
            && EntryOf(m1, t, i) == MakeEntry(p, flags)
            && (forall j :: 0 <= j < ENTRIES ==> EntryOf(m1, p, j) == 0)
            && (forall u, j :: u in layout && 0 <= j < ENTRIES && (u != t || j != i) ==>
                  EntryOf(m1, u, j) == EntryOf(vm.mem, u, j))
  {
    var (p, m1) := (vm.heap.ptr, AfterNewTable(vm, t, i, flags).mem);
    forall u, j | (u in layout || u == p) && 0 <= j < ENTRIES && (u != t || j != i)
      ensures EntryOf(m1, u, j) == if u == p then 0 else EntryOf(vm.mem, u, j)
    {
      ZeroTableRead(vm.mem, p, Slot(u, j));
      if Slot(u, j) == Slot(t, i) {
        SlotsDistinct(u, j, t, i);
      }
    }
  }

  lemma NewTableShape(vm: Vm, layout: Layout, t: nat, i: nat, flags: Word)
    requires Shape(vm, layout) && Aligned(vm) && !Large(flags)
    requires t in layout && |layout[t].path| < 3 && i < ENTRIES && vm.heap.ptr + PAGE <= vm.heap.limit
    ensures Shape(AfterNewTable(vm, t, i, flags), layout[vm.heap.ptr := Child(layout[t], i, vm.heap.ptr)])
  {
    var (p, vm1) := (vm.heap.ptr, AfterNewTable(vm, t, i, flags));
    var layout1 := layout[p := Child(layout[t], i, p)];
    NewTableEntries(vm, layout, t, i, flags);
    EntryRoundTrip(p, flags);
    forall u, j | u in layout1 && 0 <= j < ENTRIES
      ensures Linked(vm1.mem, layout1, u, j)
    {
      if u != p && (u != t || j != i) {
        assert Linked(vm.mem, layout, u, j);
      }
    }
  }

  /** What NextTable does when it has to allocate. */
  lemma NextTableFresh(vm: Vm, layout: Layout, t: nat, i: nat, flags: Word)
    requires Shape(vm, layout) && Aligned(vm) && !Large(flags)
    requires t in layout && |layout[t].path| < 3 && i < ENTRIES
    requires !Present(EntryOf(vm.mem, t, i))
    ensures var (vm1, r) := NextTable(vm, t, i, flags, true);
            if r.None? then vm1 == vm
            else
              && r.value == vm.heap.ptr && r.value !in layout
              && Aligned(vm1)
              && Shape(vm1, layout[r.value := Child(layout[t], i, r.value)])
              && (var e := EntryOf(vm1.mem, t, i); Present(e) && !Large(e) && EntryAddr(e) == r.value)
              && (forall j :: 0 <= j < ENTRIES ==> EntryOf(vm1.mem, r.value, j) == 0)
              && (forall u, j :: u in layout && 0 <= j < ENTRIES && (u != t || j != i) ==>
                    EntryOf(vm1.mem, u, j) == EntryOf(vm.mem, u, j))
  {
    hide NextTable, EntryAddr, Present, Large;
    NextTableAllocates(vm, t, i, flags);
    if vm.heap.ptr + PAGE <= vm.heap.limit {
      NewTableEntries(vm, layout, t, i, flags);
      NewTableShape(vm, layout, t, i, flags);
      EntryRoundTrip(vm.heap.ptr, flags);
    }
  }

  /** The tables that a walk from `u` for `virt` can visit. */
  predicate Visits(layout: Layout, u: nat, virt: Indices, t: nat) {
    && OnPath(layout, u, virt) && OnPath(layout, t, virt)
    && |layout[u].path| <= |layout[t].path|
    && (|layout[u].path| >= 1 ==> layout[t].top == layout[u].top)
  }

  /** A walk depends only on the entries it can visit. */
  lemma {:induction false} WalkFrame(vm: Vm, m': Memory, layout: Layout, u: nat, virt: Indices)
    requires Shape(vm, layout) && OnPath(layout, u, virt)
    requires forall t :: Visits(layout, u, virt, t) ==>
               var i := Index(virt, LevelOf(layout[t])); EntryOf(m', t, i) == EntryOf(vm.mem, t, i)
    ensures Walk(m', u, virt, LevelOf(layout[u])) == Walk(vm.mem, u, virt, LevelOf(layout[u]))
    ensures NoLarge(m', u, virt, LevelOf(layout[u])) == NoLarge(vm.mem, u, virt, LevelOf(layout[u]))
    decreases LevelOf(layout[u])
  {
    var level := LevelOf(layout[u]);
    var i := Index(virt, level);
    assert Visits(layout, u, virt, u);
    var e := EntryOf(vm.mem, u, i);
    if level > 1 && Present(e) && !Large(e) {
      assert Linked(vm.mem, layout, u, i);
      WalkFrame(vm, m', layout, EntryAddr(e), virt);
    }
  }

  /** Hanging a fresh, empty table into an empty slot changes no walk. */
  lemma {:induction false} NextTableWalks(vm: Vm, layout: Layout, t: nat, i: nat, flags: Word, u: nat, virt: Indices)
    requires Shape(vm, layout) && Aligned(vm) && !Large(flags)
    requires t in layout && |layout[t].path| < 3 && i < ENTRIES
    requires !Present(EntryOf(vm.mem, t, i))
    requires OnPath(layout, u, virt)
    ensures var (vm1, r) := NextTable(vm, t, i, flags, true);
            var level := LevelOf(layout[u]);
            && Walk(vm1.mem, u, virt, level) == Walk(vm.mem, u, virt, level)
            && NoLarge(vm1.mem, u, virt, level) == NoLarge(vm.mem, u, virt, level)
    decreases LevelOf(layout[u])
  {
    NextTableFresh(vm, layout, t, i, flags);
    var level := LevelOf(layout[u]);
    var j := Index(virt, level);
    var e := EntryOf(vm.mem, u, j);
    if level > 1 && Present(e) && !Large(e) {
      assert Linked(vm.mem, layout, u, j);
      NextTableWalks(vm, layout, t, i, flags, EntryAddr(e), virt);
    }
  }
}
