/** Address spaces: what a new one translates, and which updates which other space can see. */
module PageSpaces {
  import opened Words
  import opened Paging
  import opened PageTree
  import opened PageMapping

  // ---------------------------------------------------------------- creation

  /** The level 4 table of a new space is page-aligned. */
  predicate SpaceAligned(vm: Vm) {
    (vm.heap.ptr + AS_STRUCT_SIZE) % PAGE == 0
  }

  /**
   A new space has a usable cr3 exactly when its level 4 table lands on a page boundary; it then
   translates every address as the kernel does, and no other space notices.
   */
  lemma CreateSpaceCorrect(vm: Vm, layout: Layout, kernel: nat)
    requires Shape(vm, layout) && Root(layout, kernel) && vm.heap.ptr % 8 == 0
    ensures var (vm', r) := CreateSpace(vm, kernel);
            if r.None? then vm'.mem == vm.mem && vm.heap.limit < vm.heap.ptr + AS_STRUCT_SIZE + PAGE
            else
              var s := r.value;
              && (s.cr3 == s.pml4 <==> SpaceAligned(vm))
              && (SpaceAligned(vm) ==>
                    var layout' := layout[s.pml4 := Node(0, [])];
                    && s.pml4 !in layout && Shape(vm', layout') && Aligned(vm')
                    && (forall i :: 0 <= i < ENTRIES ==> EntryOf(vm'.mem, s.cr3, i) == EntryOf(vm.mem, kernel, i))
                    && (forall v :: Translate(vm'.mem, s.cr3, v) == Translate(vm.mem, kernel, v))
                    && (forall space, v :: Root(layout, space) ==>
                          Translate(vm'.mem, space, v) == Translate(vm.mem, space, v)))
  {
    var (vm', r) := CreateSpace(vm, kernel);
    CreateSpaceIs(vm, kernel);
    assert kernel != 0 by { assert TableAt(vm.heap, kernel); }
    if r.Some? {
      hide Shape, CreateSpace, Translate, EntryAddr;
      CopiedAddress(r.value.pml4);
      if SpaceAligned(vm) {
        CopiedTranslates(vm, vm', layout, kernel, r.value.pml4);
      }
    }
  }

  /** Where the new table lies, and when there is none. */
  lemma CreateSpaceIs(vm: Vm, kernel: nat)
    requires Heap.Valid(vm.heap) && vm.heap.limit <= 0x10_0000_0000_0000 && vm.heap.ptr % 8 == 0
    ensures var ((vm', r), p) := (CreateSpace(vm, kernel), vm.heap.ptr + AS_STRUCT_SIZE);
            if r.None? then vm'.mem == vm.mem && vm.heap.limit < p + PAGE
            else
              && p + PAGE <= vm.heap.limit && r.value == Space(p, EntryAddr(Wrap(p)))
              && vm'.heap == vm.heap.(ptr := p + PAGE)
              && (kernel != 0 ==> vm'.mem == WriteWords(ZeroTable(vm.mem, p), p, TableWords(ZeroTable(vm.mem, p), kernel)))
  {
    hide EntryAddr, Wrap, ZeroTable, WriteWords, TableWords;
    Heap.KmallocPlain(vm.heap, AS_STRUCT_SIZE);
    Heap.KmallocPlain(Heap.Kmalloc(vm.heap, AS_STRUCT_SIZE).0, PAGE);
    hide Heap.Kmalloc;
  }

  /** An aligned copy of the kernel's level 4 table translates as that table does. */
  lemma CopiedTranslates(vm: Vm, vm': Vm, layout: Layout, kernel: nat, p: nat)
    requires Shape(vm, layout) && Root(layout, kernel) && vm.heap.ptr <= p && p % PAGE == 0 && p + PAGE <= vm.heap.limit
    requires vm'.mem == WriteWords(ZeroTable(vm.mem, p), p, TableWords(ZeroTable(vm.mem, p), kernel))
    requires vm'.heap == vm.heap.(ptr := p + PAGE)
    ensures var layout' := layout[p := Node(0, [])];
            && p !in layout && Shape(vm', layout') && Aligned(vm')
            && (forall i :: 0 <= i < ENTRIES ==> EntryOf(vm'.mem, p, i) == EntryOf(vm.mem, kernel, i))
            && (forall v :: Translate(vm'.mem, p, v) == Translate(vm.mem, kernel, v))
            && (forall space, v :: Root(layout, space) ==> Translate(vm'.mem, space, v) == Translate(vm.mem, space, v))
  {
    hide Shape, EntryOf, Walk, WriteWords, ZeroTable, TableWords, OnPath, Split;
    CopiedEntries(vm, layout, kernel, p, vm'.mem);
    CopiedHeap(vm, layout, p);
    CopiedShape(vm, vm', layout, kernel, p);
    CopiedWalks(vm, vm'.mem, layout, kernel, p);
  }

  lemma CopiedWalks(vm: Vm, m': Memory, layout: Layout, kernel: nat, p: nat)
    requires Shape(vm, layout) && Root(layout, kernel)
    requires forall u, j :: u in layout && 0 <= j < ENTRIES ==> EntryOf(m', u, j) == EntryOf(vm.mem, u, j)
    requires forall j :: 0 <= j < ENTRIES ==> EntryOf(m', p, j) == EntryOf(vm.mem, kernel, j)
    ensures forall v :: Translate(m', p, v) == Translate(vm.mem, kernel, v)
    ensures forall space, v :: Root(layout, space) ==> Translate(m', space, v) == Translate(vm.mem, space, v)
  {
    hide Shape, EntryOf, Walk;
    forall u, v: Indices | OnPath(layout, u, v)
      ensures Walk(m', u, v, LevelOf(layout[u])) == Walk(vm.mem, u, v, LevelOf(layout[u]))
    {
      WalkFrame(vm, m', layout, u, v);
    }
    forall v
      ensures Translate(m', p, v) == Translate(vm.mem, kernel, v)
    {
      SameTopSameWalk(vm.mem, m', vm, layout, kernel, p, v);
    }
    forall space, v | Root(layout, space)
      ensures Translate(m', space, v) == Translate(vm.mem, space, v)
    {
      assert OnPath(layout, space, Split(v));
    }
  }

  lemma CopiedHeap(vm: Vm, layout: Layout, p: nat)
    requires Shape(vm, layout) && vm.heap.ptr <= p && p + PAGE <= vm.heap.limit
    ensures Heap.Valid(vm.heap.(ptr := p + PAGE))
  {
  }

  lemma CopiedAddress(p: nat)
    requires p < 0x10_0000_0000_0000
    ensures EntryAddr(Wrap(p)) == p <==> p % PAGE == 0
  {
  }

  lemma CopiedEntries(vm: Vm, layout: Layout, kernel: nat, p: nat, m': Memory)
    requires Shape(vm, layout) && kernel in layout && vm.heap.ptr <= p && p % PAGE == 0
    requires m' == WriteWords(ZeroTable(vm.mem, p), p, TableWords(ZeroTable(vm.mem, p), kernel))
    ensures forall u, j :: u in layout && 0 <= j < ENTRIES ==> EntryOf(m', u, j) == EntryOf(vm.mem, u, j)
    ensures forall j :: 0 <= j < ENTRIES ==> EntryOf(m', p, j) == EntryOf(vm.mem, kernel, j)
  {
    var zeroed := ZeroTable(vm.mem, p);
    forall u, j | u in layout && 0 <= j < ENTRIES
      ensures EntryOf(m', u, j) == EntryOf(vm.mem, u, j)
      ensures EntryOf(zeroed, u, j) == EntryOf(vm.mem, u, j)
    {
      WriteWordsRead(zeroed, p, TableWords(zeroed, kernel), Slot(u, j));
      ZeroTableRead(vm.mem, p, Slot(u, j));
    }
    forall j | 0 <= j < ENTRIES
      ensures EntryOf(m', p, j) == EntryOf(vm.mem, kernel, j)
    {
      WriteWordsRead(zeroed, p, TableWords(zeroed, kernel), Slot(p, j));
    }
  }

  lemma CopiedShape(vm: Vm, vm': Vm, layout: Layout, kernel: nat, p: nat)
    requires Shape(vm, layout) && Root(layout, kernel)
    requires vm.heap.ptr <= p && p % PAGE == 0 && p + PAGE <= vm'.heap.ptr
    requires Heap.Valid(vm'.heap) && vm'.heap.limit == vm.heap.limit
    requires forall u, j :: u in layout && 0 <= j < ENTRIES ==> EntryOf(vm'.mem, u, j) == EntryOf(vm.mem, u, j)
    requires forall j :: 0 <= j < ENTRIES ==> EntryOf(vm'.mem, p, j) == EntryOf(vm.mem, kernel, j)
    ensures p !in layout && Shape(vm', layout[p := Node(0, [])])
  {
    var layout' := layout[p := Node(0, [])];
    forall u, j | u in layout' && 0 <= j < ENTRIES
      ensures Linked(vm'.mem, layout', u, j)
    {
      assert Linked(vm.mem, layout, if u == p then kernel else u, j);
    }
  }

  /** Two level 4 tables with the same entry for `v` translate `v` alike. */
  lemma SameTopSameWalk(m: Memory, m': Memory, vm: Vm, layout: Layout, a: nat, b: nat, v: nat)
    requires m == vm.mem && Shape(vm, layout) && Root(layout, a)
    requires EntryOf(m', b, Split(v).i4) == EntryOf(m, a, Split(v).i4)
    requires forall u, w: Indices :: OnPath(layout, u, w) ==> Walk(m', u, w, LevelOf(layout[u])) == Walk(m, u, w, LevelOf(layout[u]))
    ensures Translate(m', b, v) == Translate(m, a, v)
  {
    var i := Split(v).i4;
    var e := EntryOf(m, a, i);
    if Present(e) && !Large(e) {
      assert Linked(m, layout, a, i);
      PrefixWhole(Split(v));
      assert OnPath(layout, EntryAddr(e), Split(v));
    }
  }

  // ---------------------------------------------------------------- isolation over runs

  datatype Op =
    | Map(pml4: nat, virt: nat, phys: Word, flags: Word)
    | Unmap(pml4: nat, virt: nat)

  function Apply(vm: Vm, op: Op): Vm {
    match op
    case Map(pml4, virt, phys, flags) => MapPage(vm, pml4, virt, phys, flags).0
    case Unmap(pml4, virt) => UnmapPage(vm, pml4, virt).0
  }

  function Run(vm: Vm, ops: seq<Op>): Vm
    decreases |ops|
  {
    if ops == [] then vm else Run(Apply(vm, ops[0]), ops[1..])
  }

  /** Both spaces reach the same level 3 table through entry `i`. */
  predicate Shares(m: Memory, a: nat, b: nat, i: nat) {
    var ea, eb := EntryOf(m, a, i), EntryOf(m, b, i);
    Present(ea) && !Large(ea) && Present(eb) && !Large(eb) && EntryAddr(ea) == EntryAddr(eb)
  }

  /** What the model assumes of a call, where the source checks only for NULL: a live space, no bit 7, no large page on the path. */
  predicate Allowed(vm: Vm, layout: Layout, op: Op) {
    && Root(layout, op.pml4)
    && NoLarge(vm.mem, op.pml4, Split(op.virt), 4)
    && (op.Map? ==> !Large(op.flags))
  }

  function Grown(vm: Vm, layout: Layout, op: Op): Layout {
    match op
    case Map(pml4, virt, _, flags) => Grow(vm, layout, pml4, Split(virt), flags, 4)
    case Unmap(_, _) => layout
  }

  /** Everything one operation keeps that later operations rely on. */
  ghost predicate OpKept(vm: Vm, layout: Layout, op: Op, vm': Vm, layout': Layout) {
    && Shape(vm', layout') && Aligned(vm') && Extends(layout, layout')
    && (forall a, v: Indices :: Root(layout, a) && NoLarge(vm.mem, a, v, 4) ==> NoLarge(vm'.mem, a, v, 4))
    && (forall a, j :: Root(layout, a) && 0 <= j < ENTRIES && (a != op.pml4 || Present(EntryOf(vm.mem, a, j))) ==>
          EntryOf(vm'.mem, a, j) == EntryOf(vm.mem, a, j))
    && (forall a, b, j :: Root(layout, a) && Root(layout, b) && a != b && 0 <= j < ENTRIES ==>
          Shares(vm'.mem, a, b, j) == Shares(vm.mem, a, b, j))
    && (forall b, v :: Root(layout, b) && b != op.pml4 && !Shares(vm.mem, op.pml4, b, Split(op.virt).i4) ==>
          Translate(vm'.mem, b, v) == Translate(vm.mem, b, v))
  }

  /** From the step at level 4 and what the rest keeps below it. */
  lemma OpKeptFromParts(vm: Vm, layout: Layout, op: Op, vm1: Vm, layout1: Layout, next: nat,
                        vm': Vm, layout': Layout, code: int)
    requires Shape(vm, layout) && Allowed(vm, layout, op)
    requires Stepped(vm, layout, vm1, layout1, op.pml4, Split(op.virt).i4, next)
    requires Ready(layout1, next, Split(op.virt), 3)
    requires Present(EntryOf(vm.mem, op.pml4, Split(op.virt).i4)) ==> vm1 == vm
    requires !Present(EntryOf(vm.mem, op.pml4, Split(op.virt).i4)) ==> next !in layout
    requires forall j :: 0 <= j < ENTRIES && j != Split(op.virt).i4 ==>
               EntryOf(vm1.mem, op.pml4, j) == EntryOf(vm.mem, op.pml4, j)
    requires Kept(vm1, layout1, vm', layout', next, Split(op.virt), 3, code) && Aligned(vm')
    ensures OpKept(vm, layout, op, vm', layout')
  {
    var i := Split(op.virt).i4;
    forall a, j | Root(layout, a) && 0 <= j < ENTRIES
      ensures EntryOf(vm'.mem, a, j) == EntryOf(vm1.mem, a, j)
      ensures a != op.pml4 || j != i ==> EntryOf(vm'.mem, a, j) == EntryOf(vm.mem, a, j)
    {
      KeptEntry(vm1, layout1, vm', layout', next, a, j, Split(op.virt), 3, code);
    }
    forall a, v: Indices | Root(layout, a) && NoLarge(vm.mem, a, v, 4)
      ensures NoLarge(vm'.mem, a, v, 4)
    {
      assert OnPath(layout, a, v) && OnPath(layout1, a, v);
    }
    forall a, b, j | Root(layout, a) && Root(layout, b) && a != b && 0 <= j < ENTRIES
      ensures Shares(vm'.mem, a, b, j) == Shares(vm.mem, a, b, j)
    {
      assert Linked(vm.mem, layout, a, j) && Linked(vm.mem, layout, b, j);
    }
    forall b, v | Root(layout, b) && b != op.pml4 && !Shares(vm.mem, op.pml4, b, i)
      ensures Translate(vm'.mem, b, v) == Translate(vm.mem, b, v)
    {
      var e := EntryOf(vm.mem, b, Split(v).i4);
      assert OnPath(layout, b, Split(v));
      if Present(e) && !Large(e) {
        var d := EntryAddr(e);
        assert Linked(vm.mem, layout, b, Split(v).i4);
        PrefixWhole(Split(v));
        assert OnPath(layout, d, Split(v)) && OnPath(layout1, d, Split(v));
        assert layout1[next].top == next;
        assert Elsewhere(layout1, next, Split(op.virt), d, Split(v));
        assert Walk(vm'.mem, d, Split(v), 3) == Walk(vm.mem, d, Split(v), 3);
      }
    }
  }

  lemma ApplyKept(vm: Vm, layout: Layout, op: Op)
    requires Shape(vm, layout) && Aligned(vm) && Allowed(vm, layout, op)
    ensures OpKept(vm, layout, op, Apply(vm, op), Grown(vm, layout, op))
  {
    var i := Split(op.virt).i4;
    var e := EntryOf(vm.mem, op.pml4, i);
    assert OnPath(layout, op.pml4, Split(op.virt));
    match op
    case Map(pml4, virt, phys, flags) =>
      NextTableStepped(vm, layout, pml4, Split(virt), flags, 4);
      var (vm1, next) := NextTable(vm, pml4, i, flags, true);
      if next.Some? {
        var layout1 := if Present(e) then layout else layout[next.value := Child(layout[pml4], i, next.value)];
        if !Present(e) { NextTableFresh(vm, layout, pml4, i, flags); }
        MapFromKeeps(vm1, layout1, next.value, Split(virt), phys, flags, 3);
        var (vm', code) := MapFrom(vm1, next.value, Split(virt), phys, flags, 3);
        OpKeptFromParts(vm, layout, op, vm1, layout1, next.value, vm', Grow(vm1, layout1, next.value, Split(virt), flags, 3), code);
      }
    case Unmap(pml4, virt) =>
      if Present(e) {
        StepDown(vm, layout, pml4, Split(virt), 4);
        UnmapFromKeeps(vm, layout, EntryAddr(e), Split(virt), 3);
        var (vm', code) := UnmapFrom(vm, EntryAddr(e), Split(virt), 3);
        OpKeptFromParts(vm, layout, op, vm, layout, EntryAddr(e), vm', layout, code);
      }
  }

  /**
   Isolation: over any run of maps and unmaps in other spaces, through entries that are not shared
   with `b`, no translation of `b` ever changes.
   */
  lemma {:induction false} Isolation(vm: Vm, layout: Layout, ops: seq<Op>, b: nat, v: nat)
    requires Shape(vm, layout) && Aligned(vm) && Root(layout, b)
    requires forall k :: 0 <= k < |ops| ==>
               && Allowed(vm, layout, ops[k]) && ops[k].pml4 != b
               && !Shares(vm.mem, ops[k].pml4, b, Split(ops[k].virt).i4)
    ensures Translate(Run(vm, ops).mem, b, v) == Translate(vm.mem, b, v)
    decreases |ops|
  {
    if ops != [] {
      var vm1, layout1 := Apply(vm, ops[0]), Grown(vm, layout, ops[0]);
      ApplyKept(vm, layout, ops[0]);
      assert Allowed(vm, layout, ops[0]);
      forall k | 0 <= k < |ops[1..]|
        ensures Allowed(vm1, layout1, ops[1..][k])
        ensures !Shares(vm1.mem, ops[1..][k].pml4, b, Split(ops[1..][k].virt).i4)
      {
        assert Allowed(vm, layout, ops[k + 1]);
      }
      Isolation(vm1, layout1, ops[1..], b, v);
    }
  }

  /** Sharing: spaces that share an entry agree below it after any run of maps and unmaps, by whomever. */
  lemma {:induction false} Sharing(vm: Vm, layout: Layout, ops: seq<Op>, a: nat, b: nat, v: nat)
    requires Shape(vm, layout) && Aligned(vm) && Root(layout, a) && Root(layout, b)
    requires Shares(vm.mem, a, b, Split(v).i4)
    requires forall k :: 0 <= k < |ops| ==> Allowed(vm, layout, ops[k])
    ensures Translate(Run(vm, ops).mem, a, v) == Translate(Run(vm, ops).mem, b, v)
    decreases |ops|
  {
    if ops != [] {
      var vm1, layout1 := Apply(vm, ops[0]), Grown(vm, layout, ops[0]);
      ApplyKept(vm, layout, ops[0]);
      assert Allowed(vm, layout, ops[0]);
      forall k | 0 <= k < |ops[1..]|
        ensures Allowed(vm1, layout1, ops[1..][k])
      {
        assert Allowed(vm, layout, ops[k + 1]);
      }
      Sharing(vm1, layout1, ops[1..], a, b, v);
    }
  }

  /**
   A new space and the rest of the system: whatever it maps through entries the kernel left empty
   stays invisible to the kernel and to every older space, and where the kernel had a table the two
   agree for ever.
   */
  lemma NewSpaceApart(vm: Vm, layout: Layout, kernel: nat, ops: seq<Op>, older: nat, v: nat)
    requires Shape(vm, layout) && Root(layout, kernel) && Root(layout, older)
    requires vm.heap.ptr % 8 == 0 && SpaceAligned(vm)
    requires CreateSpace(vm, kernel).1.Some?
    requires var (vm1, s) := CreateSpace(vm, kernel);
             forall k :: 0 <= k < |ops| ==>
               && ops[k].pml4 == s.value.pml4 && (ops[k].Map? ==> !Large(ops[k].flags))
               && !Present(EntryOf(vm.mem, kernel, Split(ops[k].virt).i4))
    ensures var (vm1, s) := CreateSpace(vm, kernel);
            && Translate(Run(vm1, ops).mem, older, v) == Translate(vm.mem, older, v)
            && (var e := EntryOf(vm.mem, kernel, Split(v).i4);
                Present(e) && !Large(e) ==>
                  Translate(Run(vm1, ops).mem, s.value.cr3, v) == Translate(Run(vm1, ops).mem, kernel, v))
  {
    CreateSpaceCorrect(vm, layout, kernel);
    var (vm1, s) := CreateSpace(vm, kernel);
    var a := s.value.pml4;
    var layout1 := layout[a := Node(0, [])];
    assert Root(layout1, a) && Root(layout1, kernel) && Root(layout1, older);
    CreateSpaceKeepsEntries(vm, layout, kernel);
    Isolation(vm1, layout1, ops, older, v);
    var e := EntryOf(vm.mem, kernel, Split(v).i4);
    if Present(e) && !Large(e) {
      assert Shares(vm1.mem, a, kernel, Split(v).i4);
      Sharing(vm1, layout1, ops, a, kernel, v);
    }
  }

  lemma CreateSpaceKeepsEntries(vm: Vm, layout: Layout, kernel: nat)
    requires Shape(vm, layout) && Root(layout, kernel)
    requires vm.heap.ptr % 8 == 0 && SpaceAligned(vm) && CreateSpace(vm, kernel).1.Some?
    ensures forall u, j :: u in layout && 0 <= j < ENTRIES ==>
              EntryOf(CreateSpace(vm, kernel).0.mem, u, j) == EntryOf(vm.mem, u, j)
  {
    Heap.KmallocPlain(vm.heap, AS_STRUCT_SIZE);
    var h1 := Heap.Kmalloc(vm.heap, AS_STRUCT_SIZE).0;
    Heap.KmallocPlain(h1, PAGE);
    var (vm', r) := CreateSpace(vm, kernel);
    CopiedEntries(vm, layout, kernel, r.value.pml4, vm'.mem);
  }
}
