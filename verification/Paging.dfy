/**
 Page tables: the kernel's map, unmap and shallow clone over raw physical memory, against the
 four-level walk of section 4.5 of the Intel SDM, Volume 3A.
 */
module Paging {
  import opened Words
  import Heap

  const ENTRIES: nat := 512
  const LARGE_BIT: nat := 0x80
  const AS_STRUCT_SIZE: nat := 16

  // ---------------------------------------------------------------- memory and entries

  /** Physical memory by 8-byte word. Words that are not listed are zero. */
  type Memory = map<nat, Word>

  function Read(m: Memory, a: nat): Word {
    if a in m then m[a] else 0
  }

  function Slot(table: nat, i: nat): nat {
    table + 8 * i
  }

  function EntryOf(m: Memory, table: nat, i: nat): Word {
    Read(m, Slot(table, i))
  }

  /** Bit 0. */
  predicate Present(e: Word) {
    e % 2 == 1
  }

  /** Bit 7: in a level 2 or 3 entry, a page and not a table. */
  predicate Large(e: Word) {
    e / LARGE_BIT % 2 == 1
  }

  /** Bits 51:12. */
  function EntryAddr(e: Word): nat {
    e / PAGE % 0x100_0000_0000 * PAGE
  }

  /** Bits 51:21 of a level 2 entry, bits 51:30 of a level 3 entry. */
  function LargeBase(e: Word, level: nat): nat {
    if level == 2 then e / 0x20_0000 % 0x8000_0000 * 0x20_0000
    else e / 0x4000_0000 % 0x40_0000 * 0x4000_0000
  }

  /** `(addr & ENTRY_ADDR_MASK) | (flags & 0xFFF) | PRESENT` */
  function MakeEntry(addr: Word, flags: Word): Word {
    var low := flags % PAGE;
    EntryAddr(addr) + (if low % 2 == 1 then low else low + 1)
  }

  /** A virtual page by the entries it selects at levels 4 to 1, nine bits each. */
  datatype Quad = Quad(i4: nat, i3: nat, i2: nat, i1: nat)

  type Indices = q: Quad | q.i4 < ENTRIES && q.i3 < ENTRIES && q.i2 < ENTRIES && q.i1 < ENTRIES
    witness Quad(0, 0, 0, 0)

  function Split(virt: nat): Indices {
    Quad(virt / 0x80_0000_0000 % ENTRIES, virt / 0x4000_0000 % ENTRIES, virt / 0x20_0000 % ENTRIES, virt / 0x1000 % ENTRIES)
  }

  function Index(v: Indices, level: nat): (i: nat)
    requires 1 <= level <= 4
    ensures i < ENTRIES
  {
    if level == 4 then v.i4 else if level == 3 then v.i3 else if level == 2 then v.i2 else v.i1
  }

  /** The page number in bits 47:12. */
  function PageNumber(virt: nat): nat {
    virt / PAGE % 0x10_0000_0000
  }

  /** The four indices are together as good as bits 47:12. */
  lemma IndexSplitInjective(v: nat, w: nat)
    ensures Split(v) == Split(w) <==> PageNumber(v) == PageNumber(w)
  {
    PageNumberByIndex(v);
    PageNumberByIndex(w);
    SameDigits(Split(v).i1, Split(v).i2, Split(v).i3, Split(v).i4,
               Split(w).i1, Split(w).i2, Split(w).i3, Split(w).i4);
  }

  lemma SameDigits(a1: nat, a2: nat, a3: nat, a4: nat, b1: nat, b2: nat, b3: nat, b4: nat)
    requires a1 < 512 && a2 < 512 && a3 < 512 && a4 < 512 && b1 < 512 && b2 < 512 && b3 < 512 && b4 < 512
    ensures a1 + 512 * a2 + 262144 * a3 + 134217728 * a4 == b1 + 512 * b2 + 262144 * b3 + 134217728 * b4
            <==> a1 == b1 && a2 == b2 && a3 == b3 && a4 == b4
  {
    SameDigit(a1, a2 + 512 * (a3 + 512 * a4), b1, b2 + 512 * (b3 + 512 * b4));
    SameDigit(a2, a3 + 512 * a4, b2, b3 + 512 * b4);
    SameDigit(a3, a4, b3, b4);
  }

  lemma SameDigit(a: nat, x: nat, b: nat, y: nat)
    requires a < 512 && b < 512
    ensures a + 512 * x == b + 512 * y <==> a == b && x == y
  {
  }

  lemma PageNumberByIndex(v: nat)
    ensures var q := Split(v); PageNumber(v) == q.i1 + 512 * q.i2 + 262144 * q.i3 + 134217728 * q.i4
  {
    var p := v / 0x1000;
    var p2, p3, p4 := p / 512, p / 512 / 512, p / 512 / 512 / 512;
    var d1, d2, d3, d4 := p % 512, p2 % 512, p3 % 512, p4 % 512;
    var low := v % 0x1000;
    QuotRem(v, p2, d1 * 0x1000 + low, 0x20_0000);
    QuotRem(v, p3, d2 * 0x20_0000 + d1 * 0x1000 + low, 0x4000_0000);
    QuotRem(v, p4, d3 * 0x4000_0000 + d2 * 0x20_0000 + d1 * 0x1000 + low, 0x80_0000_0000);
    QuotRem(p, p4 / 512, d1 + 512 * d2 + 262144 * d3 + 134217728 * d4, 0x10_0000_0000);
  }

  // ---------------------------------------------------------------- the hardware's walk

  /** Where a walk ends: a page of the size of `level`, its base address and the low flag bits. */
  datatype Leaf = Leaf(level: nat, base: nat, flags: nat)

  /**
   The walk from a table at `level`. `None` is a page fault: an entry that is not present, or the
   reserved bit 7 of a level 4 entry.
   */
  function Walk(m: Memory, table: nat, virt: Indices, level: nat): Option<Leaf>
    requires 1 <= level <= 4
    decreases level
  {
    var e := EntryOf(m, table, Index(virt, level));
    if !Present(e) then None
    else if level == 1 then Some(Leaf(1, EntryAddr(e), e % PAGE))
    else if Large(e) then
      if level == 4 then None else Some(Leaf(level, LargeBase(e, level), e % PAGE))
    else Walk(m, EntryAddr(e), virt, level - 1)
  }

  function Translate(m: Memory, pml4: nat, virt: nat): Option<Leaf> {
    Walk(m, pml4, Split(virt), 4)
  }

  /** No entry above level 1 on the walked path is a large page. */
  predicate NoLarge(m: Memory, table: nat, virt: Indices, level: nat)
    requires 1 <= level <= 4
    decreases level
  {
    level == 1 ||
    var e := EntryOf(m, table, Index(virt, level));
    Present(e) ==> !Large(e) && NoLarge(m, EntryAddr(e), virt, level - 1)
  }

  // ---------------------------------------------------------------- the kernel's operations

  datatype Vm = Vm(mem: Memory, heap: Heap.State)

  /** Consecutive words from `table` on. */
  function WriteWords(m: Memory, table: nat, ws: seq<Word>): Memory {
    if ws == [] then m
    else
      var n := |ws| - 1;
      WriteWords(m, table, ws[..n])[Slot(table, n) := ws[n]]
  }

  function TableWords(m: Memory, table: nat): seq<Word> {
    seq(ENTRIES, i requires 0 <= i => EntryOf(m, table, i))
  }

  function ZeroTable(m: Memory, table: nat): Memory {
    WriteWords(m, table, seq(ENTRIES, _ => 0))
  }

  function AllocTable(vm: Vm): (Vm, Option<nat>) {
    var (heap', t) := Heap.Kmalloc(vm.heap, PAGE);
    if t.None? then (vm.(heap := heap'), None)
    else (Vm(ZeroTable(vm.mem, t.value), heap'), t)
  }

  function NextTable(vm: Vm, table: nat, i: nat, flags: Word, create: bool): (Vm, Option<nat>) {
    var e := EntryOf(vm.mem, table, i);
    if Present(e) then (vm, if EntryAddr(e) == 0 then None else Some(EntryAddr(e)))
    else if !create then (vm, None)
    else
      var (vm1, t) := AllocTable(vm);
      if t.None? then (vm1, None)
      else (vm1.(mem := vm1.mem[Slot(table, i) := MakeEntry(Wrap(t.value), flags)]), t)
  }

  /** Error codes by the level of the table that could not be had: -2, -3 and -4. */
  function MapFrom(vm: Vm, table: nat, virt: Indices, phys: Word, flags: Word, level: nat): (Vm, int)
    requires 1 <= level <= 4
    decreases level
  {
    if level == 1 then
      (vm.(mem := vm.mem[Slot(table, Index(virt, 1)) := MakeEntry(phys, flags)]), 0)
    else
      var (vm1, next) := NextTable(vm, table, Index(virt, level), flags, true);
      if next.None? then (vm1, level - 6)
      else MapFrom(vm1, next.value, virt, phys, flags, level - 1)
  }

  function MapPage(vm: Vm, pml4: nat, virt: nat, phys: Word, flags: Word): (Vm, int) {
    if pml4 == 0 then (vm, -1) else MapFrom(vm, pml4, Split(virt), phys, flags, 4)
  }

  function UnmapFrom(vm: Vm, table: nat, virt: Indices, level: nat): (Vm, int)
    requires 1 <= level <= 4
    decreases level
  {
    if level == 1 then
      (vm.(mem := vm.mem[Slot(table, Index(virt, 1)) := 0]), 0)
    else
      var (vm1, next) := NextTable(vm, table, Index(virt, level), 0, false);
      if next.None? then (vm1, level - 6)
      else UnmapFrom(vm1, next.value, virt, level - 1)
  }

  function UnmapPage(vm: Vm, pml4: nat, virt: nat): (Vm, int) {
    if pml4 == 0 then (vm, -1) else UnmapFrom(vm, pml4, Split(virt), 4)
  }

  /** A new address space: its pml4 pointer and its cr3. `kernelPml4` is 0 before vmm_init. */
  datatype Space = Space(pml4: nat, cr3: nat)

  function CreateSpace(vm: Vm, kernelPml4: nat): (Vm, Option<Space>) {
    var (heap', r) := Heap.Kmalloc(vm.heap, AS_STRUCT_SIZE);
    if r.None? then (vm.(heap := heap'), None)
    else
      var (vm1, t) := AllocTable(vm.(heap := heap'));
      if t.None? then (vm1, None)
      else
        var vm2 := if kernelPml4 == 0 then vm1 else vm1.(mem := WriteWords(vm1.mem, t.value, TableWords(vm1.mem, kernelPml4)));
        (vm2, Some(Space(t.value, EntryAddr(Wrap(t.value)))))
  }
}
