/** The frame allocator from boot on: what it starts with, and what every run of it conserves. */
module FrameRuns {
  import opened Words
  import opened Frames
  import Heap

  // ---------------------------------------------------------------- filling the table at boot

  const MIB: nat := 0x10_0000
  const USABLE: nat := 1

  /** A memory map entry: base, length and type. */
  datatype Entry = Entry(addr: Word, len: Word, kind: nat)

  /** The allocator's static variables, and the range kept for the kernel image and heap. */
  datatype Pool = Pool(regions: seq<Region>, total: nat)
  datatype Kernel = Kernel(start: nat, end: nat)

  /** Where the kernel image starts and where the heap behind it ends. */
  function KernelRange(imageStart: nat, imageEnd: nat): Kernel {
    Kernel(imageStart, imageEnd + Heap.KERNEL_HEAP_SIZE)
  }

  function AddUsable(rs: seq<Region>, lo: nat, hi: nat, k: Kernel): seq<Region> {
    if hi <= k.start || lo >= k.end then AddFree(rs, lo, Wrap(hi - lo))
    else
      var rs1 := if lo < k.start then AddFree(rs, lo, k.start - lo) else rs;
      if hi > k.end then AddFree(rs1, k.end, hi - k.end) else rs1
  }

  /** mmap_callback */
  function Callback(p: Pool, e: Entry, k: Kernel): Pool {
    if e.kind != USABLE || Wrap(e.addr + e.len) <= MIB then p
    else
      var lo := if e.addr < MIB then MIB else e.addr;
      var len := if e.addr < MIB then Wrap(e.len - (MIB - e.addr)) else e.len;
      Pool(AddUsable(p.regions, lo, Wrap(lo + len), k), Wrap(p.total + e.len))
  }

  function Fill(p: Pool, es: seq<Entry>, k: Kernel): Pool
    decreases |es|
  {
    if es == [] then p else Callback(Fill(p, es[..|es| - 1], k), es[|es| - 1], k)
  }

  predicate PageIn(f: nat, lo: nat, hi: nat) {
    lo <= f * PAGE && f * PAGE + PAGE <= hi
  }

  /** The frames an entry should contribute: whole pages of usable memory above 1 MiB outside the kernel. */
  predicate Usable(e: Entry, k: Kernel, f: nat) {
    && e.kind == USABLE && PageIn(f, e.addr, e.addr + e.len)
    && MIB <= f * PAGE
    && Outside(k, f)
  }

  /** The frame touches neither the kernel image nor its heap. */
  predicate Outside(k: Kernel, f: nat) {
    f * PAGE + PAGE <= k.start || k.end <= f * PAGE
  }

  predicate EntriesOk(es: seq<Entry>) {
    && (forall i :: 0 <= i < |es| ==> es[i].addr + es[i].len < TWO64)
    && (forall i, j :: 0 <= i < j < |es| ==>
          es[i].addr + es[i].len <= es[j].addr || es[j].addr + es[j].len <= es[i].addr)
  }

  predicate KernelOk(k: Kernel) {
    0 < k.start < k.end < TWO64
  }

  /** add_free_region in terms of whole pages. */
  lemma AddFreeIs(rs: seq<Region>, addr: nat, len: nat)
    requires addr + len < TWO64
    ensures var lo, hi := (addr + PAGE - 1) / PAGE, (addr + len) / PAGE;
            AddFree(rs, addr, len) == if lo < hi then AddRange(rs, lo * PAGE, hi - lo) else rs
  {
    hide AddRange;
    var up, end := addr + PAGE - 1, addr + len;
    var lo, hi := up / PAGE, end / PAGE;
    assert up == lo * PAGE + up % PAGE && end == hi * PAGE + end % PAGE;
    if len >= PAGE {
      assert PageUp(addr) == lo * PAGE && PageDown(Wrap(end)) == hi * PAGE;
      if lo < hi { QuotRem(hi * PAGE - lo * PAGE, hi - lo, 0, PAGE); }
    }
  }

  lemma PagesBetween(addr: nat, end: nat, f: nat)
    ensures var lo, hi := (addr + PAGE - 1) / PAGE, end / PAGE;
            PageIn(f, addr, end) <==> lo < hi && Holds(Region(lo * PAGE, hi - lo), f)
  {
  }

  /** The range has a whole page, nothing to merge with and no slot left. */
  predicate Dropped(rs: seq<Region>, addr: nat, len: nat) {
    var lo, hi := (addr + PAGE - 1) / PAGE, (addr + len) / PAGE;
    lo < hi && Full(rs, lo * PAGE, hi - lo)
  }

  /** add_free_region gains exactly the whole pages of its range, or nothing when they are dropped. */
  lemma AddFreeAdds(rs: seq<Region>, addr: nat, len: nat)
    requires Inv(rs) && 0 < addr && addr + len < TWO64
    requires forall f: nat :: PageIn(f, addr, addr + len) ==> !Free(rs, f)
    ensures var rs' := AddFree(rs, addr, len);
            && Inv(rs') && |rs| <= |rs'| <= |rs| + 1
            && (forall f: nat :: Free(rs', f) <==> Free(rs, f) || (PageIn(f, addr, addr + len) && !Dropped(rs, addr, len)))
            && (Dropped(rs, addr, len) ==> |rs'| >= MAX_REGIONS && PageIn((addr + PAGE - 1) / PAGE, addr, addr + len))
            && FreeBytes(rs') <= FreeBytes(rs) + len
  {
    hide Free, PageIn, Inv, AddFree, AddRange, FreeBytes, Full;
    var lo, hi := (addr + PAGE - 1) / PAGE, (addr + len) / PAGE;
    AddFreeIs(rs, addr, len);
    var end := addr + len;
    forall f: nat
      ensures PageIn(f, addr, end) <==> lo < hi && Holds(Region(lo * PAGE, hi - lo), f)
    {
      PagesBetween(addr, end, f);
    }
    if lo < hi {
      assert WellFormed(Region(lo * PAGE, hi - lo)) by { QuotRem(lo * PAGE, lo, 0, PAGE); }
      AddRangeAdds(rs, lo * PAGE, hi - lo);
      AddRangeBytes(rs, lo * PAGE, hi - lo);
      AddRangeLength(rs, lo * PAGE, hi - lo);
    }
  }

  lemma AddRangeLength(rs: seq<Region>, start: nat, frames: nat)
    ensures |rs| <= |AddRange(rs, start, frames)| <= |rs| + 1
    ensures Full(rs, start, frames) ==> |AddRange(rs, start, frames)| >= MAX_REGIONS
  {
  }

  /** One of the additions for this interval is dropped. */
  predicate SomeDropped(rs: seq<Region>, lo: nat, hi: nat, k: Kernel) {
    if hi <= k.start || lo >= k.end then Dropped(rs, lo, if lo <= hi then hi - lo else 0)
    else
      var rs1 := if lo < k.start then AddFree(rs, lo, k.start - lo) else rs;
      (lo < k.start && Dropped(rs, lo, k.start - lo)) || (hi > k.end && Dropped(rs1, k.end, hi - k.end))
  }

  /** What an interval may gain, and that it gains all of it exactly when nothing is dropped. */
  ghost predicate Gains(rs: seq<Region>, rs': seq<Region>, lo: nat, hi: nat, k: Kernel, all: bool) {
    && Inv(rs') && |rs| <= |rs'| <= |rs| + 2
    && (forall f: nat :: Free(rs', f) ==> Free(rs, f) || (PageIn(f, lo, hi) && Outside(k, f)))
    && (forall f: nat :: Free(rs, f) ==> Free(rs', f))
    && (all <==> forall f: nat :: PageIn(f, lo, hi) && Outside(k, f) ==> Free(rs', f))
    && (!all ==> |rs'| >= MAX_REGIONS)
    && FreeBytes(rs') <= FreeBytes(rs) + (hi - lo)
  }

  /** An interval that overlaps the kernel contributes what is left of it on either side. */
  lemma AddAround(rs: seq<Region>, lo: nat, hi: nat, k: Kernel)
    requires Inv(rs) && KernelOk(k) && 0 < lo <= hi < TWO64
    requires lo < k.end && k.start < hi
    requires forall f: nat :: PageIn(f, lo, hi) && Outside(k, f) ==> !Free(rs, f)
    ensures Gains(rs, AddUsable(rs, lo, hi, k), lo, hi, k, !SomeDropped(rs, lo, hi, k))
  {
    hide Free, AddFree, FreeBytes, Inv, Dropped;
    var rs1 := if lo < k.start then AddFree(rs, lo, k.start - lo) else rs;
    var rs2 := AddUsable(rs, lo, hi, k);
    var below, above := (lo + PAGE - 1) / PAGE, (k.end + PAGE - 1) / PAGE;
    if lo < k.start {
      assert forall f: nat :: PageIn(f, lo, k.start) ==> PageIn(f, lo, hi) && Outside(k, f);
      AddFreeAdds(rs, lo, k.start - lo);
    }
    assert forall f: nat :: Free(rs1, f) ==> Free(rs, f) || PageIn(f, lo, k.start);
    if hi > k.end {
      assert forall f: nat :: PageIn(f, k.end, hi) ==> PageIn(f, lo, hi) && Outside(k, f) && !PageIn(f, lo, k.start);
      AddFreeAdds(rs1, k.end, hi - k.end);
    }
    assert forall f: nat :: PageIn(f, lo, hi) && Outside(k, f) <==> PageIn(f, lo, k.start) || (PageIn(f, k.end, hi) && lo < k.end);
    if lo < k.start && Dropped(rs, lo, k.start - lo) {
      assert PageIn(below, lo, hi) && Outside(k, below) && !Free(rs2, below);
    } else if hi > k.end && Dropped(rs1, k.end, hi - k.end) {
      assert PageIn(above, lo, hi) && Outside(k, above) && !Free(rs2, above);
    }
  }

  lemma AddUsableAdds(rs: seq<Region>, lo: nat, hi: nat, k: Kernel)
    requires Inv(rs) && KernelOk(k) && 0 < lo <= hi < TWO64
    requires forall f: nat :: PageIn(f, lo, hi) && Outside(k, f) ==> !Free(rs, f)
    ensures Gains(rs, AddUsable(rs, lo, hi, k), lo, hi, k, !SomeDropped(rs, lo, hi, k))
  {
    hide Free, AddFree, FreeBytes, Inv, Dropped;
    if hi <= k.start || lo >= k.end {
      assert forall f: nat :: PageIn(f, lo, hi) ==> Outside(k, f);
      AddFreeAdds(rs, lo, hi - lo);
      var first := (lo + PAGE - 1) / PAGE;
      if Dropped(rs, lo, hi - lo) {
        assert PageIn(first, lo, hi) && !Free(AddUsable(rs, lo, hi, k), first);
      }
    } else {
      AddAround(rs, lo, hi, k);
    }
  }

  /** Part of the entry is dropped. */
  predicate EntryDropped(p: Pool, e: Entry, k: Kernel) {
    e.kind == USABLE && e.addr + e.len > MIB && SomeDropped(p.regions, if e.addr < MIB then MIB else e.addr, e.addr + e.len, k)
  }

  lemma CallbackAdds(p: Pool, e: Entry, k: Kernel)
    requires Inv(p.regions) && KernelOk(k) && e.addr + e.len < TWO64 && p.total + e.len < TWO64
    requires forall f: nat :: Usable(e, k, f) ==> !Free(p.regions, f)
    ensures var p' := Callback(p, e, k);
            && Inv(p'.regions) && |p.regions| <= |p'.regions| <= |p.regions| + 2
            && (forall f: nat :: Free(p'.regions, f) ==> Free(p.regions, f) || Usable(e, k, f))
            && (forall f: nat :: Free(p.regions, f) ==> Free(p'.regions, f))
            && (!EntryDropped(p, e, k) <==> forall f: nat :: Usable(e, k, f) ==> Free(p'.regions, f))
            && (EntryDropped(p, e, k) ==> |p'.regions| >= MAX_REGIONS)
            && p.total <= p'.total <= p.total + e.len
            && (FreeBytes(p.regions) <= p.total ==> FreeBytes(p'.regions) <= p'.total)
  {
    hide Free, AddUsable, FreeBytes, Inv, SomeDropped;
    if e.kind == USABLE && e.addr + e.len > MIB {
      var lo := if e.addr < MIB then MIB else e.addr;
      var hi := e.addr + e.len;
      assert Callback(p, e, k) == Pool(AddUsable(p.regions, lo, hi, k), p.total + e.len);
      assert forall f: nat :: Usable(e, k, f) <==> PageIn(f, lo, hi) && Outside(k, f);
      AddUsableAdds(p.regions, lo, hi, k);
    }
  }

  function SumLen(es: seq<Entry>): nat {
    if es == [] then 0 else SumLen(es[..|es| - 1]) + es[|es| - 1].len
  }

  predicate UsableBy(es: seq<Entry>, k: Kernel, f: nat) {
    exists i :: 0 <= i < |es| && Usable(es[i], k, f)
  }

  lemma UsableByLast(es: seq<Entry>, last: Entry, k: Kernel, f: nat)
    ensures UsableBy(es + [last], k, f) <==> UsableBy(es, k, f) || Usable(last, k, f)
  {
    var all := es + [last];
    if i :| 0 <= i < |all| && Usable(all[i], k, f) {
      assert i < |es| ==> Usable(es[i], k, f);
    }
    if i :| 0 <= i < |es| && Usable(es[i], k, f) { assert Usable(all[i], k, f); }
    if Usable(last, k, f) { assert Usable(all[|es|], k, f); }
  }

  lemma NotUsableTwice(es: seq<Entry>, last: Entry, k: Kernel, f: nat)
    requires EntriesOk(es + [last]) && Usable(last, k, f)
    ensures !UsableBy(es, k, f)
  {
    var all := es + [last];
    forall i | 0 <= i < |es|
      ensures !Usable(es[i], k, f)
    {
      assert all[i] == es[i] && all[|es|] == last;
    }
  }

  /** No addition on the way found the table full. */
  predicate NothingDropped(es: seq<Entry>, k: Kernel) {
    es == [] || (
      var init := es[..|es| - 1];
      NothingDropped(init, k) && !EntryDropped(Fill(Pool([], 0), init, k), es[|es| - 1], k))
  }

  /**
   Free memory after pmm_init: only whole pages of usable entries at or above 1 MiB and outside the kernel
   and its heap; all of them if and only if no addition found the table full, as when fewer than 64 regions
   are in use; and never more than the reported total.
   */
  lemma {:induction false} FillExact(es: seq<Entry>, k: Kernel)
    requires EntriesOk(es) && KernelOk(k) && SumLen(es) < TWO64
    ensures var p := Fill(Pool([], 0), es, k);
            && Inv(p.regions) && |p.regions| <= 2 * |es|
            && (forall f: nat :: Free(p.regions, f) ==> UsableBy(es, k, f))
            && (NothingDropped(es, k) <==> forall f: nat :: UsableBy(es, k, f) ==> Free(p.regions, f))
            && (|p.regions| < MAX_REGIONS ==> NothingDropped(es, k))
            && FreeBytes(p.regions) <= p.total <= SumLen(es)
    decreases |es|
  {
    if es != [] {
      hide Free, Callback, FreeBytes, Usable, UsableBy, Inv, EntryDropped;
      var n := |es| - 1;
      var init, last := es[..n], es[n];
      assert es == init + [last];
      FillExact(init, k);
      var p := Fill(Pool([], 0), init, k);
      forall f: nat | Usable(last, k, f)
        ensures !Free(p.regions, f) && !UsableBy(init, k, f)
      {
        NotUsableTwice(init, last, k, f);
      }
      CallbackAdds(p, last, k);
      forall f: nat
        ensures UsableBy(es, k, f) <==> UsableBy(init, k, f) || Usable(last, k, f)
      {
        UsableByLast(init, last, k, f);
      }
    }
  }

  /** Usable memory that does not end below 1 MiB: what pmm_total_memory reports. */
  predicate Counted(e: Entry) {
    e.kind == 1 && e.addr + e.len > 0x10_0000
  }

  function CountedLen(es: seq<Entry>): nat {
    if es == [] then 0 else CountedLen(es[..|es| - 1]) + if Counted(es[|es| - 1]) then es[|es| - 1].len else 0
  }

  /** The reported total is the length of the counted entries, low memory and kernel included. */
  lemma {:induction false} TotalIs(es: seq<Entry>, k: Kernel)
    requires (forall i :: 0 <= i < |es| ==> es[i].addr + es[i].len < TWO64) && SumLen(es) < TWO64
    ensures Fill(Pool([], 0), es, k).total == CountedLen(es) <= SumLen(es)
    decreases |es|
  {
    if es != [] {
      hide Callback;
      var init, last := es[..|es| - 1], es[|es| - 1];
      TotalIs(init, k);
      CallbackTotal(Fill(Pool([], 0), init, k), last, k);
    }
  }

  lemma CallbackTotal(p: Pool, e: Entry, k: Kernel)
    requires e.addr + e.len < TWO64 && p.total + e.len < TWO64
    ensures Callback(p, e, k).total == p.total + if Counted(e) then e.len else 0
  {
    hide AddUsable;
  }

  // ---------------------------------------------------------------- runs

  /** `n` frame numbers from that of address `addr` on. */
  function Span(addr: nat, n: nat): (s: set<nat>)
    ensures forall f :: f in s <==> addr / PAGE <= f < addr / PAGE + n
    ensures |s| == n
  {
    if n == 0 then {} else Span(addr, n - 1) + {addr / PAGE + n - 1}
  }

  lemma SpanHolds(addr: nat, n: nat)
    requires addr % PAGE == 0
    ensures forall f :: f in Span(addr, n) <==> Holds(Region(addr, n), f)
  {
  }

  /** The table together with what callers hold and what a full table has lost; the last two are history. */
  datatype World = World(regions: seq<Region>, out: set<nat>, lost: set<nat>)

  datatype Op =
    | TakeOne
    | TakeMany(count: Word)
    | GiveOne(addr: nat)
    | GiveMany(addr: nat, count: Word)

  function After(w: World, taken: (seq<Region>, nat), count: nat): World {
    if taken.1 == 0 then w.(regions := taken.0) else w.(regions := taken.0, out := w.out + Span(taken.1, count))
  }

  function Returned(w: World, rs': seq<Region>, addr: nat, count: nat): World {
    World(rs', w.out - Span(addr, count), if Full(w.regions, addr, count) then w.lost + Span(addr, count) else w.lost)
  }

  function Step(w: World, op: Op): World {
    match op
    case TakeOne => After(w, Alloc(w.regions, 1), 1)
    case TakeMany(count) => After(w, Alloc(w.regions, count), count)
    case GiveOne(addr) => Returned(w, FreeOne(w.regions, addr), addr, 1)
    case GiveMany(addr, count) => Returned(w, FreeMany(w.regions, addr, count), addr, count)
  }

  /** Callers free only frames they hold. */
  predicate Legal(w: World, op: Op) {
    match op
    case GiveOne(addr) => addr % PAGE == 0 && Span(addr, 1) <= w.out
    case GiveMany(addr, count) => addr % PAGE == 0 && count > 0 && Span(addr, count) <= w.out
    case _ => true
  }

  ghost predicate WorldInv(w: World) {
    && Inv(w.regions)
    && (forall f :: f in w.out || f in w.lost ==> !Free(w.regions, f) && 0 < f && f * PAGE + PAGE < TWO64)
    && w.out !! w.lost
  }

  predicate Known(w: World, f: nat) {
    Free(w.regions, f) || f in w.out || f in w.lost
  }

  function Bytes(w: World): nat {
    FreeBytes(w.regions) + PAGE * (|w.out| + |w.lost|)
  }

  lemma TakeKeeps(w: World, count: nat)
    requires WorldInv(w)
    ensures var w' := After(w, Alloc(w.regions, count), count);
            && WorldInv(w') && w'.lost == w.lost && Bytes(w') == Bytes(w)
            && (forall f :: Known(w', f) <==> Known(w, f))
            && (forall f :: f in Granted(Alloc(w.regions, count).1, count) ==> Free(w.regions, f) && f in w'.out)
            && w.out <= w'.out && |w'.out| == |w.out| + (if Alloc(w.regions, count).1 == 0 then 0 else count)
  {
    AllocTakes(w.regions, count);
    var a := Alloc(w.regions, count).1;
    if a != 0 {
      SpanHolds(a, count);
      assert w.out !! Span(a, count);
    }
  }

  lemma GiveKeeps(w: World, addr: nat, count: nat)
    requires WorldInv(w) && addr % PAGE == 0 && count > 0 && Span(addr, count) <= w.out
    ensures WellFormed(Region(addr, count))
    ensures var w' := Returned(w, AddRange(w.regions, addr, count), addr, count);
            && WorldInv(w') && Bytes(w') == Bytes(w)
            && (forall f :: Known(w', f) <==> Known(w, f))
  {
    hide Free, FreeBytes, Holds, Inv, AddRange, Span, Full;
    HeldBounds(w, addr, count);
    GivenFrames(w, addr, count);
    AddRangeBytes(w.regions, addr, count);
    SetCounts(w.out, w.lost, Span(addr, count));
  }

  lemma GivenFrames(w: World, addr: nat, count: nat)
    requires WorldInv(w) && addr % PAGE == 0 && Span(addr, count) <= w.out && WellFormed(Region(addr, count))
    ensures var w' := Returned(w, AddRange(w.regions, addr, count), addr, count);
            WorldInv(w') && forall f :: Known(w', f) <==> Known(w, f)
  {
    hide Free, Holds, Inv, AddRange, Span, Full;
    SpanHolds(addr, count);
    AddRangeAdds(w.regions, addr, count);
  }

  lemma SetCounts(out: set<nat>, lost: set<nat>, s: set<nat>)
    requires s <= out && out !! lost
    ensures |out - s| == |out| - |s| && |lost + s| == |lost| + |s|
  {
    assert out == (out - s) + s;
    assert s !! lost;
  }

  lemma HeldBounds(w: World, addr: nat, count: nat)
    requires WorldInv(w) && addr % PAGE == 0 && count > 0 && Span(addr, count) <= w.out
    ensures WellFormed(Region(addr, count))
  {
    assert addr / PAGE in Span(addr, count);
    assert addr / PAGE + count - 1 in Span(addr, count);
    assert addr == addr / PAGE * PAGE;
  }

  /** Freeing a block through add_free_region is adding its range. */
  lemma FreeManyIsAddRange(rs: seq<Region>, addr: nat, count: nat)
    requires WellFormed(Region(addr, count))
    ensures FreeMany(rs, addr, count) == AddRange(rs, addr, count)
  {
    hide AddRange, AddFree, Wrap;
    PageBounds(addr, count);
    AddFreeIs(rs, addr, count * PAGE);
  }

  lemma PageBounds(addr: nat, count: nat)
    requires WellFormed(Region(addr, count))
    ensures var n := addr / PAGE;
            n * PAGE == addr && (addr + PAGE - 1) / PAGE == n && (addr + count * PAGE) / PAGE == n + count
    ensures addr + count * PAGE < TWO64 && Wrap(count * PAGE) == count * PAGE
  {
    var n := addr / PAGE;
    assert addr == n * PAGE;
    QuotRem(addr + PAGE - 1, n, PAGE - 1, PAGE);
    QuotRem(addr + count * PAGE, n + count, 0, PAGE);
  }

  /** The frames a call hands out. */
  function Handed(w: World, op: Op): set<nat> {
    match op
    case TakeOne => Granted(Alloc(w.regions, 1).1, 1)
    case TakeMany(count) => Granted(Alloc(w.regions, count).1, count)
    case _ => {}
  }

  function Granted(addr: nat, count: nat): set<nat> {
    if addr == 0 then {} else Span(addr, count)
  }

  /** Every operation conserves frames and hands out only free ones. */
  lemma StepKeeps(w: World, op: Op)
    requires WorldInv(w) && Legal(w, op)
    ensures WorldInv(Step(w, op)) && Bytes(Step(w, op)) == Bytes(w)
    ensures forall f :: Known(Step(w, op), f) <==> Known(w, f)
    ensures forall f :: f in Handed(w, op) ==> Free(w.regions, f) && f in Step(w, op).out
  {
    match op
    case TakeOne => TakeKeeps(w, 1);
    case TakeMany(count) => TakeKeeps(w, count);
    case GiveOne(addr) => GiveKeeps(w, addr, 1);
    case GiveMany(addr, count) =>
      GiveKeeps(w, addr, count);
      FreeManyIsAddRange(w.regions, addr, count);
  }

  predicate LegalRun(w: World, ops: seq<Op>)
    decreases |ops|
  {
    ops == [] || (Legal(w, ops[0]) && LegalRun(Step(w, ops[0]), ops[1..]))
  }

  function Run(w: World, ops: seq<Op>): World
    decreases |ops|
  {
    if ops == [] then w else Run(Step(w, ops[0]), ops[1..])
  }

  /** What is handed out at any point of a run is neither held nor lost then, and held from then on. */
  predicate NeverTwice(w: World, ops: seq<Op>)
    decreases |ops|
  {
    ops == [] || (
      var w1 := Step(w, ops[0]);
      Handed(w, ops[0]) !! w.out && Handed(w, ops[0]) !! w.lost && Handed(w, ops[0]) <= w1.out && NeverTwice(w1, ops[1..]))
  }

  /**
   Over every run: free, held and lost frames partition the same set, the byte count never changes, and no
   frame is handed out while somebody holds it.
   */
  lemma {:induction false} RunConserves(w: World, ops: seq<Op>)
    requires WorldInv(w) && LegalRun(w, ops)
    ensures var w' := Run(w, ops);
            && WorldInv(w') && Bytes(w') == Bytes(w)
            && (forall f :: Known(w', f) <==> Known(w, f))
    ensures NeverTwice(w, ops)
    decreases |ops|
  {
    if ops != [] {
      StepKeeps(w, ops[0]);
      RunConserves(Step(w, ops[0]), ops[1..]);
    }
  }

  /**
   From boot on: pmm_used_memory never underflows, and no frame that is free or held ever overlaps the
   kernel image or a block of the kernel heap.
   */
  lemma BootRun(es: seq<Entry>, imageStart: nat, imageEnd: nat, ops: seq<Op>)
    requires EntriesOk(es) && SumLen(es) < TWO64
    requires 0 < imageStart <= imageEnd < TWO64 - Heap.KERNEL_HEAP_SIZE
    requires var p := Fill(Pool([], 0), es, KernelRange(imageStart, imageEnd));
             LegalRun(World(p.regions, {}, {}), ops)
    ensures var k := KernelRange(imageStart, imageEnd);
            var p := Fill(Pool([], 0), es, k);
            var w := Run(World(p.regions, {}, {}), ops);
            && FreeBytes(w.regions) <= p.total
            && (forall f: nat, b: Heap.Block :: Known(w, f) && Heap.Within(b, imageEnd, imageEnd + Heap.KERNEL_HEAP_SIZE) ==>
                  f * PAGE + PAGE <= b.base || b.base + b.size <= f * PAGE)
            && (forall f: nat :: Known(w, f) ==> f * PAGE + PAGE <= imageStart || imageEnd <= f * PAGE)
  {
    var k := KernelRange(imageStart, imageEnd);
    FillExact(es, k);
    var p := Fill(Pool([], 0), es, k);
    var w0 := World(p.regions, {}, {});
    assert WorldInv(w0) && Bytes(w0) == FreeBytes(p.regions);
    RunConserves(w0, ops);
  }
}
