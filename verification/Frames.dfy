/** The physical frame allocator as operations on a table of regions, against a set of free frames. */
module Frames {
  import opened Words

  const MAX_REGIONS: nat := 64

  datatype Region = Region(addr: nat, frames: nat)

  function End(r: Region): nat {
    Wrap(r.addr + r.frames * PAGE)
  }

  // ---------------------------------------------------------------- operations

  /** The first region that [start, end) touches, or the number of regions. */
  function FindMerge(rs: seq<Region>, start: nat, end: nat): (i: nat)
    ensures i <= |rs|
    ensures i < |rs| ==> end == rs[i].addr || start == End(rs[i])
    ensures forall j :: 0 <= j < i ==> end != rs[j].addr && start != End(rs[j])
  {
    if rs == [] || end == rs[0].addr || start == End(rs[0]) then 0 else 1 + FindMerge(rs[1..], start, end)
  }

  /** The coalescing loop shared by add_free_region and pmm_free_frame. */
  function AddRange(rs: seq<Region>, start: nat, frames: nat): seq<Region> {
    var end := Wrap(start + frames * PAGE);
    var i := FindMerge(rs, start, end);
    if i < |rs| then
      if end == rs[i].addr then rs[i := Region(start, rs[i].frames + frames)]
      else rs[i := Region(rs[i].addr, rs[i].frames + frames)]
    else if |rs| < MAX_REGIONS then rs + [Region(start, frames)]
    else rs
  }

  function AddFree(rs: seq<Region>, addr: nat, len: nat): seq<Region> {
    var start := PageUp(addr);
    var end := PageDown(Wrap(addr + len));
    if len < PAGE || end <= start then rs else AddRange(rs, start, (end - start) / PAGE)
  }

  /** The first region with at least `count` frames, or the number of regions. */
  function FindRoom(rs: seq<Region>, count: nat): (i: nat)
    ensures i <= |rs|
    ensures i < |rs| ==> rs[i].frames >= count
    ensures forall j :: 0 <= j < i ==> rs[j].frames < count
  {
    if rs == [] || rs[0].frames >= count then 0 else 1 + FindRoom(rs[1..], count)
  }

  function Take(rs: seq<Region>, i: nat, count: nat): seq<Region>
    requires i < |rs| && rs[i].frames >= count
  {
    var r := Region(rs[i].addr + count * PAGE, rs[i].frames - count);
    if r.frames == 0 then rs[..i] + rs[i + 1..] else rs[i := r]
  }

  /** The base address of `count` frames, or 0. pmm_alloc_frame is the case of one frame. */
  function Alloc(rs: seq<Region>, count: nat): (seq<Region>, nat) {
    var i := FindRoom(rs, count);
    if count == 0 || i == |rs| then (rs, 0) else (Take(rs, i, count), rs[i].addr)
  }

  function FreeOne(rs: seq<Region>, addr: nat): seq<Region> {
    if addr % PAGE != 0 then rs else AddRange(rs, addr, 1)
  }

  function FreeMany(rs: seq<Region>, addr: nat, count: nat): seq<Region> {
    if count == 0 || addr % PAGE != 0 then rs else AddFree(rs, addr, Wrap(count * PAGE))
  }

  function FreeBytes(rs: seq<Region>): nat {
    if rs == [] then 0 else FreeBytes(rs[..|rs| - 1]) + rs[|rs| - 1].frames * PAGE
  }

  // ---------------------------------------------------------------- meaning

  /** Frame number `f` lies wholly inside the region. */
  predicate Holds(r: Region, f: nat) {
    r.addr <= f * PAGE && f * PAGE + PAGE <= r.addr + r.frames * PAGE
  }

  predicate Free(rs: seq<Region>, f: nat) {
    exists i :: 0 <= i < |rs| && Holds(rs[i], f)
  }

  predicate WellFormed(r: Region) {
    r.addr % PAGE == 0 && 0 < r.addr && 0 < r.frames && r.addr + r.frames * PAGE < TWO64
  }

  predicate Apart(a: Region, b: Region) {
    a.addr + a.frames * PAGE <= b.addr || b.addr + b.frames * PAGE <= a.addr
  }

  /** At most 64 regions, aligned, non-empty, below 2^64 and pairwise disjoint. */
  ghost predicate Inv(rs: seq<Region>) {
    && |rs| <= MAX_REGIONS
    && (forall i :: 0 <= i < |rs| ==> WellFormed(rs[i]))
    && (forall i, j :: 0 <= i < j < |rs| ==> Apart(rs[i], rs[j]))
  }

  /** No frame of the range is free. */
  ghost predicate NotFree(rs: seq<Region>, r: Region) {
    forall f :: Holds(r, f) ==> !Free(rs, f)
  }

  /** AddRange has no place for the range: nothing to merge with and no slot left. */
  predicate Full(rs: seq<Region>, start: nat, frames: nat) {
    FindMerge(rs, start, Wrap(start + frames * PAGE)) == |rs| && |rs| >= MAX_REGIONS
  }

  lemma OverlapShared(a: Region, b: Region) returns (f: nat)
    requires WellFormed(a) && WellFormed(b) && !Apart(a, b)
    ensures Holds(a, f) && Holds(b, f)
  {
    f := if a.addr < b.addr then b.addr / PAGE else a.addr / PAGE;
  }

  lemma NotFreeApart(rs: seq<Region>, r: Region, i: nat)
    requires WellFormed(r) && NotFree(rs, r) && i < |rs| && WellFormed(rs[i])
    ensures Apart(rs[i], r) && Apart(r, rs[i])
  {
    if !Apart(rs[i], r) {
      var f := OverlapShared(rs[i], r);
    }
  }

  /** A frame of two ranges laid end to end is in one of them. */
  lemma HoldsJoin(addr: nat, n: nat, k: nat, f: nat)
    requires addr % PAGE == 0
    ensures Holds(Region(addr, n + k), f) <==> Holds(Region(addr, n), f) || Holds(Region(addr + n * PAGE, k), f)
  {
    assert addr == addr / PAGE * PAGE;
  }

  /** Adding a range that is not free makes exactly it free, unless the table is full; the regions stay well formed. */
  lemma AddRangeAdds(rs: seq<Region>, start: nat, frames: nat)
    requires Inv(rs) && WellFormed(Region(start, frames)) && NotFree(rs, Region(start, frames))
    ensures Inv(AddRange(rs, start, frames))
    ensures forall f :: Free(AddRange(rs, start, frames), f) <==>
              Free(rs, f) || (Holds(Region(start, frames), f) && !Full(rs, start, frames))
  {
    hide Free, Inv, NotFree, Holds, WellFormed, AddRange, FindMerge, End, Wrap;
    AddRangeIs(rs, start, frames);
    var i := FindMerge(rs, start, start + frames * PAGE);
    if i < |rs| {
      MergeRegion(rs, i, start, frames);
    } else if |rs| < MAX_REGIONS {
      AppendRegion(rs, Region(start, frames));
    }
  }

  /** A well-formed range does not wrap, so the loop compares and extends as it looks. */
  lemma AddRangeIs(rs: seq<Region>, start: nat, frames: nat)
    requires WellFormed(Region(start, frames))
    ensures var i := FindMerge(rs, start, start + frames * PAGE);
            && (Full(rs, start, frames) <==> i == |rs| && |rs| >= MAX_REGIONS)
            && AddRange(rs, start, frames) ==
               if i < |rs| then
                 rs[i := Region(if start + frames * PAGE == rs[i].addr then start else rs[i].addr, rs[i].frames + frames)]
               else if |rs| < MAX_REGIONS then rs + [Region(start, frames)]
               else rs
  {
    assert Wrap(start + frames * PAGE) == start + frames * PAGE;
    hide Wrap, End;
  }

  lemma AddRangeBytes(rs: seq<Region>, start: nat, frames: nat)
    ensures FreeBytes(AddRange(rs, start, frames)) == FreeBytes(rs) + if Full(rs, start, frames) then 0 else frames * PAGE
  {
    var i := FindMerge(rs, start, Wrap(start + frames * PAGE));
    if i < |rs| {
      FreeBytesUpdate(rs, i, AddRange(rs, start, frames)[i]);
    } else if |rs| < MAX_REGIONS {
      assert (rs + [Region(start, frames)])[..|rs|] == rs;
    }
  }

  lemma MergeRegion(rs: seq<Region>, i: nat, start: nat, frames: nat)
    requires Inv(rs) && WellFormed(Region(start, frames)) && NotFree(rs, Region(start, frames))
    requires i < |rs| && (start + frames * PAGE == rs[i].addr || start == End(rs[i]))
    ensures var r := Region(if start + frames * PAGE == rs[i].addr then start else rs[i].addr, rs[i].frames + frames);
            && Inv(rs[i := r])
            && forall f :: Free(rs[i := r], f) <==> Free(rs, f) || Holds(Region(start, frames), f)
  {
    var was := rs[i];
    var down := start + frames * PAGE == was.addr;
    var r := Region(if down then start else was.addr, was.frames + frames);
    assert WellFormed(was) && End(was) == was.addr + was.frames * PAGE;
    forall f
      ensures Holds(r, f) <==> Holds(was, f) || Holds(Region(start, frames), f)
    {
      if down { HoldsJoin(start, frames, was.frames, f); } else { HoldsJoin(was.addr, was.frames, frames, f); }
    }
    MergedApart(rs, i, Region(start, frames), r);
    ReplacedFree(rs, i, r);
  }

  lemma MergedApart(rs: seq<Region>, i: nat, range: Region, r: Region)
    requires Inv(rs) && i < |rs| && WellFormed(range) && NotFree(rs, range) && WellFormed(r)
    requires r.frames == rs[i].frames + range.frames
    requires (range.addr + range.frames * PAGE == rs[i].addr && r.addr == range.addr)
             || (rs[i].addr + rs[i].frames * PAGE == range.addr && r.addr == rs[i].addr)
    ensures Inv(rs[i := r])
  {
    forall j | 0 <= j < |rs| && j != i
      ensures Apart(rs[j], r) && Apart(r, rs[j])
    {
      NotFreeApart(rs, range, j);
      assert if j < i then Apart(rs[j], rs[i]) else Apart(rs[i], rs[j]);
    }
  }

  lemma ReplacedFree(rs: seq<Region>, i: nat, r: Region)
    requires i < |rs|
    ensures forall f :: Free(rs[i := r], f) || Holds(rs[i], f) <==> Free(rs, f) || Holds(r, f)
    ensures forall f :: Holds(r, f) ==> Free(rs[i := r], f)
    ensures forall f :: Holds(rs[i], f) ==> Free(rs, f)
  {
    var rs' := rs[i := r];
    forall f
      ensures Free(rs', f) || Holds(rs[i], f) <==> Free(rs, f) || Holds(r, f)
      ensures Holds(r, f) ==> Free(rs', f)
    {
      if j :| 0 <= j < |rs| && Holds(rs[j], f) {
        assert j != i ==> Holds(rs'[j], f);
      }
      if Holds(r, f) { assert Holds(rs'[i], f); }
      if j :| 0 <= j < |rs'| && Holds(rs'[j], f) {
        assert j != i ==> Holds(rs[j], f);
      }
    }
  }

  lemma AppendRegion(rs: seq<Region>, r: Region)
    requires Inv(rs) && |rs| < MAX_REGIONS && WellFormed(r) && NotFree(rs, r)
    ensures Inv(rs + [r])
    ensures forall f :: Free(rs + [r], f) <==> Free(rs, f) || Holds(r, f)
  {
    var rs' := rs + [r];
    forall j | 0 <= j < |rs|
      ensures Apart(rs[j], r)
    {
      NotFreeApart(rs, r, j);
    }
    forall f
      ensures Free(rs', f) <==> Free(rs, f) || Holds(r, f)
    {
      if j :| 0 <= j < |rs| && Holds(rs[j], f) { assert Holds(rs'[j], f); }
      if Holds(r, f) { assert Holds(rs'[|rs|], f); }
    }
  }

  /** An allocation hands out frames that were free and takes exactly those away; it fails only when
      no region is large enough. */
  lemma AllocTakes(rs: seq<Region>, count: nat)
    requires Inv(rs)
    ensures var (rs', a) := Alloc(rs, count);
            && Inv(rs')
            && (a == 0 <==> count == 0 || forall i :: 0 <= i < |rs| ==> rs[i].frames < count)
            && (a == 0 ==> rs' == rs)
            && (a != 0 ==>
                  && WellFormed(Region(a, count))
                  && (forall f :: Holds(Region(a, count), f) ==> Free(rs, f))
                  && (forall f :: Free(rs', f) <==> Free(rs, f) && !Holds(Region(a, count), f))
                  && FreeBytes(rs') == FreeBytes(rs) - count * PAGE)
  {
    var i := FindRoom(rs, count);
    if count > 0 && i < |rs| {
      TakeTakes(rs, i, count);
    }
  }

  /** An address off a page boundary, or no frames, frees nothing. */
  lemma FreeRefuses(rs: seq<Region>, addr: nat, count: nat)
    ensures addr % 4096 != 0 ==> FreeOne(rs, addr) == rs
    ensures addr % 4096 != 0 || count == 0 ==> FreeMany(rs, addr, count) == rs
  {
  }

  /**
   The frames come off the front of the first region that is large enough; the others, and what is left of
   that one, stay where they are in the table.
   */
  lemma AllocFirstFit(rs: seq<Region>, count: nat)
    requires count > 0
    ensures forall i :: 0 <= i < |rs| && rs[i].frames >= count && (forall j :: 0 <= j < i ==> rs[j].frames < count) ==>
              var (rs', a) := Alloc(rs, count);
              && a == rs[i].addr && rs'[..i] == rs[..i]
              && if rs[i].frames == count then |rs'| == |rs| - 1 && rs'[i..] == rs[i + 1..]
                 else |rs'| == |rs| && rs'[i] == Region(a + count * PAGE, rs[i].frames - count) && rs'[i + 1..] == rs[i + 1..]
  {
    forall i | 0 <= i < |rs| && rs[i].frames >= count && (forall j :: 0 <= j < i ==> rs[j].frames < count)
      ensures FindRoom(rs, count) == i
    {
    }
  }

  lemma TakeTakes(rs: seq<Region>, i: nat, count: nat)
    requires Inv(rs) && i < |rs| && 0 < count <= rs[i].frames
    ensures var rs' := Take(rs, i, count);
            var r := Region(rs[i].addr, count);
            && Inv(rs') && WellFormed(r)
            && (forall f :: Holds(r, f) ==> Free(rs, f))
            && (forall f :: Free(rs', f) <==> Free(rs, f) && !Holds(r, f))
            && FreeBytes(rs') == FreeBytes(rs) - count * PAGE
  {
    var r := rs[i];
    assert WellFormed(r);
    forall f | Holds(Region(r.addr, count), f)
      ensures Free(rs, f)
    {
      assert Holds(rs[i], f);
    }
    if r.frames == count {
      RemoveRegion(rs, i);
    } else {
      ShrinkRegion(rs, i, count);
    }
  }

  lemma RemoveRegion(rs: seq<Region>, i: nat)
    requires Inv(rs) && i < |rs|
    ensures var rs' := rs[..i] + rs[i + 1..];
            && Inv(rs')
            && (forall f :: Free(rs', f) <==> Free(rs, f) && !Holds(rs[i], f))
            && FreeBytes(rs') == FreeBytes(rs) - rs[i].frames * PAGE
  {
    hide Free, Inv, Holds, FreeBytes, Apart;
    FreeBytesRemove(rs, i);
    RemoveInv(rs, i);
    forall f: nat
      ensures Free(rs[..i] + rs[i + 1..], f) <==> Free(rs, f) && !Holds(rs[i], f)
    {
      RemoveFree(rs, i, f);
    }
  }

  lemma RemoveInv(rs: seq<Region>, i: nat)
    requires Inv(rs) && i < |rs|
    ensures Inv(rs[..i] + rs[i + 1..])
  {
  }

  lemma RemoveFree(rs: seq<Region>, i: nat, f: nat)
    requires Inv(rs) && i < |rs|
    ensures Free(rs[..i] + rs[i + 1..], f) <==> Free(rs, f) && !Holds(rs[i], f)
  {
    hide Inv, Holds;
    var rs' := rs[..i] + rs[i + 1..];
    if Holds(rs[i], f) { OnlyHolder(rs, i, f); }
    assert forall j :: 0 <= j < |rs'| ==> rs'[j] == rs[if j < i then j else j + 1];
    if k :| 0 <= k < |rs| && k != i && Holds(rs[k], f) {
      assert Holds(rs'[if k < i then k else k - 1], f);
    }
  }

  lemma OnlyHolder(rs: seq<Region>, i: nat, f: nat)
    requires Inv(rs) && i < |rs| && Holds(rs[i], f)
    ensures forall j :: 0 <= j < |rs| && j != i ==> !Holds(rs[j], f)
  {
    forall j | 0 <= j < |rs| && j != i
      ensures !Holds(rs[j], f)
    {
      assert if j < i then Apart(rs[j], rs[i]) else Apart(rs[i], rs[j]);
    }
  }

  lemma ShrinkRegion(rs: seq<Region>, i: nat, count: nat)
    requires Inv(rs) && i < |rs| && 0 < count < rs[i].frames
    ensures var rs' := rs[i := Region(rs[i].addr + count * PAGE, rs[i].frames - count)];
            && Inv(rs')
            && (forall f :: Free(rs', f) <==> Free(rs, f) && !Holds(Region(rs[i].addr, count), f))
            && FreeBytes(rs') == FreeBytes(rs) - count * PAGE
  {
    hide Free, Inv, Holds, FreeBytes, Apart;
    var r := Region(rs[i].addr + count * PAGE, rs[i].frames - count);
    FreeBytesUpdate(rs, i, r);
    ShrinkInv(rs, i, count);
    forall f: nat
      ensures Free(rs[i := r], f) <==> Free(rs, f) && !Holds(Region(rs[i].addr, count), f)
    {
      ShrinkFree(rs, i, count, f);
    }
  }

  lemma ShrinkInv(rs: seq<Region>, i: nat, count: nat)
    requires Inv(rs) && i < |rs| && 0 < count < rs[i].frames
    ensures Inv(rs[i := Region(rs[i].addr + count * PAGE, rs[i].frames - count)])
  {
    var r := Region(rs[i].addr + count * PAGE, rs[i].frames - count);
    assert WellFormed(rs[i]);
    forall j | 0 <= j < |rs| && j != i
      ensures Apart(rs[j], r) && Apart(r, rs[j])
    {
      assert if j < i then Apart(rs[j], rs[i]) else Apart(rs[i], rs[j]);
    }
  }

  lemma ShrinkFree(rs: seq<Region>, i: nat, count: nat, f: nat)
    requires Inv(rs) && i < |rs| && 0 < count < rs[i].frames
    ensures Free(rs[i := Region(rs[i].addr + count * PAGE, rs[i].frames - count)], f) <==> Free(rs, f) && !Holds(Region(rs[i].addr, count), f)
  {
    var was := rs[i];
    var r := Region(was.addr + count * PAGE, was.frames - count);
    var rs' := rs[i := r];
    assert WellFormed(was);
    hide Inv, Holds;
    HoldsJoin(was.addr, count, was.frames - count, f);
    CutHolds(was, count, f);
    if Holds(was, f) {
      OnlyHolder(rs, i, f);
      assert Holds(r, f) ==> Holds(rs'[i], f);
      assert forall j :: 0 <= j < |rs| && j != i ==> rs'[j] == rs[j];
    } else {
      if j :| 0 <= j < |rs| && Holds(rs[j], f) { assert Holds(rs'[j], f); }
      if j :| 0 <= j < |rs'| && Holds(rs'[j], f) { assert Holds(rs[j], f); }
    }
  }

  lemma CutHolds(was: Region, count: nat, f: nat)
    requires 0 < count < was.frames
    ensures !(Holds(Region(was.addr, count), f) && Holds(Region(was.addr + count * PAGE, was.frames - count), f))
  {
  }

  lemma {:induction false} FreeBytesUpdate(rs: seq<Region>, i: nat, r: Region)
    requires i < |rs|
    ensures FreeBytes(rs[i := r]) == FreeBytes(rs) - rs[i].frames * PAGE + r.frames * PAGE
    decreases |rs|
  {
    var n := |rs| - 1;
    if i == n {
      assert rs[i := r][..n] == rs[..n];
    } else {
      FreeBytesUpdate(rs[..n], i, r);
      assert rs[i := r][..n] == rs[..n][i := r];
    }
  }

  lemma {:induction false} FreeBytesRemove(rs: seq<Region>, i: nat)
    requires i < |rs|
    ensures FreeBytes(rs[..i] + rs[i + 1..]) == FreeBytes(rs) - rs[i].frames * PAGE
    decreases |rs|
  {
    var n := |rs| - 1;
    var rs' := rs[..i] + rs[i + 1..];
    if i == n {
      assert rs' == rs[..n];
    } else {
      FreeBytesRemove(rs[..n], i);
      assert rs'[..n - 1] == rs[..n][..i] + rs[..n][i + 1..];
    }
  }
}
