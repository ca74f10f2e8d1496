/** The frame allocator over its fixed array of 64 regions, changed in place. */
module FramePool {
  import opened Words
  import opened Frames
  import Bytes
  import FrameRuns
  import Multiboot

  class Allocator {
    const regions: array<Region>
    var count: nat
    var total: nat

    ghost predicate Valid()
      reads this
    {
      regions.Length == MAX_REGIONS && count <= MAX_REGIONS
    }

    function Table(): seq<Region>
      requires count <= regions.Length
      reads this, regions
    {
      regions[..count]
    }

    constructor ()
      ensures Valid() && fresh(regions) && Table() == [] && total == 0
    {
      regions := new Region[MAX_REGIONS](_ => Region(0, 0));
      count, total := 0, 0;
    }

    /** The loop and the tail shared by add_free_region and pmm_free_frame; `end` is start plus the frames. */
    method Insert(start: nat, frames: nat)
      requires Valid()
      modifies regions, this`count
      ensures Valid() && Table() == AddRange(old(Table()), start, frames)
    {
      var end := Wrap(start + frames * PAGE);
      ghost var rs := Table();
      for i := 0 to count
        invariant Table() == rs
        invariant FindMerge(rs, start, end) == i + FindMerge(rs[i..], start, end)
      {
        assert rs[i..][1..] == rs[i + 1..];
        var rstart := regions[i].addr;
        var rend := End(regions[i]);
        if end == rstart {
          regions[i] := Region(start, regions[i].frames + frames);
          assert Table() == rs[i := Region(start, rs[i].frames + frames)];
          return;
        } else if start == rend {
          regions[i] := Region(rstart, regions[i].frames + frames);
          assert Table() == rs[i := Region(rs[i].addr, rs[i].frames + frames)];
          return;
        }
      }
      if count < MAX_REGIONS {
        regions[count] := Region(start, frames);
        count := count + 1;
        assert Table() == rs + [Region(start, frames)];
      }
    }

    method AddFreeRegion(addr: nat, len: nat)
      requires Valid()
      modifies regions, this`count
      ensures Valid() && Table() == AddFree(old(Table()), addr, len)
    {
      if len < PAGE { return; }
      var start := PageUp(addr);
      var end := PageDown(Wrap(addr + len));
      if end <= start { return; }
      Insert(start, (end - start) / PAGE);
    }

    method FreeFrame(addr: nat)
      requires Valid()
      modifies regions, this`count
      ensures Valid() && Table() == FreeOne(old(Table()), addr)
    {
      if addr % PAGE != 0 { return; }
      Insert(addr, 1);
    }

    method FreeFrames(addr: nat, n: nat)
      requires Valid()
      modifies regions, this`count
      ensures Valid() && Table() == FreeMany(old(Table()), addr, n)
    {
      if n == 0 { return; }
      if addr % PAGE != 0 { return; }
      AddFreeRegion(addr, Wrap(n * PAGE));
    }

    /** The compaction loop: everything behind `i` moves down by one. */
    method Compact(i: nat)
      requires Valid() && i < count
      modifies regions, this`count
      ensures Valid() && Table() == old(Table())[..i] + old(Table())[i + 1..]
    {
      ghost var rs := Table();
      for j := i + 1 to count
        modifies regions
        invariant regions[..i] == rs[..i]
        invariant forall x :: i <= x < j - 1 ==> regions[x] == rs[x + 1]
        invariant forall x :: j - 1 <= x < count ==> regions[x] == rs[x]
      {
        regions[j - 1] := regions[j];
      }
      count := count - 1;
    }

    /** Cuts `n` frames off the front of region `i`. */
    method TakeAt(i: nat, n: nat) returns (addr: nat)
      requires Valid() && i < count && regions[i].frames >= n
      modifies regions, this`count
      ensures Valid() && Table() == Take(old(Table()), i, n) && addr == old(regions[i].addr)
    {
      ghost var rs := Table();
      addr := regions[i].addr;
      regions[i] := Region(regions[i].addr + n * PAGE, regions[i].frames - n);
      ghost var r := regions[i];
      assert Table() == rs[i := r];
      if regions[i].frames == 0 {
        Compact(i);
        assert rs[i := r][..i] == rs[..i] && rs[i := r][i + 1..] == rs[i + 1..];
      }
    }

    method AllocFrames(n: nat) returns (addr: nat)
      requires Valid()
      modifies regions, this`count
      ensures Valid() && (Table(), addr) == Alloc(old(Table()), n)
    {
      if n == 0 { return 0; }
      ghost var rs := Table();
      for i := 0 to count
        invariant Table() == rs
        invariant FindRoom(rs, n) == i + FindRoom(rs[i..], n)
      {
        assert rs[i..][1..] == rs[i + 1..];
        if regions[i].frames >= n {
          addr := TakeAt(i, n);
          return;
        }
      }
      return 0;
    }

    method AllocFrame() returns (addr: nat)
      requires Valid()
      modifies regions, this`count
      ensures Valid() && (Table(), addr) == Alloc(old(Table()), 1)
    {
      ghost var rs := Table();
      for i := 0 to count
        invariant Table() == rs
        invariant FindRoom(rs, 1) == i + FindRoom(rs[i..], 1)
      {
        assert rs[i..][1..] == rs[i + 1..];
        if regions[i].frames == 0 { continue; }
        addr := TakeAt(i, 1);
        return;
      }
      return 0;
    }

    method FreeMemory() returns (free: nat)
      requires Valid()
      ensures free == FreeBytes(Table())
    {
      free := 0;
      for i := 0 to count
        invariant free == FreeBytes(regions[..i])
      {
        assert regions[..i + 1][..i] == regions[..i];
        free := free + regions[i].frames * PAGE;
      }
    }

    function Model(): FrameRuns.Pool
      requires count <= regions.Length
      reads this, regions
    {
      FrameRuns.Pool(Table(), total)
    }

    /** The second half of mmap_callback: what lies around the kernel. */
    method AddAround(rstart: nat, rend: nat, k: FrameRuns.Kernel)
      requires Valid()
      modifies regions, this`count
      ensures Valid() && Table() == FrameRuns.AddUsable(old(Table()), rstart, rend, k)
    {
      if rend <= k.start || rstart >= k.end {
        AddFreeRegion(rstart, Wrap(rend - rstart));
      } else {
        if rstart < k.start { AddFreeRegion(rstart, k.start - rstart); }
        if rend > k.end { AddFreeRegion(k.end, rend - k.end); }
      }
    }

    method Callback(e: FrameRuns.Entry, k: FrameRuns.Kernel)
      requires Valid()
      modifies this, regions
      ensures Valid() && Model() == FrameRuns.Callback(old(Model()), e, k)
    {
      hide FrameRuns.AddUsable, AddFree;
      if e.kind != FrameRuns.USABLE { return; }
      var start, len := e.addr, e.len;
      if Wrap(start + len) <= FrameRuns.MIB { return; }
      if start < FrameRuns.MIB {
        var diff := FrameRuns.MIB - start;
        start := start + diff;
        len := Wrap(len - diff);
      }
      AddAround(start, Wrap(start + len), k);
      total := Wrap(total + e.len);
    }

    /** pmm_init on a well-formed Multiboot2 block with tags `ts`. */
    method Init(info: seq<Bytes.byte>, ghost ts: seq<Multiboot.Tag>, k: FrameRuns.Kernel)
      requires Valid() && Multiboot.WellFormed(ts) && info == Multiboot.EncInfo(ts)
      modifies this, regions
      ensures Valid() && Model() == FrameRuns.Fill(FrameRuns.Pool([], 0), Multiboot.EntriesOf(ts), k)
    {
      count, total := 0, 0;
      var entries := Multiboot.ParseMmap(info, ts);
      for i := 0 to |entries|
        invariant Valid() && Model() == FrameRuns.Fill(FrameRuns.Pool([], 0), entries[..i], k)
      {
        assert entries[..i + 1][..i] == entries[..i];
        Callback(entries[i], k);
      }
      assert entries[..|entries|] == entries;
    }
  }
}
