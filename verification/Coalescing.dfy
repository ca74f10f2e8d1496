/** When the frame allocator's table stays coalesced, and what a coalesced table is worth. */
module Coalescing {
  import opened Words
  import opened Frames

  /** No region ends where another begins. */
  predicate Coalesced(rs: seq<Region>) {
    forall i, j :: 0 <= i < |rs| && 0 <= j < |rs| ==> End(rs[i]) != rs[j].addr
  }

  /** One region ends where the range starts and one begins where it ends. */
  predicate Bridges(rs: seq<Region>, start: nat, frames: nat) {
    && (exists i :: 0 <= i < |rs| && End(rs[i]) == start)
    && (exists j :: 0 <= j < |rs| && rs[j].addr == Wrap(start + frames * PAGE))
  }

  lemma EndIs(r: Region)
    requires WellFormed(r)
    ensures End(r) == r.addr + r.frames * PAGE > r.addr
  {
  }

  /** Region `i` grown downwards to `r`. */
  lemma GrownDown(rs: seq<Region>, i: nat, r: Region)
    requires Coalesced(rs) && i < |rs| && End(r) == End(rs[i]) && End(r) != r.addr
    ensures Coalesced(rs[i := r]) <==> forall j :: 0 <= j < |rs| ==> End(rs[j]) != r.addr
  {
    hide End;
    var rs' := rs[i := r];
    if Coalesced(rs') {
      forall j | 0 <= j < |rs|
        ensures End(rs[j]) != r.addr
      {
        assert End(rs'[j]) != rs'[i].addr;
      }
    }
    if forall j :: 0 <= j < |rs| ==> End(rs[j]) != r.addr {
      forall x, y | 0 <= x < |rs'| && 0 <= y < |rs'|
        ensures End(rs'[x]) != rs'[y].addr
      {
        assert End(rs'[x]) == End(rs[x]);
      }
    }
  }

  /** Region `i` grown upwards to `r`. */
  lemma GrownUp(rs: seq<Region>, i: nat, r: Region)
    requires Coalesced(rs) && i < |rs| && r.addr == rs[i].addr && End(r) != r.addr
    ensures Coalesced(rs[i := r]) <==> forall j :: 0 <= j < |rs| ==> rs[j].addr != End(r)
  {
    hide End;
    var rs' := rs[i := r];
    if Coalesced(rs') {
      forall j | 0 <= j < |rs|
        ensures rs[j].addr != End(r)
      {
        assert End(rs'[i]) != rs'[j].addr;
      }
    }
    if forall j :: 0 <= j < |rs| ==> rs[j].addr != End(r) {
      forall x, y | 0 <= x < |rs'| && 0 <= y < |rs'|
        ensures End(rs'[x]) != rs'[y].addr
      {
        assert rs'[y].addr == rs[y].addr;
      }
    }
  }

  /** The ends of a merged region. */
  lemma MergedEnds(rs: seq<Region>, i: nat, start: nat, frames: nat)
    requires Inv(rs) && WellFormed(Region(start, frames)) && NotFree(rs, Region(start, frames))
    requires i < |rs| && (start + frames * PAGE == rs[i].addr || start == End(rs[i]))
    ensures var down := start + frames * PAGE == rs[i].addr;
            var r := Region(if down then start else rs[i].addr, rs[i].frames + frames);
            && End(r) != r.addr && Wrap(start + frames * PAGE) == start + frames * PAGE
            && End(r) == if down then End(rs[i]) else start + frames * PAGE
  {
    hide NotFree, Free;
    MergeRegion(rs, i, start, frames);
    var r := Region(if start + frames * PAGE == rs[i].addr then start else rs[i].addr, rs[i].frames + frames);
    assert rs[i := r][i] == r;
    EndIs(r);
    EndIs(rs[i]);
  }

  /** A merge at region `i` leaves neighbours apart exactly when the range touches no second region. */
  lemma MergeCoalesced(rs: seq<Region>, i: nat, start: nat, frames: nat)
    requires Inv(rs) && Coalesced(rs) && WellFormed(Region(start, frames)) && NotFree(rs, Region(start, frames))
    requires i < |rs| && (start + frames * PAGE == rs[i].addr || start == End(rs[i]))
    ensures var r := Region(if start + frames * PAGE == rs[i].addr then start else rs[i].addr, rs[i].frames + frames);
            Coalesced(rs[i := r]) <==> !Bridges(rs, start, frames)
  {
    hide Inv, NotFree, WellFormed, End, Wrap, Coalesced;
    MergedEnds(rs, i, start, frames);
    if start + frames * PAGE == rs[i].addr {
      GrownDown(rs, i, Region(start, rs[i].frames + frames));
    } else {
      GrownUp(rs, i, Region(rs[i].addr, rs[i].frames + frames));
    }
  }

  /** A range with no neighbour can be appended. */
  lemma AppendCoalesced(rs: seq<Region>, r: Region)
    requires Coalesced(rs) && WellFormed(r) && (forall i :: 0 <= i < |rs| ==> End(r) != rs[i].addr && r.addr != End(rs[i]))
    ensures Coalesced(rs + [r])
  {
  }

  /**
   Adding a range to a coalesced table leaves it coalesced if and only if the range does not bridge two
   regions: the loop joins it to the first neighbour it finds and stops.
   */
  lemma AddRangeCoalesced(rs: seq<Region>, start: nat, frames: nat)
    requires Inv(rs) && Coalesced(rs) && WellFormed(Region(start, frames)) && NotFree(rs, Region(start, frames))
    ensures Coalesced(AddRange(rs, start, frames)) <==> !Bridges(rs, start, frames)
  {
    hide Inv, NotFree, Coalesced, End;
    var end := start + frames * PAGE;
    var i := FindMerge(rs, start, Wrap(end));
    assert Wrap(end) == end;
    if i < |rs| {
      MergeCoalesced(rs, i, start, frames);
    } else if |rs| < MAX_REGIONS {
      EndIs(Region(start, frames));
      AppendCoalesced(rs, Region(start, frames));
    }
  }

  // ---------------------------------------------------------------- what coalescing is worth

  /** `n` frames from number `f` on are free. */
  predicate FreeFrom(rs: seq<Region>, f: nat, n: nat) {
    forall g :: f <= g < f + n ==> Free(rs, g)
  }

  /** In a coalesced table two neighbouring free frames are in one region. */
  lemma SameRegion(rs: seq<Region>, i: nat, f: nat)
    requires Inv(rs) && Coalesced(rs) && i < |rs| && Holds(rs[i], f) && Free(rs, f + 1)
    ensures Holds(rs[i], f + 1)
  {
    var j :| 0 <= j < |rs| && Holds(rs[j], f + 1);
    if j != i {
      assert Apart(rs[i], rs[j]) || Apart(rs[j], rs[i]);
      assert WellFormed(rs[i]) && WellFormed(rs[j]) && End(rs[i]) != rs[j].addr;
      EndIs(rs[i]);
      FrameBounds(rs[i], f);
      FrameBounds(rs[j], f + 1);
    }
  }

  /** The boundaries of an aligned region fall between frames. */
  lemma FrameBounds(r: Region, f: nat)
    requires WellFormed(r)
    ensures Holds(r, f) <==> r.addr / PAGE <= f < r.addr / PAGE + r.frames
    ensures r.addr == r.addr / PAGE * PAGE
  {
  }

  lemma {:induction false} RunInRegion(rs: seq<Region>, i: nat, f: nat, n: nat)
    requires Inv(rs) && Coalesced(rs) && i < |rs| && Holds(rs[i], f) && n > 0 && FreeFrom(rs, f, n)
    ensures Holds(rs[i], f + n - 1)
    decreases n
  {
    if n > 1 {
      assert FreeFrom(rs, f, n - 1);
      RunInRegion(rs, i, f, n - 1);
      SameRegion(rs, i, f + n - 2);
    }
  }

  /** Consecutive free frames of a coalesced table lie in one region. */
  lemma LongRegion(rs: seq<Region>, f: nat, n: nat)
    requires Inv(rs) && Coalesced(rs) && n > 0 && FreeFrom(rs, f, n)
    ensures exists j :: 0 <= j < |rs| && rs[j].frames >= n
  {
    assert Free(rs, f);
    var j :| 0 <= j < |rs| && Holds(rs[j], f);
    RunInRegion(rs, j, f, n);
    FrameBounds(rs[j], f);
    FrameBounds(rs[j], f + n - 1);
  }

  /** On a coalesced table an allocation fails if and only if there are no `n` consecutive free frames. */
  lemma CoalescedAlloc(rs: seq<Region>, n: nat)
    requires Inv(rs) && Coalesced(rs)
    ensures Alloc(rs, n).1 == 0 <==> n == 0 || forall f: nat :: !FreeFrom(rs, f, n)
  {
    AllocTakes(rs, n);
    var i := FindRoom(rs, n);
    if n > 0 && i < |rs| {
      var f := rs[i].addr / PAGE;
      forall g | f <= g < f + n
        ensures Free(rs, g)
      {
        FrameBounds(rs[i], g);
      }
      assert FreeFrom(rs, f, n);
    }
    if n > 0 && i == |rs| {
      forall f: nat
        ensures !FreeFrom(rs, f, n)
      {
        if FreeFrom(rs, f, n) { LongRegion(rs, f, n); }
      }
    }
  }

  /** An allocation cuts frames off the front of a region, so a coalesced table stays coalesced. */
  lemma AllocCoalesced(rs: seq<Region>, n: nat)
    requires Inv(rs) && Coalesced(rs)
    ensures Coalesced(Alloc(rs, n).0)
  {
    var i := FindRoom(rs, n);
    if n > 0 && i < |rs| {
      var rs', cut := Take(rs, i, n), Region(rs[i].addr + n * PAGE, rs[i].frames - n);
      if cut.frames > 0 {
        forall x, y | 0 <= x < |rs'| && 0 <= y < |rs'|
          ensures End(rs'[x]) != rs'[y].addr
        {
          CutApart(rs, i, n, x, y);
        }
      }
    }
  }

  lemma CutApart(rs: seq<Region>, i: nat, n: nat, x: nat, y: nat)
    requires Inv(rs) && Coalesced(rs) && i < |rs| && 0 < n < rs[i].frames && x < |rs| && y < |rs|
    ensures var rs' := rs[i := Region(rs[i].addr + n * PAGE, rs[i].frames - n)];
            End(rs'[x]) != rs'[y].addr
  {
    assert WellFormed(rs[i]) && WellFormed(rs[x]) && WellFormed(rs[y]);
    EndIs(rs[i]);
    EndIs(rs[x]);
    assert End(Region(rs[i].addr + n * PAGE, rs[i].frames - n)) == End(rs[i]);
    if x < i {
      assert Apart(rs[x], rs[i]);
    } else if x > i {
      assert Apart(rs[i], rs[x]);
    }
  }

  lemma OneBetween()
    ensures FreeOne([Region(0x10_0000, 1), Region(0x10_2000, 1)], 0x10_1000) == [Region(0x10_0000, 2), Region(0x10_2000, 1)]
  {
  }

  lemma ExampleBridged()
    ensures var rs := [Region(0x10_0000, 1), Region(0x10_2000, 1)]; Inv(rs) && Coalesced(rs) && Bridges(rs, 0x10_1000, 1)
  {
    var rs := [Region(0x10_0000, 1), Region(0x10_2000, 1)];
    assert End(rs[0]) == 0x10_1000 && End(rs[1]) == 0x10_3000 && rs[1].addr == Wrap(0x10_1000 + 1 * PAGE);
  }

  /** The smallest failing input: three free frames in a row in two regions, and no room for three. */
  lemma AdjacentRegionsStayApart()
    ensures var rs := [Region(0x10_0000, 1), Region(0x10_2000, 1)];
            var rs' := FreeOne(rs, 0x10_1000);
            && Inv(rs) && Coalesced(rs) && Bridges(rs, 0x10_1000, 1)
            && Inv(rs') && FreeFrom(rs', 0x100, 3)
            && Alloc(rs', 3) == (rs', 0)
  {
    hide FreeOne, Coalesced, Bridges, End;
    OneBetween();
    ExampleBridged();
    var rs' := [Region(0x10_0000, 2), Region(0x10_2000, 1)];
    assert Holds(rs'[0], 0x100) && Holds(rs'[0], 0x101) && Holds(rs'[1], 0x102);
  }
}
