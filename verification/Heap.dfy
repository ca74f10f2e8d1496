/**
 The kernel's bump allocator. Memory is handed out upwards from the end of the kernel image and is
 never taken back. A kmalloc result of NULL is `None`.
 */
module Heap {
  import opened Words

  const KERNEL_HEAP_SIZE: nat := 8 * 1024 * 1024

  /** `ptr` is 0 until the first use. */
  datatype State = State(kernelEnd: nat, ptr: nat, limit: nat)

  datatype Block = Block(base: nat, size: nat)

  /** The lazy initialisation: the heap starts at the end of the kernel image. */
  function Ready(h: State): State {
    if h.ptr != 0 then h else State(h.kernelEnd, h.kernelEnd, h.kernelEnd + KERNEL_HEAP_SIZE)
  }

  predicate Valid(h: State) {
    0 < h.ptr <= h.limit < TWO64
  }

  /** What one call does to the heap pointer, with every 64-bit wrap-around of the source. */
  function Kmalloc(h0: State, size: nat): (State, Option<nat>) {
    if size == 0 then (h0, None)
    else
      var h := Ready(h0);
      var rounded := RoundUp8(size);
      if Wrap(h.ptr + rounded) > h.limit then (h, None)
      else (h.(ptr := Wrap(h.ptr + rounded)), Some(h.ptr))
  }

  /** The bytes handed out really exist: a block of the requested size between the old and the new pointer. */
  predicate Honest(h: State, size: nat) {
    var (h', r) := Kmalloc(h, size);
    r.Some? ==> Ready(h).ptr <= r.value && r.value + size <= h'.ptr <= Ready(h).limit
  }

  /** The exact condition: rounding the request up and adding it to the pointer stays inside 64 bits. */
  lemma KmallocHonest(h: State, size: Word)
    requires Valid(Ready(h))
    ensures Honest(h, size) <==> size == 0 || Ready(h).ptr + (size + 7 - (size + 7) % 8) < TWO64
  {
    var g := Ready(h);
    Rounded(size);
    hide RoundUp8, Wrap;
    WrapIs(g.ptr + RoundUp8(size));
  }

  lemma Rounded(size: Word)
    ensures size + 7 < TWO64 ==> RoundUp8(size) == size + 7 - (size + 7) % 8 >= size
    ensures size + 7 >= TWO64 ==> RoundUp8(size) == 0
    ensures RoundUp8(size) < TWO64
  {
  }

  lemma WrapIs(x: nat)
    requires x < 2 * TWO64
    ensures Wrap(x) == if x < TWO64 then x else x - TWO64
  {
  }

  /** Away from the top of the address space nothing wraps. */
  lemma KmallocPlain(h: State, size: nat)
    requires Valid(Ready(h)) && size > 0 && size % 8 == 0 && Ready(h).limit + size + 8 < TWO64
    ensures Kmalloc(h, size) ==
            var g := Ready(h);
            if g.ptr + size > g.limit then (g, None) else (g.(ptr := g.ptr + size), Some(g.ptr))
  {
    hide RoundUp8, Wrap;
    Rounded(size);
    WrapIs(Ready(h).ptr + size);
  }

  /**
   What a request that cannot wrap does, from the first call on: the block starts at the heap pointer, which
   is the end of the kernel at first, and the pointer moves on by the size rounded up to a multiple of 8.
   */
  lemma KmallocExactly(h: State, size: nat, units: nat)
    requires Valid(Ready(h)) && size + Ready(h).limit + 8 < TWO64 && 0 < size <= 8 * units < size + 8
    ensures h.ptr == 0 ==> Ready(h) == State(h.kernelEnd, h.kernelEnd, h.kernelEnd + 8 * 1024 * 1024)
    ensures h.ptr != 0 ==> Ready(h) == h
    ensures Kmalloc(h, size) ==
            var g := Ready(h);
            if g.ptr + 8 * units > g.limit then (g, None) else (g.(ptr := g.ptr + 8 * units), Some(g.ptr))
    ensures Kmalloc(h, 0) == (h, None)
  {
    hide RoundUp8, Wrap;
    RoundedTo(size, units);
    WrapIs(Ready(h).ptr + 8 * units);
  }

  lemma RoundedTo(size: nat, units: nat)
    requires size <= 8 * units < size + 8 && size + 8 < TWO64
    ensures RoundUp8(size) == 8 * units
  {
    QuotRem(size + 7, units, size + 7 - 8 * units, 8);
  }

  lemma KmallocGrants(h: State, size: nat)
    requires Valid(Ready(h)) && size + Ready(h).limit + 8 < TWO64
    ensures var (h', r) := Kmalloc(h, size);
            && Valid(Ready(h')) && Ready(h').limit == Ready(h).limit && h'.kernelEnd == h.kernelEnd
            && (if r.None? then Ready(h') == Ready(h) else r.value == Ready(h).ptr && r.value + size <= h'.ptr)
            && (Valid(h) ==> Valid(h'))
  {
    if size > 0 {
      Rounded(size);
      WrapIs(Ready(h).ptr + RoundUp8(size));
    }
    hide RoundUp8, Wrap;
  }

  /** A sequence of requests, the blocks that were granted, oldest first. */
  function Run(h: State, sizes: seq<nat>): (State, seq<Block>)
    decreases |sizes|
  {
    if sizes == [] then (h, [])
    else
      var (h1, r) := Kmalloc(h, sizes[0]);
      var (h2, blocks) := Run(h1, sizes[1..]);
      (h2, if r.Some? then [Block(r.value, sizes[0])] + blocks else blocks)
  }

  /** Requests that no reachable heap pointer can make wrap. */
  predicate Modest(h: State, sizes: seq<nat>) {
    forall i :: 0 <= i < |sizes| ==> sizes[i] + Ready(h).limit + 8 < TWO64
  }

  predicate Within(b: Block, lo: nat, hi: nat) {
    lo <= b.base && b.base + b.size <= hi
  }

  predicate Before(a: Block, b: Block) {
    a.base + a.size <= b.base
  }

  /** Over every run the blocks lie in order, disjoint, inside the reserved range. */
  lemma {:induction false} BlocksDisjoint(h: State, sizes: seq<nat>)
    requires Valid(Ready(h)) && Modest(h, sizes)
    ensures var (h', blocks) := Run(h, sizes);
            && Valid(Ready(h')) && Ready(h).ptr <= Ready(h').ptr && Ready(h').limit == Ready(h).limit
            && (forall i :: 0 <= i < |blocks| ==> Within(blocks[i], Ready(h).ptr, Ready(h').ptr))
            && (forall i, j :: 0 <= i < j < |blocks| ==> Before(blocks[i], blocks[j]))
    decreases |sizes|
  {
    if sizes == [] {
    } else {
      var (h1, r) := Kmalloc(h, sizes[0]);
      KmallocGrants(h, sizes[0]);
      BlocksDisjoint(h1, sizes[1..]);
    }
  }

  /** The allocator's static variables; NULL is 0. */
  class BumpHeap {
    const kernelEnd: nat
    var base: nat
    var ptr: nat
    var limit: nat

    constructor (kernelEnd: nat)
      ensures Model() == State(kernelEnd, 0, 0)
    {
      this.kernelEnd := kernelEnd;
      base, ptr, limit := 0, 0, 0;
    }

    function Model(): State
      reads this
    {
      State(kernelEnd, ptr, limit)
    }

    method EnsureInit()
      modifies this
      ensures Model() == Ready(old(Model()))
    {
      if ptr != 0 { return; }
      base := kernelEnd;
      ptr := base;
      limit := base + KERNEL_HEAP_SIZE;
    }

    method Allocate(size: Word) returns (p: nat)
      requires Ready(Model()).ptr != 0
      modifies this
      ensures Model() == Kmalloc(old(Model()), size).0
      ensures p == match Kmalloc(old(Model()), size).1 { case None => 0 case Some(a) => a }
      ensures p == 0 <==> Kmalloc(old(Model()), size).1.None?
    {
      if size == 0 { return 0; }
      EnsureInit();
      var rounded := RoundUp8(size);
      if Wrap(ptr + rounded) > limit { return 0; }
      p := ptr;
      ptr := Wrap(ptr + rounded);
    }
  }
}
