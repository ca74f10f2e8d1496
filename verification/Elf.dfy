/** The ELF64 loader: header checks, segment bounds and the image it builds. */
module Elf {
  import opened Words
  import opened Bytes
  import Heap

  const EHDR_SIZE: nat := 64
  const PHDR_SIZE: nat := 56
  const PT_LOAD: nat := 1

  datatype Ehdr = Ehdr(class_: nat, kind: nat, machine: nat, entry: Word, phoff: Word, phentsize: nat, phnum: nat)
  datatype Phdr = Phdr(kind: nat, offset: Word, vaddr: Word, filesz: Word, memsz: Word)

  function Field(data: seq<byte>, off: nat, n: nat): nat
    requires off + n <= |data|
  {
    Le(data[off..off + n])
  }

  function Field64(data: seq<byte>, off: nat): Word
    requires off + 8 <= |data|
  {
    LeBound(data[off..off + 8]);
    Limits();
    Le(data[off..off + 8])
  }

  /** The ELF64 file header, at the offsets of the System V gABI. */
  function HeaderOf(data: seq<byte>): Ehdr
    requires |data| >= EHDR_SIZE
  {
    Ehdr(data[4], Field(data, 16, 2), Field(data, 18, 2), Field64(data, 24), Field64(data, 32), Field(data, 54, 2), Field(data, 56, 2))
  }

  lemma FieldIs(data: seq<byte>, off: nat, v: nat, n: nat)
    requires At(data, off, Enc(v, n)) && v < Limit(n)
    ensures off + n <= |data| && Field(data, off, n) == v && (n == 8 ==> Field64(data, off) == v)
  {
    FieldAt(data, off, v, n);
  }

  /** A file header written at the offsets of the System V gABI is read back. */
  lemma HeaderIs(data: seq<byte>, h: Ehdr)
    requires |data| >= EHDR_SIZE && data[4] == h.class_
    requires h.kind < 0x1_0000 && h.machine < 0x1_0000 && h.phentsize < 0x1_0000 && h.phnum < 0x1_0000
    requires At(data, 16, Enc(h.kind, 2)) && At(data, 18, Enc(h.machine, 2)) && At(data, 24, Enc(h.entry, 8))
    requires At(data, 32, Enc(h.phoff, 8)) && At(data, 54, Enc(h.phentsize, 2)) && At(data, 56, Enc(h.phnum, 2))
    ensures HeaderOf(data) == h
  {
    Limits();
    FieldIs(data, 16, h.kind, 2);
    FieldIs(data, 18, h.machine, 2);
    FieldIs(data, 24, h.entry, 8);
    FieldIs(data, 32, h.phoff, 8);
    FieldIs(data, 54, h.phentsize, 2);
    FieldIs(data, 56, h.phnum, 2);
  }

  /** elf_validate */
  function Validate(data: seq<byte>): (code: int)
    ensures code == 0 ==> |data| >= EHDR_SIZE
  {
    if |data| < EHDR_SIZE then -1
    else
      var eh := HeaderOf(data);
      if data[0] != 0x7f || data[1] != 0x45 || data[2] != 0x4c || data[3] != 0x46 then -2
      else if eh.class_ != 2 then -3
      else if eh.machine != 62 then -4
      else if eh.kind != 2 && eh.kind != 3 then -5
      else if eh.phoff == 0 || eh.phnum == 0 then -6
      else if Wrap(eh.phoff + eh.phnum * eh.phentsize) > |data| then -7
      else 0
  }

  function PhdrOffset(eh: Ehdr, i: nat): nat {
    Wrap(eh.phoff + i * eh.phentsize)
  }

  /** The header table ends where 64-bit offsets still reach. */
  predicate TableFits(eh: Ehdr) {
    eh.phoff + eh.phnum * eh.phentsize + PHDR_SIZE < TWO64
  }

  lemma OffsetPlain(eh: Ehdr, i: nat)
    requires TableFits(eh) && i < eh.phnum
    ensures PhdrOffset(eh, i) == eh.phoff + i * eh.phentsize && PhdrOffset(eh, i) + PHDR_SIZE < TWO64
  {
    var rest := eh.phnum - i;
    assert eh.phnum * eh.phentsize == i * eh.phentsize + rest * eh.phentsize;
  }

  /** The header lies in the file, and elf_read_phdr succeeds. */
  predicate Readable(data: seq<byte>, eh: Ehdr, i: nat) {
    i < eh.phnum && PhdrOffset(eh, i) + PHDR_SIZE < TWO64 && PhdrOffset(eh, i) + PHDR_SIZE <= |data|
  }

  /** The header elf_read_phdr copies out; its callers use it only when the read succeeded. */
  function PhdrAt(data: seq<byte>, eh: Ehdr, i: nat): Phdr {
    if !Readable(data, eh, i) then Phdr(0, 0, 0, 0, 0)
    else
      var off := PhdrOffset(eh, i);
      Phdr(Field(data, off, 4), Field64(data, off + 8), Field64(data, off + 16), Field64(data, off + 32), Field64(data, off + 40))
  }

  /** A program header written at its place in the table is read back. */
  lemma PhdrIs(data: seq<byte>, eh: Ehdr, i: nat, h: Phdr)
    requires Readable(data, eh, i) && h.kind < TWO32
    requires var off := PhdrOffset(eh, i);
             && At(data, off, Enc(h.kind, 4)) && At(data, off + 8, Enc(h.offset, 8)) && At(data, off + 16, Enc(h.vaddr, 8))
             && At(data, off + 32, Enc(h.filesz, 8)) && At(data, off + 40, Enc(h.memsz, 8))
    ensures PhdrAt(data, eh, i) == h
  {
    var off := PhdrOffset(eh, i);
    Limits();
    FieldIs(data, off, h.kind, 4);
    FieldIs(data, off + 8, h.offset, 8);
    FieldIs(data, off + 16, h.vaddr, 8);
    FieldIs(data, off + 32, h.filesz, 8);
    FieldIs(data, off + 40, h.memsz, 8);
  }

  ghost predicate AllReadable(data: seq<byte>, eh: Ehdr) {
    forall i :: 0 <= i < eh.phnum ==> Readable(data, eh, i)
  }

  /** The program header table. */
  function Headers(data: seq<byte>, eh: Ehdr): (hs: seq<Phdr>)
    ensures |hs| == eh.phnum
  {
    seq(eh.phnum, i requires 0 <= i => PhdrAt(data, eh, i))
  }

  predicate IsLoad(h: Phdr) {
    h.kind == PT_LOAD
  }

  /** A loadable segment whose file part is within its memory part and whose ranges do not wrap. */
  predicate Sane(h: Phdr) {
    IsLoad(h) ==> h.filesz <= h.memsz && h.vaddr + h.memsz < TWO64 && h.offset + h.filesz < TWO64
  }

  function MinVaddr(hs: seq<Phdr>): Word {
    if hs == [] then MINUS_ONE
    else
      var n := |hs| - 1;
      var m := MinVaddr(hs[..n]);
      if IsLoad(hs[n]) && hs[n].vaddr < m then hs[n].vaddr else m
  }

  function SegEnd(h: Phdr): Word {
    Wrap(h.vaddr + h.memsz)
  }

  function MaxEnd(hs: seq<Phdr>): Word {
    if hs == [] then 0
    else
      var n := |hs| - 1;
      var m := MaxEnd(hs[..n]);
      if IsLoad(hs[n]) && SegEnd(hs[n]) > m then SegEnd(hs[n]) else m
  }

  /** The image spans exactly from the lowest start to the highest end of the loadable segments. */
  lemma {:induction false} ImageBounds(hs: seq<Phdr>)
    ensures forall i :: 0 <= i < |hs| && IsLoad(hs[i]) ==> MinVaddr(hs) <= hs[i].vaddr && SegEnd(hs[i]) <= MaxEnd(hs)
    ensures MinVaddr(hs) == MINUS_ONE || exists i :: 0 <= i < |hs| && IsLoad(hs[i]) && hs[i].vaddr == MinVaddr(hs)
    ensures MaxEnd(hs) == 0 || exists i :: 0 <= i < |hs| && IsLoad(hs[i]) && SegEnd(hs[i]) == MaxEnd(hs)
  {
    if hs != [] {
      var init := hs[..|hs| - 1];
      ImageBounds(init);
      forall i | 0 <= i < |hs| && IsLoad(hs[i])
        ensures MinVaddr(hs) <= hs[i].vaddr && SegEnd(hs[i]) <= MaxEnd(hs)
      {
        if i < |init| { assert init[i] == hs[i]; }
      }
    }
  }

  function ImageSize(hs: seq<Phdr>): nat {
    PageUp(Wrap(MaxEnd(hs) - MinVaddr(hs)))
  }

  predicate InFile(h: Phdr, size: nat) {
    IsLoad(h) ==> Wrap(h.offset + h.filesz) <= size
  }

  /** Image offset `k` lies in the file part of the segment. */
  predicate Covers(h: Phdr, min: nat, k: nat) {
    IsLoad(h) && min <= h.vaddr && h.vaddr - min <= k < h.vaddr - min + h.filesz
  }

  /** The image byte at `k`: that of the last segment whose file part covers it, zero where none does. */
  function ImageByte(data: seq<byte>, hs: seq<Phdr>, min: nat, k: nat): byte {
    if hs == [] then 0
    else
      var h := hs[|hs| - 1];
      if Covers(h, min, k) && h.offset + h.filesz <= |data| then data[h.offset + (k - (h.vaddr - min))]
      else ImageByte(data, hs[..|hs| - 1], min, k)
  }

  lemma PageUpGrows(x: nat)
    requires x + PAGE < TWO64
    ensures x <= PageUp(x)
  {
  }

  /** Every file part fits the image. */
  lemma SegmentFits(hs: seq<Phdr>, i: nat)
    requires i < |hs| && IsLoad(hs[i]) && forall j :: 0 <= j < |hs| ==> Sane(hs[j])
    requires MaxEnd(hs) - MinVaddr(hs) + PAGE < TWO64
    ensures MinVaddr(hs) <= hs[i].vaddr
    ensures hs[i].vaddr - MinVaddr(hs) + hs[i].filesz <= ImageSize(hs)
  {
    ImageBounds(hs);
    var min, max := MinVaddr(hs), MaxEnd(hs);
    hide MinVaddr, MaxEnd, PageUp;
    assert Sane(hs[i]) && SegEnd(hs[i]) == hs[i].vaddr + hs[i].memsz;
    PageUpGrows(max - min);
  }

  /** Where segment `i` is the last whose file part covers `k`, the image has the segment's file byte. */
  lemma {:induction false} ImageByteCovered(data: seq<byte>, hs: seq<Phdr>, min: nat, k: nat, i: nat)
    requires i < |hs| && Covers(hs[i], min, k) && hs[i].offset + hs[i].filesz <= |data|
    requires forall j :: i < j < |hs| ==> !Covers(hs[j], min, k)
    ensures ImageByte(data, hs, min, k) == data[hs[i].offset + (k - (hs[i].vaddr - min))]
    decreases |hs|
  {
    if i < |hs| - 1 {
      ImageByteCovered(data, hs[..|hs| - 1], min, k, i);
    }
  }

  /** Where no file part covers `k`, and so in all of the bss, the image is zero. */
  lemma {:induction false} ImageByteUncovered(data: seq<byte>, hs: seq<Phdr>, min: nat, k: nat)
    requires forall i :: 0 <= i < |hs| ==> !Covers(hs[i], min, k)
    ensures ImageByte(data, hs, min, k) == 0
    decreases |hs|
  {
    if hs != [] {
      ImageByteUncovered(data, hs[..|hs| - 1], min, k);
    }
  }

  // ---------------------------------------------------------------- the loader

  /** The return code, check by check. -6 cannot occur: the second pass repeats reads that succeeded. */
  ghost function LoadCode(data: seq<byte>, h: Heap.State): int {
    if |data| == 0 then -1
    else if Validate(data) != 0 then -2
    else
      var eh := HeaderOf(data);
      if !AllReadable(data, eh) then -3
      else
        var hs := Headers(data, eh);
        if MinVaddr(hs) == MINUS_ONE || MaxEnd(hs) == 0 then -4
        else if Heap.Kmalloc(h, ImageSize(hs)).1.None? then -5
        else if exists i :: 0 <= i < |hs| && !InFile(hs[i], |data|) then -7
        else 0
  }

  /** elf_read_phdr, for a header table that does not wrap. */
  method ReadPhdr(data: seq<byte>, eh: Ehdr, i: nat) returns (code: int, ph: Phdr)
    requires TableFits(eh)
    ensures code == if i >= eh.phnum then -2 else if Readable(data, eh, i) then 0 else -3
    ensures code == 0 ==> ph == PhdrAt(data, eh, i)
  {
    ph := Phdr(0, 0, 0, 0, 0);
    if i >= eh.phnum { return -2, ph; }
    OffsetPlain(eh, i);
    var off := PhdrOffset(eh, i);
    if Wrap(off + PHDR_SIZE) > |data| { return -3, ph; }
    return 0, PhdrAt(data, eh, i);
  }

  lemma OneMore(hs: seq<Phdr>, h: Phdr)
    ensures MinVaddr(hs + [h]) == if IsLoad(h) && h.vaddr < MinVaddr(hs) then h.vaddr else MinVaddr(hs)
    ensures MaxEnd(hs + [h]) == if IsLoad(h) && SegEnd(h) > MaxEnd(hs) then SegEnd(h) else MaxEnd(hs)
  {
    assert (hs + [h])[..|hs|] == hs;
  }

  lemma BoundsStep(hs: seq<Phdr>, i: nat)
    requires i < |hs|
    ensures MinVaddr(hs[..i + 1]) == if IsLoad(hs[i]) && hs[i].vaddr < MinVaddr(hs[..i]) then hs[i].vaddr else MinVaddr(hs[..i])
    ensures MaxEnd(hs[..i + 1]) == if IsLoad(hs[i]) && SegEnd(hs[i]) > MaxEnd(hs[..i]) then SegEnd(hs[i]) else MaxEnd(hs[..i])
  {
    hide MinVaddr, MaxEnd, SegEnd, IsLoad;
    OneMore(hs[..i], hs[i]);
    assert hs[..i + 1] == hs[..i] + [hs[i]];
  }

  method BoundsPass(data: seq<byte>, eh: Ehdr) returns (ok: bool, min: Word, max: Word)
    requires TableFits(eh)
    ensures ok <==> AllReadable(data, eh)
    ensures ok ==> min == MinVaddr(Headers(data, eh)) && max == MaxEnd(Headers(data, eh))
  {
    hide PhdrAt, Readable, MinVaddr, MaxEnd, SegEnd, TableFits, IsLoad, Headers, Wrap;
    ghost var hs := Headers(data, eh);
    min, max := MINUS_ONE, 0;
    NoBounds(hs);
    for i := 0 to eh.phnum
      invariant forall j :: 0 <= j < i ==> Readable(data, eh, j)
      invariant min == MinVaddr(hs[..i]) && max == MaxEnd(hs[..i])
    {
      var code, ph := ReadPhdr(data, eh, i);
      if code != 0 { return false, min, max; }
      HeaderAt(data, eh, i);
      BoundsStep(hs, i);
      if IsLoad(ph) {
        if ph.vaddr < min { min := ph.vaddr; }
        var segEnd := SegEnd(ph);
        if segEnd > max { max := segEnd; }
      }
    }
    assert hs[..eh.phnum] == hs;
    ok := true;
  }

  lemma NoBounds(hs: seq<Phdr>)
    ensures MinVaddr(hs[..0]) == MINUS_ONE && MaxEnd(hs[..0]) == 0
  {
  }

  lemma HeaderAt(data: seq<byte>, eh: Ehdr, i: nat)
    requires i < eh.phnum
    ensures Headers(data, eh)[i] == PhdrAt(data, eh, i)
  {
  }

  /** The copy loop of one segment. */
  method CopySegment(data: seq<byte>, h: Phdr, min: Word, mem: array<byte>)
    requires IsLoad(h) && min <= h.vaddr && h.vaddr - min + h.filesz <= mem.Length && h.offset + h.filesz <= |data|
    modifies mem
    ensures forall k :: 0 <= k < mem.Length ==>
              mem[k] == if Covers(h, min, k) then data[h.offset + (k - (h.vaddr - min))] else old(mem[k])
  {
    var dest := h.vaddr - min;
    for n := 0 to h.filesz
      invariant forall k :: 0 <= k < mem.Length ==>
                  mem[k] == if dest <= k < dest + n then data[h.offset + (k - dest)] else old(mem[k])
    {
      mem[dest + n] := data[h.offset + n];
    }
  }

  /** The second pass. */
  method CopyPass(data: seq<byte>, eh: Ehdr, min: Word, mem: array<byte>, ghost hs: seq<Phdr>) returns (code: int)
    requires TableFits(eh) && AllReadable(data, eh) && hs == Headers(data, eh)
    requires forall i :: 0 <= i < |hs| ==> Sane(hs[i])
    requires forall i :: 0 <= i < |hs| && IsLoad(hs[i]) ==> min <= hs[i].vaddr && hs[i].vaddr - min + hs[i].filesz <= mem.Length
    requires forall k :: 0 <= k < mem.Length ==> mem[k] == 0
    modifies mem
    ensures code == if exists i :: 0 <= i < |hs| && !InFile(hs[i], |data|) then -7 else 0
    ensures code == 0 ==> forall k :: 0 <= k < mem.Length ==> mem[k] == ImageByte(data, hs, min, k)
  {
    hide PhdrAt, Readable, TableFits;
    for i := 0 to eh.phnum
      invariant forall j :: 0 <= j < i ==> InFile(hs[j], |data|)
      invariant forall k :: 0 <= k < mem.Length ==> mem[k] == ImageByte(data, hs[..i], min, k)
    {
      assert Readable(data, eh, i);
      var read, ph := ReadPhdr(data, eh, i);
      assert read == 0 && ph == hs[i] && Sane(hs[i]);
      assert hs[..i + 1][..i] == hs[..i];
      if IsLoad(ph) {
        if Wrap(ph.offset + ph.filesz) > |data| {
          assert !InFile(hs[i], |data|);
          return -7;
        }
        CopySegment(data, ph, min, mem);
      }
    }
    assert hs[..eh.phnum] == hs;
    return 0;
  }

  /** The fresh block after the zeroing loop. */
  method ZeroedBlock(total: nat) returns (mem: array<byte>)
    ensures fresh(mem) && mem.Length == total && forall i :: 0 <= i < total ==> mem[i] == 0
  {
    mem := new byte[total];
    for i := 0 to total
      invariant forall j :: 0 <= j < i ==> mem[j] == 0
    {
      mem[i] := 0;
    }
  }

  /**
   elf_load_from_buffer. `base` is the address kmalloc returned and `mem` the bytes there. Its caller
   must pass segments with p_filesz <= p_memsz and no wrapping ranges, in a header table that does not wrap.
   */
  method Load(data: seq<byte>, heap: Heap.BumpHeap)
    returns (code: int, base: nat, mem: array?<byte>, entry: Word)
    requires Heap.Valid(Heap.Ready(heap.Model()))
    requires |data| >= EHDR_SIZE ==> TableFits(HeaderOf(data))
    requires |data| >= EHDR_SIZE && AllReadable(data, HeaderOf(data)) ==>
               var hs := Headers(data, HeaderOf(data));
               (forall i :: 0 <= i < |hs| ==> Sane(hs[i])) && MaxEnd(hs) - MinVaddr(hs) + PAGE < TWO64
    modifies heap
    ensures code == LoadCode(data, old(heap.Model()))
    ensures code == 0 ==>
              var eh := HeaderOf(data);
              var hs := Headers(data, eh);
              && mem != null && fresh(mem) && mem.Length == ImageSize(hs)
              && Heap.Kmalloc(old(heap.Model()), ImageSize(hs)).1 == Some(base)
              && (forall k :: 0 <= k < mem.Length ==> mem[k] == ImageByte(data, hs, MinVaddr(hs), k))
              && entry == Wrap(base + (eh.entry - MinVaddr(hs)))
  {
    hide PhdrAt, Readable, HeaderOf, Validate, PageUp, MinVaddr, MaxEnd, TableFits, Heap.Kmalloc;
    base, mem, entry := 0, null, 0;
    if |data| == 0 { return -1, base, mem, entry; }
    if Validate(data) != 0 { return -2, base, mem, entry; }
    var eh := HeaderOf(data);
    var ok, min, max := BoundsPass(data, eh);
    if !ok { return -3, base, mem, entry; }
    ghost var hs := Headers(data, eh);
    if min == MINUS_ONE || max == 0 { return -4, base, mem, entry; }
    var top: int := max;
    var total := PageUp(Wrap(top - min));
    base := heap.Allocate(total);
    if base == 0 { return -5, base, mem, entry; }
    mem := ZeroedBlock(total);
    forall i | 0 <= i < |hs| && IsLoad(hs[i])
      ensures min <= hs[i].vaddr && hs[i].vaddr - min + hs[i].filesz <= total
    {
      SegmentFits(hs, i);
    }
    code := CopyPass(data, eh, min, mem, hs);
    if code != 0 { return; }
    entry := Wrap(base + (eh.entry - min));
  }
}
