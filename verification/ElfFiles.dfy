/** Which files the ELF loader takes, byte by byte, and which fault gives which code. */
module ElfFiles {
  import opened Words
  import opened Bytes
  import opened Elf
  import Heap

  // ---------------------------------------------------------------- fields, both ways

  /** The bytes of a number are its little-endian bytes. */
  lemma {:induction false} EncLe(bs: seq<byte>)
    ensures Enc(Le(bs), |bs|) == bs
  {
    if bs != [] {
      EncLe(bs[1..]);
      QuotRem(Le(bs), Le(bs[1..]), bs[0], 256);
    }
  }

  /** A field has exactly one value: the number whose bytes lie there. */
  lemma FieldExactly(data: seq<byte>, off: nat, v: nat, n: nat)
    requires off + n <= |data| && v < Limit(n)
    ensures At(data, off, Enc(v, n)) <==> Field(data, off, n) == v
  {
    EncLe(data[off..off + n]);
    if At(data, off, Enc(v, n)) { FieldAt(data, off, v, n); }
  }

  // ---------------------------------------------------------------- the tests of elf_validate

  /** The identification of the System V gABI: 0x7f, "ELF". */
  predicate Magic(data: seq<byte>) {
    At(data, 0, [0x7f, 0x45, 0x4c, 0x46])
  }

  /** e_machine is 62, x86-64. */
  predicate X86(data: seq<byte>) {
    At(data, 18, Enc(62, 2))
  }

  /** e_type is ET_EXEC (2) or ET_DYN (3). */
  predicate Loadable(data: seq<byte>) {
    At(data, 16, Enc(2, 2)) || At(data, 16, Enc(3, 2))
  }

  /** e_phoff, e_phentsize and e_phnum: where the program headers are, how long each is and how many. */
  datatype Table = Table(off: nat, size: nat, count: nat)

  predicate HasTable(data: seq<byte>, t: Table) {
    && t.off < TWO64 && t.size < 0x1_0000 && t.count < 0x1_0000
    && At(data, 32, Enc(t.off, 8)) && At(data, 54, Enc(t.size, 2)) && At(data, 56, Enc(t.count, 2))
  }

  function TableEnd(t: Table): nat {
    t.off + t.count * t.size
  }

  /** Every file with a whole header has exactly one such table. */
  lemma OneTable(data: seq<byte>) returns (t: Table)
    requires |data| >= 64
    ensures HasTable(data, t) && forall u :: HasTable(data, u) ==> u == t
    ensures var eh := HeaderOf(data); eh.phoff == t.off && eh.phentsize == t.size && eh.phnum == t.count
  {
    hide Enc, Le;
    var eh := HeaderOf(data);
    t := Table(eh.phoff, eh.phentsize, eh.phnum);
    FieldsSmall(data);
    TableExactly(data, t);
    forall u | HasTable(data, u)
      ensures u == t
    {
      TableExactly(data, u);
    }
  }

  lemma FieldsSmall(data: seq<byte>)
    requires |data| >= 64
    ensures HeaderOf(data).phentsize < 0x1_0000 && HeaderOf(data).phnum < 0x1_0000
  {
    hide Le;
    Limits();
    LeBound(data[54..56]);
    LeBound(data[56..58]);
  }

  lemma TableExactly(data: seq<byte>, t: Table)
    requires |data| >= 64 && t.off < TWO64 && t.size < 0x1_0000 && t.count < 0x1_0000
    ensures HasTable(data, t) <==>
            var eh := HeaderOf(data); eh.phoff == t.off && eh.phentsize == t.size && eh.phnum == t.count
  {
    hide Enc, Le, At;
    Limits();
    FieldExactly(data, 32, t.off, 8);
    FieldExactly(data, 54, t.size, 2);
    FieldExactly(data, 56, t.count, 2);
  }

  lemma KindExactly(data: seq<byte>)
    requires |data| >= 64
    ensures X86(data) <==> HeaderOf(data).machine == 62
    ensures Loadable(data) <==> HeaderOf(data).kind == 2 || HeaderOf(data).kind == 3
  {
    hide Enc, Le, At;
    Limits();
    FieldExactly(data, 18, 62, 2);
    FieldExactly(data, 16, 2, 2);
    FieldExactly(data, 16, 3, 2);
  }

  lemma MagicExactly(data: seq<byte>)
    requires |data| >= 64
    ensures Magic(data) <==> data[0] == 0x7f && data[1] == 0x45 && data[2] == 0x4c && data[3] == 0x46
  {
    var w := data[0..4];
    assert w[0] == data[0] && w[1] == data[1] && w[2] == data[2] && w[3] == data[3];
    if data[0] == 0x7f && data[1] == 0x45 && data[2] == 0x4c && data[3] == 0x46 {
      assert w == [0x7f, 0x45, 0x4c, 0x46];
    }
  }

  lemma TableIs(data: seq<byte>, t: Table)
    requires |data| >= 64 && HasTable(data, t)
    ensures var eh := HeaderOf(data); eh.phoff == t.off && eh.phentsize == t.size && eh.phnum == t.count
  {
    TableExactly(data, t);
  }

  lemma ClassExactly(data: seq<byte>)
    requires |data| >= 64
    ensures At(data, 4, [2]) <==> HeaderOf(data).class_ == 2
  {
    hide Field, Field64;
    assert data[4..5] == [data[4]];
  }

  /** The code, test by test, for a table that does not wrap; the first fault in this order decides. */
  lemma ValidateCode(data: seq<byte>, t: Table)
    requires HasTable(data, t) && TableEnd(t) < TWO64
    ensures |data| < 64 ==> Validate(data) == -1
    ensures |data| >= 64 ==>
              Validate(data) ==
              if !Magic(data) then -2
              else if !At(data, 4, [2]) then -3
              else if !X86(data) then -4
              else if !Loadable(data) then -5
              else if t.off == 0 || t.count == 0 then -6
              else if TableEnd(t) > |data| then -7
              else 0
  {
    hide HeaderOf, HasTable, At, Enc, X86, Loadable, Magic;
    if |data| >= 64 {
      MagicExactly(data);
      ClassExactly(data);
      KindExactly(data);
      TableIs(data, t);
    }
  }

  /** A 64-bit x86 executable or shared object whose program headers lie in the file. */
  ghost predicate Executable(data: seq<byte>) {
    && |data| >= 64 && Magic(data) && At(data, 4, [2]) && X86(data) && Loadable(data)
    && exists t :: HasTable(data, t) && t.off != 0 && t.count != 0 && TableEnd(t) <= |data|
  }

  /** The header table does not wrap 64 bits. */
  ghost predicate NoWrap(data: seq<byte>) {
    forall t :: HasTable(data, t) ==> TableEnd(t) < TWO64
  }

  /** Exactly these files pass. */
  lemma ValidatesExactly(data: seq<byte>)
    requires NoWrap(data)
    ensures Validate(data) == 0 <==> Executable(data)
  {
    if |data| >= 64 {
      var t := OneTable(data);
      ValidateCode(data, t);
      hide HasTable, Magic, X86, Loadable, At, Validate;
    }
  }

  // ---------------------------------------------------------------- the codes of the loader

  /** The program header `i` does not lie in the file. */
  predicate Missing(data: seq<byte>, t: Table, i: nat) {
    i < t.count && t.off + i * t.size + 56 > |data|
  }

  /** No loadable segment starts below the top of the address space, or none ends above 0. */
  ghost predicate NoImage(hs: seq<Phdr>) {
    || (forall i :: 0 <= i < |hs| && IsLoad(hs[i]) ==> hs[i].vaddr == MINUS_ONE)
    || (forall i :: 0 <= i < |hs| && IsLoad(hs[i]) ==> SegEnd(hs[i]) == 0)
  }

  lemma NoImageIs(hs: seq<Phdr>)
    ensures NoImage(hs) <==> MinVaddr(hs) == MINUS_ONE || MaxEnd(hs) == 0
  {
    ImageBounds(hs);
    hide MinVaddr, MaxEnd, SegEnd;
  }

  /** The whole pages between the lowest start and the highest end, and no more. */
  lemma ImageSizeIs(hs: seq<Phdr>)
    requires MinVaddr(hs) <= MaxEnd(hs) && MaxEnd(hs) - MinVaddr(hs) + PAGE < TWO64
    ensures var n := MaxEnd(hs) - MinVaddr(hs); n <= ImageSize(hs) < n + PAGE && ImageSize(hs) % PAGE == 0
  {
    hide MinVaddr, MaxEnd;
  }

  lemma ReadableExactly(data: seq<byte>, t: Table)
    requires |data| >= 64 && HasTable(data, t) && TableEnd(t) + 56 < TWO64
    ensures AllReadable(data, HeaderOf(data)) <==> forall i: nat :: !Missing(data, t, i)
  {
    TableIs(data, t);
    var eh := HeaderOf(data);
    hide HeaderOf, HasTable, PhdrOffset;
    forall i: nat | i < t.count
      ensures Readable(data, eh, i) <==> !Missing(data, t, i)
    {
      OffsetPlain(eh, i);
    }
  }

  /**
   The loader's codes for a non-empty file: -2 exactly for the files that are not executables; then a
   program header outside the file, no image, no room, and a segment outside the file, in this order.
   */
  lemma LoadCodes(data: seq<byte>, h: Heap.State, t: Table)
    requires data != [] && NoWrap(data) && (|data| >= 64 ==> HasTable(data, t) && TableEnd(t) + 56 < TWO64)
    ensures LoadCode(data, h) == -2 <==> !Executable(data)
    ensures Executable(data) ==>
              var hs := Headers(data, HeaderOf(data));
              && |hs| == t.count
              && LoadCode(data, h) ==
                 if exists i: nat :: Missing(data, t, i) then -3
                 else if NoImage(hs) then -4
                 else if Heap.Kmalloc(h, ImageSize(hs)).1.None? then -5
                 else if exists i :: 0 <= i < |hs| && IsLoad(hs[i]) && Wrap(hs[i].offset + hs[i].filesz) > |data| then -7
                 else 0
  {
    hide HeaderOf, Headers, HasTable, NoWrap, Executable, AllReadable, NoImage, Missing, Validate, LoadCode, ImageSize, Heap.Kmalloc;
    ValidatesExactly(data);
    CodesInOrder(data, h);
    if |data| >= 64 {
      ReadableExactly(data, t);
      TableIs(data, t);
    } else {
      TooShort(data);
    }
  }

  lemma EmptyFile(h: Heap.State)
    ensures LoadCode([], h) == -1
  {
  }

  lemma TooShort(data: seq<byte>)
    requires |data| < 64
    ensures !Executable(data)
  {
  }

  lemma CodesInOrder(data: seq<byte>, h: Heap.State)
    requires data != []
    ensures LoadCode(data, h) == -2 <==> Validate(data) != 0
    ensures Validate(data) == 0 ==>
              var hs := Headers(data, HeaderOf(data));
              LoadCode(data, h) ==
                 if !AllReadable(data, HeaderOf(data)) then -3
                 else if NoImage(hs) then -4
                 else if Heap.Kmalloc(h, ImageSize(hs)).1.None? then -5
                 else if exists i :: 0 <= i < |hs| && IsLoad(hs[i]) && Wrap(hs[i].offset + hs[i].filesz) > |data| then -7
                 else 0
  {
    hide HeaderOf, Headers, AllReadable, NoImage, Validate, ImageSize, MinVaddr, MaxEnd, Heap.Kmalloc, IsLoad, Wrap;
    if Validate(data) == 0 {
      var hs := Headers(data, HeaderOf(data));
      NoImageIs(hs);
      OutsideIs(hs, |data|);
      hide InFile;
    }
  }

  lemma OutsideIs(hs: seq<Phdr>, size: nat)
    ensures (exists i :: 0 <= i < |hs| && !InFile(hs[i], size))
            <==> exists i :: 0 <= i < |hs| && IsLoad(hs[i]) && Wrap(hs[i].offset + hs[i].filesz) > size
  {
    hide Wrap, IsLoad;
    if i :| 0 <= i < |hs| && !InFile(hs[i], size) { assert IsLoad(hs[i]); }
    if i :| 0 <= i < |hs| && IsLoad(hs[i]) && Wrap(hs[i].offset + hs[i].filesz) > size { assert !InFile(hs[i], size); }
  }
}
