/** Sectors, clusters and chains as the reader's loops fetch them into memory. */
module FatDisk {
  import opened Words
  import opened Bytes
  import opened Fat32

  // ---------------------------------------------------------------- arithmetic

  /** Enough clusters and no more than needed. */
  lemma RoundedUp(size: nat, k: nat, have: nat)
    requires 0 < k && 0 < size <= have * k
    ensures var n := (size + k - 1) / k; 0 < n <= have && size <= n * k
  {
    var n := (size + k - 1) / k;
    var r := (size + k - 1) % k;
    assert size + k - 1 == n * k + r;
    if n > have {
      Monotone(have + 1, n, k);
      OneMore(have, k);
    }
  }

  /** The source's 32-bit round-up. */
  function Needed(size: nat, bytes: nat): nat
    requires bytes > 0
  {
    (size + bytes - 1) % TWO32 / bytes
  }

  lemma NeededPlain(size: nat, k: nat, have: nat)
    requires 0 < k && 0 < size <= have * k && size + k <= TWO32
    ensures Needed(size, k) <= have && size <= Needed(size, k) * k
  {
    NeededFits(size, k);
    hide Needed;
    RoundedUp(size, k, have);
  }

  /** The 32-bit sum does not wrap. */
  lemma NeededFits(size: nat, k: nat)
    requires 0 < k && 0 < size && size + k <= TWO32
    ensures Needed(size, k) == (size + k - 1) / k
  {
    assert (size + k - 1) % TWO32 == size + k - 1;
  }

  lemma NeededIs(v: Volume, size: nat, have: nat)
    requires 0 < ClusterSize(v) && 0 < size <= Span(v, have) && size + ClusterSize(v) <= TWO32
    ensures Needed(size, ClusterSize(v)) <= have && size <= Span(v, Needed(size, ClusterSize(v)))
  {
    hide ClusterSize, Needed;
    NeededPlain(size, ClusterSize(v), have);
  }

  lemma LeTwo(bs: seq<byte>)
    requires |bs| == 2
    ensures Le(bs) == bs[0] as int + 0x100 * bs[1] as int
  {
    assert Le(bs[1..]) == bs[1] + 256 * Le(bs[1..][1..]);
  }

  lemma LeFour(bs: seq<byte>)
    requires |bs| == 4
    ensures Le(bs) == bs[0] as int + 0x100 * bs[1] as int + 0x1_0000 * bs[2] as int + 0x100_0000 * bs[3] as int
  {
    assert bs[1..][1..] == bs[2..];
    assert Le(bs[1..]) == bs[1] + 256 * Le(bs[2..]);
    LeTwo(bs[2..]);
  }

  /** le32 of an array */
  function Le32(a: array<byte>, off: nat): (r: nat)
    requires off + 4 <= a.Length
    reads a
    ensures r == U32(a[..], off)
  {
    LeFour(a[..][off..off + 4]);
    a[off] as int + 0x100 * a[off + 1] as int + 0x1_0000 * a[off + 2] as int + 0x100_0000 * a[off + 3] as int
  }

  // ---------------------------------------------------------------- chains

  lemma SpanStep(v: Volume, i: nat, n: nat)
    ensures Span(v, 0) == 0 <= Span(v, n) && Span(v, 1) == ClusterSize(v)
    ensures i < n ==> Span(v, i + 1) == Span(v, i) + ClusterSize(v) <= Span(v, n)
  {
    OneMore(i, ClusterSize(v));
    if i < n { Monotone(i + 1, n, ClusterSize(v)); }
  }

  lemma ChainSuffix(fat: seq<byte>, c: nat, chain: seq<nat>, k: nat)
    requires IsChain(fat, c, chain) && k < |chain|
    ensures IsChain(fat, chain[k], chain[k..])
  {
    var rest := chain[k..];
    forall i {:trigger Next(fat, rest[i])} | 0 <= i < |rest| - 1
      ensures Next(fat, rest[i]) == rest[i + 1] < END_OF_CHAIN
    {
      assert rest[i] == chain[k + i];
      assert Next(fat, chain[k + i]) == chain[k + i + 1];
    }
  }

  lemma ChainNext(fat: seq<byte>, c: nat, chain: seq<nat>, i: nat)
    requires IsChain(fat, c, chain) && i < |chain|
    ensures c == chain[0] && InFat(fat, chain[i])
    ensures Next(fat, chain[i]) >= END_OF_CHAIN <==> i == |chain| - 1
    ensures i < |chain| - 1 ==> Next(fat, chain[i]) == chain[i + 1]
  {
  }

  lemma FlatNothing(dev: Device, v: Volume, chain: seq<nat>)
    ensures Flat(dev, v, chain[..0]) == []
  {
  }

  lemma FlatStep(dev: Device, v: Volume, chain: seq<nat>, i: nat)
    requires i < |chain|
    ensures Flat(dev, v, chain[..i + 1]) == Flat(dev, v, chain[..i]) + ClusterBytes(dev, v, chain[i])
  {
    assert chain[..i + 1][..i] == chain[..i];
  }

  lemma {:induction false} FlatPrefix(dev: Device, v: Volume, chain: seq<nat>, n: nat)
    requires n <= |chain|
    ensures Flat(dev, v, chain[..n]) <= Flat(dev, v, chain)
    decreases |chain|
  {
    if n == |chain| {
      assert chain[..n] == chain;
    } else {
      var m := |chain| - 1;
      FlatPrefix(dev, v, chain[..m], n);
      assert chain[..m][..n] == chain[..n];
    }
  }

  lemma FlatOne(dev: Device, v: Volume, c: nat)
    ensures Flat(dev, v, [c]) == ClusterBytes(dev, v, c)
  {
    assert [c][..0] == [];
  }

  lemma FileFacts(dev: Device, v: Volume, fat: seq<byte>, e: Ent, chain: seq<nat>, data: string)
    requires FileHolds(dev, v, fat, e, chain, data) && Size(e) > 0
    ensures IsChain(fat, StartCluster(e), chain) && Size(e) <= Span(v, |chain|)
    ensures Size(e) + ClusterSize(v) <= TWO32
  {
  }

  /** The bytes of a file are in its first clusters. */
  lemma FileText(dev: Device, v: Volume, fat: seq<byte>, e: Ent, chain: seq<nat>, data: string, n: nat)
    requires FileHolds(dev, v, fat, e, chain, data) && Size(e) > 0 && n <= |chain| && Size(e) <= Span(v, n)
    ensures Text(Flat(dev, v, chain[..n])[..Size(e)]) == data
  {
    FlatPrefix(dev, v, chain, n);
  }

  /** A buffer with `bs` written into it at `at`. */
  function Overlay(before: seq<byte>, at: nat, bs: seq<byte>): (r: seq<byte>)
    requires at + |bs| <= |before|
    ensures |r| == |before|
  {
    before[..at] + bs + before[at + |bs|..]
  }

  lemma OverlayNothing(before: seq<byte>, at: nat)
    requires at <= |before|
    ensures Overlay(before, at, []) == before
  {
  }

  /** Two writes one behind the other are one. */
  lemma OverlayTwice(before: seq<byte>, at: nat, a: seq<byte>, b: seq<byte>)
    requires at + |a| + |b| <= |before|
    ensures Overlay(Overlay(before, at, a), at + |a|, b) == Overlay(before, at, a + b)
  {
    var x := before[..at] + a + before[at + |a|..];
    assert x[..at + |a|] == before[..at] + a;
    assert x[at + |a| + |b|..] == before[at + |a| + |b|..];
  }

  lemma OverlayFront(before: seq<byte>, bs: seq<byte>, n: nat)
    requires n <= |bs| <= |before|
    ensures Overlay(before, 0, bs)[..n] == bs[..n] && Overlay(before, 0, bs)[|bs|..] == before[|bs|..]
  {
  }

  lemma SectorsStep(dev: Device, lba: Word, n: nat)
    ensures Sectors(dev, lba, n + 1) == Sectors(dev, lba, n) + dev(Wrap(lba + n)) && Sectors(dev, lba, 0) == []
  {
  }

  // ---------------------------------------------------------------- the reader

  /** fat32_t, with the whole FAT in memory. */
  class Disk {
    const dev: Device
    const v: Volume
    const fat: array<byte>

    ghost predicate Valid()
      reads fat
    {
      fat[..] == FatBytes(dev, v) && fat.Length < TWO32 && 0 < v.spc
    }

    ghost function Table(): seq<byte> {
      FatBytes(dev, v)
    }

    /** fat_load_fat */
    constructor (dev: Device, v: Volume)
      requires v.fatSize * 512 < TWO32 && 0 < v.spc
      ensures Valid() && this.dev == dev && this.v == v && fresh(fat)
    {
      this.dev, this.v := dev, v;
      fat := new byte[v.fatSize * 512](_ => 0);
      new;
      var lba := Wrap(v.partition + v.reserved);
      for i := 0 to v.fatSize
        invariant fat[..i * 512] == Sectors(dev, lba, i)
      {
        ReadSector(Wrap(lba + i), fat, i * 512);
      }
    }

    /** The block device copies one sector into the buffer. */
    method ReadSector(lba: Word, buf: array<byte>, at: nat)
      requires at + SECTOR <= buf.Length
      modifies buf
      ensures buf[..] == Overlay(old(buf[..]), at, dev(lba))
    {
      for i := 0 to SECTOR
        invariant buf[..at] == old(buf[..at]) && buf[at..at + i] == dev(lba)[..i] && buf[at + i..] == old(buf[at + i..])
      {
        buf[at + i] := dev(lba)[i];
      }
    }

    /** fat_get_next; the offset is 32-bit. */
    method GetNext(c: nat) returns (next: nat)
      requires Valid() && InFat(Table(), c)
      ensures next == Next(Table(), c)
    {
      hide FatBytes, U32;
      assert 4 * c % TWO32 == 4 * c;
      next := Le32(fat, 4 * c % TWO32) % LINK_MASK;
    }

    /** `n` sectors one behind the other. */
    method ReadSectors(lba: Word, n: nat, out: array<byte>, dst: nat)
      requires out != fat && dst + n * 512 <= out.Length
      modifies out
      ensures out[..] == Overlay(old(out[..]), dst, Sectors(dev, lba, n))
    {
      hide Sectors, Overlay, Wrap, ClusterSize;
      ghost var before := out[..];
      SectorsStep(dev, lba, 0);
      OverlayNothing(before, dst);
      var at := dst;
      for s := 0 to n
        invariant at == dst + s * 512 && out[..] == Overlay(before, dst, Sectors(dev, lba, s))
      {
        SectorsStep(dev, lba, s);
        OverlayTwice(before, dst, Sectors(dev, lba, s), dev(Wrap(lba + s)));
        ReadSector(Wrap(lba + s), out, at);
        at := at + 512;
      }
    }

    /** One cluster at position `dst`. */
    method ReadCluster(c: nat, out: array<byte>, dst: nat)
      requires out != fat && dst + ClusterSize(v) <= out.Length
      modifies out
      ensures out[..] == Overlay(old(out[..]), dst, ClusterBytes(dev, v, c))
    {
      hide Sectors, Overlay, FirstSector;
      ReadSectors(FirstSector(v, c), v.spc, out, dst);
    }

    /** fat_read_file_clusters: the first `n` clusters of the chain, in order, and nothing behind them. */
    method ReadClusters(start: nat, out: array<byte>, n: nat, ghost chain: seq<nat>)
      requires Valid() && out != fat && IsChain(Table(), start, chain) && n <= |chain|
      requires Span(v, n) <= out.Length
      modifies out
      ensures Valid() && out[..] == Overlay(old(out[..]), 0, Flat(dev, v, chain[..n]))
    {
      hide Valid, Table, IsChain, Flat, Next, InFat, ClusterBytes, Overlay, Span, ClusterSize;
      if n > 0 { ChainNext(Table(), start, chain, 0); }
      SpanStep(v, 0, n);
      var c, i: nat, dst: nat := start, 0, 0;
      ghost var before := out[..];
      FlatNothing(dev, v, chain);
      OverlayNothing(before, 0);
      var bytes := ClusterSize(v);
      while i < n
        invariant Valid() && i <= n && dst == Span(v, i) <= Span(v, n) && (i < n ==> c == chain[i])
        invariant out[..] == Overlay(before, 0, Flat(dev, v, chain[..i]))
        decreases n - i
      {
        SpanStep(v, i, n);
        ChainNext(Table(), start, chain, i);
        FlatStep(dev, v, chain, i);
        OverlayTwice(before, 0, Flat(dev, v, chain[..i]), ClusterBytes(dev, v, c));
        ReadCluster(c, out, dst);
        i, dst := i + 1, dst + bytes;
        var next := GetNext(c);
        if next >= END_OF_CHAIN { break; }
        c := next;
      }
    }

    /** The first cluster of a chain, filling the buffer. */
    method ReadFirst(c: nat, buf: array<byte>, ghost chain: seq<nat>)
      requires Valid() && buf != fat && IsChain(Table(), c, chain) && buf.Length == ClusterSize(v)
      modifies buf
      ensures Valid() && buf[..] == ClusterBytes(dev, v, c)
    {
      assert chain[..1] == [c];
      FlatOne(dev, v, c);
      SpanStep(v, 0, 1);
      ReadClusters(c, buf, 1, chain);
    }

    /** Whole clusters into a new buffer; the text is its first `size` bytes. */
    method ReadText(start: nat, size: nat, needed: nat, ghost chain: seq<nat>) returns (text: string)
      requires Valid() && IsChain(Table(), start, chain) && needed <= |chain| && size <= Span(v, needed)
      ensures text == Text(Flat(dev, v, chain[..needed])[..size])
    {
      hide Valid, Table, IsChain, Flat, Text, Span, ClusterSize;
      var room := Span(v, needed);
      var buf := new byte[room + 1](_ => 0);
      assert buf[..] == seq(room + 1, _ => 0);
      ReadClusters(start, buf, needed, chain);
      OverlayFront(seq(room + 1, _ => 0), Flat(dev, v, chain[..needed]), size);
      text := Text(buf[..size]);
    }

    lemma HasClusters()
      requires Valid()
      ensures v.spc > 0
    {
    }

    /** As many clusters as the file's size needs. */
    method LoadFile(e: Ent, ghost chain: seq<nat>, ghost data: string) returns (text: string)
      requires Valid() && FileHolds(dev, v, Table(), e, chain, data) && Size(e) > 0
      ensures text == data
    {
      hide Valid, Table, FileHolds, IsChain, Flat, Text, Size, StartCluster, Span, Needed;
      FileFacts(dev, v, Table(), e, chain, data);
      assert ClusterSize(v) > 0 by { HasClusters(); }
      hide ClusterSize;
      var needed := Needed(Size(e), ClusterSize(v));
      NeededIs(v, Size(e), |chain|);
      FileText(dev, v, Table(), e, chain, data, needed);
      text := ReadText(StartCluster(e), Size(e), needed, chain);
    }
  }
}
