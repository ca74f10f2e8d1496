/** The volume's layout as the FAT32 specification gives it: boot sector fields, FATs, clusters, entries. */
module FatLayout {
  import opened Words
  import opened Bytes
  import opened Fat32

  // ---------------------------------------------------------------- the boot sector

  /** The fields written at the specification's offsets are the fields read; a 16-bit FAT size comes first. */
  lemma BootFields(b: Sector, partition: Word, bytesPerSector: nat, spc: byte, reserved: nat, numFats: byte,
                   fatSize16: nat, fatSize32: nat, root: nat)
    requires bytesPerSector < 0x1_0000 && reserved < 0x1_0000 && fatSize16 < 0x1_0000 && fatSize32 < TWO32 && root < TWO32
    requires At(b, 11, Enc(bytesPerSector, 2)) && At(b, 13, [spc]) && At(b, 14, Enc(reserved, 2)) && At(b, 16, [numFats])
    requires At(b, 22, Enc(fatSize16, 2)) && At(b, 36, Enc(fatSize32, 4)) && At(b, 44, Enc(root, 4))
    ensures BytesPerSector(b) == bytesPerSector
    ensures ParseBoot(b, partition) ==
            Volume(spc, reserved, numFats, if fatSize16 == 0 then fatSize32 else fatSize16, root, partition)
    ensures RootCluster(ParseBoot(b, partition)) == if root == 0 then 2 else root
  {
    hide Enc, Le;
    Limits();
    FieldAt(b, 11, bytesPerSector, 2);
    FieldAt(b, 14, reserved, 2);
    FieldAt(b, 22, fatSize16, 2);
    FieldAt(b, 36, fatSize32, 4);
    FieldAt(b, 44, root, 4);
    ByteAt(b, 13, spc);
    ByteAt(b, 16, numFats);
  }

  lemma ByteAt(b: seq<byte>, off: nat, v: byte)
    requires At(b, off, [v])
    ensures off < |b| && b[off] == v
  {
    assert b[off..off + 1][0] == v;
  }

  // ---------------------------------------------------------------- FATs and clusters

  /** The first sector of the `i`th FAT, `i` from 0. */
  function FatStart(v: Volume, i: nat): nat {
    v.partition + v.reserved + i * v.fatSize
  }

  lemma FatStep(v: Volume, i: nat)
    requires i < v.numFats
    ensures FatStart(v, i) + v.fatSize == FatStart(v, i + 1) <= FatStart(v, v.numFats)
  {
    OneMore(i, v.fatSize);
    Monotone(i + 1, v.numFats, v.fatSize);
  }

  /** Every FAT ends where the next begins, and cluster 2 begins exactly where the last one ends. */
  lemma FatsBehindEachOther(v: Volume, i: nat)
    requires i < v.numFats && FatStart(v, v.numFats) < TWO64
    ensures v.partition + v.reserved <= FatStart(v, i) && FatStart(v, i) + v.fatSize <= FirstSector(v, 2)
    ensures i + 1 < v.numFats ==> FatStart(v, i) + v.fatSize == FatStart(v, i + 1)
    ensures i + 1 == v.numFats ==> FatStart(v, i) + v.fatSize == FirstSector(v, 2)
  {
    FatStep(v, i);
    FirstCluster(v);
  }

  lemma FirstCluster(v: Volume)
    requires FatStart(v, v.numFats) < TWO64
    ensures FirstSector(v, 2) == FatStart(v, v.numFats)
  {
  }

  /** `n` sectors read one after the other, byte by byte. */
  lemma {:induction false} SectorsAt(dev: Device, lba: Word, n: nat, k: nat)
    requires k < n * 512 && lba + n <= TWO64
    ensures Sectors(dev, lba, n)[k] == dev(lba + k / 512)[k % 512]
    decreases n
  {
    if k < (n - 1) * 512 {
      SectorsAt(dev, lba, n - 1, k);
    } else {
      QuotRem(k, n - 1, k - (n - 1) * 512, 512);
    }
  }

  /** The FAT in memory is the volume's first one. */
  lemma FatIsFirst(dev: Device, v: Volume, k: nat)
    requires k < v.fatSize * 512 && FatStart(v, 1) <= TWO64 && FatStart(v, 0) < TWO64
    ensures FatBytes(dev, v)[k] == dev(FatStart(v, 0) + k / 512)[k % 512]
  {
    SectorsAt(dev, FatStart(v, 0), v.fatSize, k);
  }

  /** Where cluster `c` lies, counted from the last FAT. */
  function ClusterStart(v: Volume, c: nat): nat
    requires 2 <= c
  {
    FatStart(v, v.numFats) + (c - 2) * v.spc
  }

  lemma FirstSectorExact(v: Volume, c: nat)
    requires 2 <= c < TWO32 && ClusterStart(v, c) < TWO64
    ensures FirstSector(v, c) == ClusterStart(v, c)
  {
    FirstSectorIs(v, c);
  }

  /** The bytes of a cluster are those of its sectors, in order. */
  lemma ClusterAt(dev: Device, v: Volume, c: nat, k: nat)
    requires 2 <= c < TWO32 && k < ClusterSize(v) && ClusterStart(v, c) + v.spc <= TWO64
    ensures ClusterStart(v, c) + k / 512 < TWO64
    ensures ClusterBytes(dev, v, c)[k] == dev(ClusterStart(v, c) + k / 512)[k % 512]
  {
    FirstSectorExact(v, c);
    hide FirstSector, ClusterStart, Sectors;
    SectorsAt(dev, FirstSector(v, c), v.spc, k);
  }

  /** The bytes of a chain are those of its clusters, in order. */
  lemma {:induction false} FlatAt(dev: Device, v: Volume, chain: seq<nat>, i: nat, k: nat)
    requires i < |chain| && k < ClusterSize(v)
    ensures i * ClusterSize(v) + k < |Flat(dev, v, chain)|
    ensures Flat(dev, v, chain)[i * ClusterSize(v) + k] == ClusterBytes(dev, v, chain[i])[k]
    decreases |chain|
  {
    hide ClusterBytes, ClusterSize;
    var n := |chain| - 1;
    OneMore(i, ClusterSize(v));
    Monotone(i + 1, |chain|, ClusterSize(v));
    if i < n {
      FlatAt(dev, v, chain[..n], i, k);
    }
  }

  /** The FAT entry of a cluster is the low 28 bits of its 32-bit word. */
  lemma LinkAt(fat: seq<byte>, c: nat, reservedBits: nat, link: nat)
    requires reservedBits < 16 && link < 0x1000_0000 && At(fat, 4 * c, Enc(reservedBits * 0x1000_0000 + link, 4))
    ensures 4 * c + 4 <= |fat| && Next(fat, c) == link
  {
    hide Enc, Le;
    Limits();
    FieldAt(fat, 4 * c, reservedBits * 0x1000_0000 + link, 4);
  }

  // ---------------------------------------------------------------- directory entries

  /** What the first byte and the attribute byte make of an entry. */
  lemma EntryCases(e: Ent, rest: seq<byte>)
    ensures e[0] == 0x00 ==> Live(e + rest) == []
    ensures e[0] == 0xE5 ==> Live(e + rest) == Live(rest)
    ensures e[0] != 0x00 && e[11] == 0x0F ==> Live(e + rest) == Live(rest)
    ensures e[0] != 0x00 && e[0] != 0xE5 && e[11] != 0x0F ==> Live(e + rest) == [e] + Live(rest)
  {
    assert (e + rest)[..32] == e && (e + rest)[32..] == rest;
  }

  /** A directory's entries are those of its clusters, one after the other. */
  lemma {:induction false} ListedInOrder(dev: Device, v: Volume, a: seq<nat>, b: seq<nat>)
    ensures Listed(dev, v, a + b) == Listed(dev, v, a) + Listed(dev, v, b)
    ensures a == [] ==> Listed(dev, v, a) == []
    ensures |a| == 1 ==> Listed(dev, v, a) == Live(ClusterBytes(dev, v, a[0]))
    decreases |a|
  {
    hide Live, ClusterBytes;
    if a == [] {
      assert a + b == b;
    } else {
      assert (a + b)[1..] == a[1..] + b;
      ListedInOrder(dev, v, a[1..], b);
    }
  }

  /** The two parts of a name keep their bytes in order and lose every space, in the middle too. */
  lemma {:induction false} SpacesVanish(a: seq<byte>, b: seq<byte>)
    ensures Trimmed(a + b) == Trimmed(a) + Trimmed(b)
    ensures |a| == 1 ==> Trimmed(a) == if a[0] == 0x20 then "" else [a[0] as char]
    decreases |b|
  {
    if b == [] {
      assert a + b == a;
    } else {
      assert (a + b)[..|a + b| - 1] == a + b[..|b| - 1];
      SpacesVanish(a, b[..|b| - 1]);
    }
    if |a| == 1 { assert a[..0] == []; }
  }

  /** Bit 4 of the attribute byte marks a directory. */
  lemma DirectoryBit(e: Ent, high: nat, bit: nat, low: nat)
    requires e[11] == high * 32 + bit * 16 + low && bit < 2 && low < 16
    ensures IsDir(e) <==> bit == 1
  {
    QuotRem(e[11], high * 2 + bit, low, 16);
  }
}
