/** A FAT32 volume: its sectors, cluster chains and directories, as the finite tree of files it holds. */
module Fat32 {
  import opened Words
  import opened Bytes

  const SECTOR: nat := 512
  const ENTRY: nat := 32
  const SPACE: byte := 0x20
  const LINK_MASK: nat := 0x1000_0000
  const END_OF_CHAIN: nat := 0x0FFF_FFF8

  type Sector = s: seq<byte> | |s| == 512 witness seq(512, _ => 0)

  /** Reading a sector always succeeds. */
  type Device = Word -> Sector

  datatype Volume = Volume(
    spc: nat, reserved: nat, numFats: nat, fatSize: nat, rootCluster: nat, partition: Word)

  // ---------------------------------------------------------------- the boot sector

  function BytesPerSector(b: Sector): nat {
    U16(b, 11)
  }

  function ParseBoot(b: Sector, partition: Word): Volume {
    var fat16 := U16(b, 22);
    Volume(b[13], U16(b, 14), b[16], if fat16 != 0 then fat16 else U32(b, 36), U32(b, 44), partition)
  }

  /** A missing root cluster number means 2. */
  function RootCluster(v: Volume): nat {
    if v.rootCluster == 0 then 2 else v.rootCluster
  }

  /** The partition holds the tree `d`. */
  ghost predicate WellFormed(dev: Device, partition: Word, d: Directory) {
    var v := ParseBoot(dev(partition), partition);
    && BytesPerSector(dev(partition)) == SECTOR && v.spc > 0 && v.fatSize * SECTOR < TWO32
    && DirHolds(dev, v, FatBytes(dev, v), RootCluster(v), d)
  }

  // ---------------------------------------------------------------- sectors and chains

  /** `n` sectors one after the other. */
  function Sectors(dev: Device, lba: Word, n: nat): (bs: seq<byte>)
    ensures |bs| == n * 512
  {
    if n == 0 then [] else Sectors(dev, lba, n - 1) + dev(Wrap(lba + n - 1))
  }

  /** `cluster - 2` is 32-bit arithmetic, the rest 64-bit. */
  function FirstSector(v: Volume, c: nat): Word {
    Wrap(DataStart(v) + (c - 2) % TWO32 * v.spc)
  }

  function DataStart(v: Volume): nat {
    v.partition + v.reserved + v.numFats * v.fatSize
  }

  function ClusterSize(v: Volume): nat {
    v.spc * 512
  }

  /** The size of `n` clusters. */
  function Span(v: Volume, n: nat): nat {
    n * ClusterSize(v)
  }

  lemma OneMore(a: nat, k: nat)
    ensures (a + 1) * k == a * k + k
  {
  }

  function ClusterBytes(dev: Device, v: Volume, c: nat): (bs: seq<byte>)
    ensures |bs| == ClusterSize(v)
  {
    Sectors(dev, FirstSector(v, c), v.spc)
  }

  function FatBytes(dev: Device, v: Volume): seq<byte> {
    Sectors(dev, Wrap(v.partition + v.reserved), v.fatSize)
  }

  predicate InFat(fat: seq<byte>, c: nat) {
    2 <= c && 4 * c + 4 <= |fat|
  }

  function Next(fat: seq<byte>, c: nat): nat
    requires 4 * c + 4 <= |fat|
  {
    U32(fat, 4 * c) % LINK_MASK
  }

  /** The clusters from `c` to the end mark, a finite list: the chain does not run in a circle. */
  predicate IsChain(fat: seq<byte>, c: nat, chain: seq<nat>) {
    && chain != [] && chain[0] == c
    && (forall i :: 0 <= i < |chain| ==> InFat(fat, chain[i]))
    && (forall i {:trigger Next(fat, chain[i])} :: 0 <= i < |chain| - 1 ==> Next(fat, chain[i]) == chain[i + 1] < END_OF_CHAIN)
    && Next(fat, chain[|chain| - 1]) >= END_OF_CHAIN
  }

  /** The contents of clusters, in order. */
  function Flat(dev: Device, v: Volume, chain: seq<nat>): (bs: seq<byte>)
    ensures |bs| == Span(v, |chain|)
  {
    if chain == [] then []
    else
      OneMore(|chain| - 1, ClusterSize(v));
      Flat(dev, v, chain[..|chain| - 1]) + ClusterBytes(dev, v, chain[|chain| - 1])
  }

  // ---------------------------------------------------------------- directory entries

  type Ent = e: seq<byte> | |e| == 32 witness seq(32, _ => 0)

  /** Deleted, or part of a long name. */
  predicate Skipped(e: Ent) {
    e[0] == 0xE5 || e[11] == 0x0F
  }

  /** The live entries of one cluster, up to the first that begins with 0. */
  function Live(bs: seq<byte>): seq<Ent> {
    if |bs| < ENTRY || bs[0] == 0 then []
    else (if Skipped(bs[..ENTRY]) then [] else [bs[..ENTRY]]) + Live(bs[ENTRY..])
  }

  /** The live entries of a directory; a 0 ends only its own cluster. */
  function Listed(dev: Device, v: Volume, chain: seq<nat>): seq<Ent> {
    if chain == [] then [] else Live(ClusterBytes(dev, v, chain[0])) + Listed(dev, v, chain[1..])
  }

  predicate IsDir(e: Ent) {
    e[11] / 16 % 2 == 1
  }

  function Text(bs: seq<byte>): (s: string)
    ensures |s| == |bs| && forall i :: 0 <= i < |bs| ==> s[i] == bs[i] as char
  {
    seq(|bs|, i requires 0 <= i < |bs| => bs[i] as char)
  }

  function Trimmed(bs: seq<byte>): (s: string)
    ensures |s| <= |bs|
  {
    if bs == [] then "" else Trimmed(bs[..|bs| - 1]) + if bs[|bs| - 1] == SPACE then "" else [bs[|bs| - 1] as char]
  }

  /** The 8.3 name with its dot. */
  function ShortName(e: Ent): (s: string)
    ensures |s| <= 12
  {
    Trimmed(e[..8]) + if e[8] == SPACE then "" else "." + Trimmed(e[8..11])
  }

  function StartCluster(e: Ent): nat {
    U16(e, 20) * 0x1_0000 + U16(e, 26)
  }

  function Size(e: Ent): nat {
    U32(e, 28)
  }

  // ---------------------------------------------------------------- the tree on the volume

  datatype Item =
    | Leaf(name: string, chain: seq<nat>, data: string)
    | Folder(name: string, sub: Directory)

  datatype Directory = Directory(chain: seq<nat>, items: seq<Item>)

  /** A file is the first Size bytes of its clusters, of which there are enough. */
  predicate FileHolds(dev: Device, v: Volume, fat: seq<byte>, e: Ent, chain: seq<nat>, data: string) {
    if Size(e) == 0 then data == ""
    else
      && IsChain(fat, StartCluster(e), chain) && Size(e) <= Span(v, |chain|)
      && Size(e) + ClusterSize(v) <= TWO32
      && data == Text(Flat(dev, v, chain)[..Size(e)])
  }

  ghost predicate ItemHolds(dev: Device, v: Volume, fat: seq<byte>, e: Ent, item: Item)
    decreases item
  {
    match item
    case Leaf(name, chain, data) => !IsDir(e) && name == ShortName(e) && FileHolds(dev, v, fat, e, chain, data)
    case Folder(name, sub) =>
      && IsDir(e) && name == ShortName(e)
      && if StartCluster(e) == 0 then sub == Directory([], []) else DirHolds(dev, v, fat, StartCluster(e), sub)
  }

  /** The directory at cluster `c` is `d`: a finite tree, so directories do not contain themselves. */
  ghost predicate DirHolds(dev: Device, v: Volume, fat: seq<byte>, c: nat, d: Directory)
    decreases d
  {
    && IsChain(fat, c, d.chain)
    && |Listed(dev, v, d.chain)| == |d.items|
    && forall i :: 0 <= i < |d.items| ==> ItemHolds(dev, v, fat, Listed(dev, v, d.chain)[i], d.items[i])
  }

  // ---------------------------------------------------------------- the layout against the standard

  /** How far behind the start of the data a cluster lies. */
  function ClusterOffset(v: Volume, c: nat): nat
    requires 2 <= c
  {
    (c - 2) * v.spc
  }

  lemma OffsetsApart(v: Volume, c: nat, d: nat)
    requires 2 <= c < d
    ensures ClusterOffset(v, 2) == 0 && ClusterOffset(v, c) + v.spc <= ClusterOffset(v, d)
  {
    OneMore(c - 2, v.spc);
    Monotone(c - 1, d - 2, v.spc);
  }

  lemma FirstSectorIs(v: Volume, c: nat)
    requires 2 <= c < TWO32 && DataStart(v) + ClusterOffset(v, c) < TWO64
    ensures FirstSector(v, c) == DataStart(v) + ClusterOffset(v, c)
  {
    hide DataStart;
    assert (c - 2) % TWO32 == c - 2;
  }

  /** Clusters lie in the data region behind the reserved sectors and the FATs, in order and without overlap. */
  lemma ClustersApart(v: Volume, c: nat, d: nat)
    requires 2 <= c < d < TWO32 && DataStart(v) + ClusterOffset(v, d) < TWO64
    ensures DataStart(v) == FirstSector(v, 2) <= FirstSector(v, c)
    ensures FirstSector(v, c) + v.spc <= FirstSector(v, d)
  {
    hide DataStart, FirstSector, ClusterOffset;
    OffsetsApart(v, c, d);
    FirstSectorIs(v, 2);
    FirstSectorIs(v, c);
    FirstSectorIs(v, d);
  }

  function Spaces(n: nat): seq<byte> {
    seq(n, _ => SPACE)
  }

  lemma {:induction false} TrimmedIs(letters: seq<byte>, pad: seq<byte>)
    requires (forall i :: 0 <= i < |letters| ==> letters[i] != SPACE) && (forall i :: 0 <= i < |pad| ==> pad[i] == SPACE)
    ensures Trimmed(letters + pad) == Text(letters)
    decreases |letters| + |pad|
  {
    var all := letters + pad;
    var n := |all| - 1;
    if pad != [] {
      assert all[..n] == letters + pad[..|pad| - 1];
      TrimmedIs(letters, pad[..|pad| - 1]);
    } else if letters != [] {
      assert all[..n] == letters[..n] + [];
      TrimmedIs(letters[..n], []);
      assert Text(letters) == Text(letters[..n]) + [letters[n] as char];
    } else {
      assert all == [];
    }
  }

  /** A name and extension padded with spaces to 8 and 3 bytes, as the standard stores them, are read back with the dot. */
  lemma ShortNameRoundTrip(stem: seq<byte>, ext: seq<byte>, e: Ent)
    requires |stem| <= 8 && |ext| <= 3
    requires (forall i :: 0 <= i < |stem| ==> stem[i] != SPACE) && (forall i :: 0 <= i < |ext| ==> ext[i] != SPACE)
    requires e[..8] == stem + Spaces(8 - |stem|) && e[8..11] == ext + Spaces(3 - |ext|)
    ensures ShortName(e) == if ext == [] then Text(stem) else Text(stem) + "." + Text(ext)
  {
    TrimmedIs(stem, Spaces(8 - |stem|));
    TrimmedIs(ext, Spaces(3 - |ext|));
    assert e[8] == e[8..11][0] == (ext + Spaces(3 - |ext|))[0];
  }

  /** The numbers written at the standard's offsets are the numbers read. */
  lemma EntryNumbers(e: Ent, high: nat, low: nat, size: nat)
    requires high < 0x1_0000 && low < 0x1_0000 && size < TWO32
    requires At(e, 20, Enc(high, 2)) && At(e, 26, Enc(low, 2)) && At(e, 28, Enc(size, 4))
    ensures StartCluster(e) == high * 0x1_0000 + low && Size(e) == size
  {
    Limits();
    FieldAt(e, 20, high, 2);
    FieldAt(e, 26, low, 2);
    FieldAt(e, 28, size, 4);
  }

  // ---------------------------------------------------------------- chains are determined

  lemma {:induction false} SameLink(fat: seq<byte>, c: nat, a: seq<nat>, b: seq<nat>, i: nat)
    requires IsChain(fat, c, a) && IsChain(fat, c, b) && i < |a| && i < |b|
    ensures a[i] == b[i]
    decreases i
  {
    if i > 0 {
      SameLink(fat, c, a, b, i - 1);
      assert Next(fat, a[i - 1]) == a[i] && Next(fat, b[i - 1]) == b[i];
    }
  }

  /** The FAT determines a chain. */
  lemma ChainUnique(fat: seq<byte>, c: nat, a: seq<nat>, b: seq<nat>)
    requires IsChain(fat, c, a) && IsChain(fat, c, b)
    ensures a == b
  {
    forall i | 0 <= i < |a| && i < |b|
      ensures a[i] == b[i]
    {
      SameLink(fat, c, a, b, i);
    }
    assert |a| == |b|;
  }
}
