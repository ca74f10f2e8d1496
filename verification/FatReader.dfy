/** The FAT32 reader's walk over directories, against the volume's tree and its image in the filesystem. */
module FatReader {
  import opened Words
  import opened Bytes
  import opened Strings
  import opened Vfs
  import opened VfsTree
  import opened Fat32
  import opened FatTree
  import opened FatDisk
  import opened FatNames
  import FatPaths

  /** The filesystem is in order and `id` is an address beyond all its nodes. */
  ghost predicate Ready(files: Filesystem, id: Id)
    reads files
  {
    files.Valid() && Fresh(files.model, id) && id != 0
  }

  lemma RootOf(files: Filesystem, id: Id)
    requires Ready(files, id)
    ensures files.root in files.mem && files.root != 0 && files.root == files.model.root
  {
    files.RootHere();
  }

  lemma PopulateNone(fs: Fs, next: Id, path: string, items: seq<Item>)
    ensures Populate(fs, next, path, items[..0]) == (fs, next)
  {
  }

  lemma StartOf(fat: seq<byte>, c: nat, chain: seq<nat>, es: seq<Ent>)
    requires IsChain(fat, c, chain)
    ensures |chain| > 0 && chain[0] == c && chain[0..] == chain && es[0..] == es
  {
  }

  lemma AllDone(dev: Device, v: Volume, d: Directory, i: nat)
    requires |Listed(dev, v, d.chain)| == |d.items|
    requires i <= |d.items| && Listed(dev, v, d.chain)[i..] == Listed(dev, v, d.chain[|d.chain|..])
    ensures i == |d.items| && d.items[..i] == d.items
  {
    assert d.chain[|d.chain|..] == [];
  }

  lemma EntryHolds(dev: Device, v: Volume, fat: seq<byte>, c: nat, d: Directory, i: nat)
    requires DirHolds(dev, v, fat, c, d) && i < |Listed(dev, v, d.chain)|
    ensures i < |d.items| && ItemHolds(dev, v, fat, Listed(dev, v, d.chain)[i], d.items[i])
  {
  }

  lemma LiveNothing(bs: seq<byte>, behind: seq<Ent>)
    requires |bs| < ENTRY
    ensures Live(bs) + behind == behind
  {
  }

  /** What the entry at `off` contributes. */
  lemma LiveCases(bytes: seq<byte>, off: nat, e: Ent, behind: seq<Ent>)
    requires off + ENTRY <= |bytes| && bytes[off..off + ENTRY] == e
    ensures var here, later := Live(bytes[off..]) + behind, Live(bytes[off + ENTRY..]) + behind;
            here == if e[0] == 0 then behind else if Skipped(e) then later else [e] + later
  {
    assert bytes[off..][..ENTRY] == e && bytes[off..][ENTRY..] == bytes[off + ENTRY..];
  }

  lemma ListedStep(dev: Device, v: Volume, chain: seq<nat>, k: nat)
    requires k < |chain|
    ensures Listed(dev, v, chain[k..]) == Live(ClusterBytes(dev, v, chain[k])) + Listed(dev, v, chain[k + 1..])
  {
    assert chain[k..][1..] == chain[k + 1..];
  }

  lemma TakeEntry(es: seq<Ent>, i: nat, e: Ent, rest: seq<Ent>)
    requires i <= |es| && es[i..] == [e] + rest
    ensures i < |es| && es[i] == e && es[i + 1..] == rest
  {
    assert es[i..][0] == e && es[i..][1..] == rest;
  }

  lemma PopulateNext(fs: Fs, next: Id, path: string, items: seq<Item>, i: nat)
    requires i < |items|
    ensures var (fs1, next1) := Populate(fs, next, path, items[..i]);
            Populate(fs, next, path, items[..i + 1]) == PopulateItem(fs1, next1, path, items[i])
  {
    assert items[..i + 1][..i] == items[..i];
    PopulateLast(fs, next, path, items[..i + 1]);
  }

  lemma FitsAt(items: seq<Item>, len: nat, depth: nat, i: nat)
    requires Fits(items, len, depth) && i < |items|
    ensures ItemFits(items[i], len, depth)
  {
  }

  lemma CreateFreshAny(fs: Fs, p: string, isDir: bool, start: Id, id: Id)
    requires Fresh(fs, id)
    ensures Fresh(Create(fs, p, isDir, start, id).0, id + 1)
  {
    hide Resolve, FindChild;
  }

  lemma WriteFresh(fs: Fs, p: string, data: string, start: Id, id: Id)
    requires Fresh(fs, id)
    ensures Fresh(WriteFile(fs, p, data, start, id).0, id + 1)
  {
    CreateFreshAny(fs, p, false, start, id);
    hide Create;
  }

  method CreateFolder(files: Filesystem, full: CString, next: Id)
    requires Ready(files, next)
    modifies files`mem, files`model
    ensures Ready(files, next + 1) && files.model == Create(old(files.model), full, true, files.root, next).0
  {
    RootOf(files, next);
    CreateFreshAny(files.model, full, true, files.root, next);
    hide files.Valid, Create, Fresh;
    var dir := files.Create(full, true, files.root, next);
  }

  /** vfs_create for a directory entry and, unless it names no cluster, its entries in turn. */
  method MakeFolder(disk: Disk, files: Filesystem, e: Ent, full: CString, ghost sub: Directory, ghost depth: nat, next: Id) returns (next': Id)
    requires disk.Valid() && Ready(files, next)
    requires if StartCluster(e) == 0 then sub == Directory([], []) else DirOk(disk, StartCluster(e), full, sub, depth)
    modifies files`mem, files`model
    ensures Ready(files, next') && next < next'
    ensures (files.model, next') == Populate(Create(old(files.model), full, true, files.root, next).0, next + 1, full, sub.items)
    decreases sub, 3
  {
    hide Ready, DirOk, Create;
    CreateFolder(files, full, next);
    if StartCluster(e) == 0 { return next + 1; }
    hide Populate;
    next' := ProcessDirectory(disk, files, StartCluster(e), full, sub, depth, next + 1);
  }

  method MakeFile(disk: Disk, files: Filesystem, e: Ent, full: CString, ghost chain: seq<nat>, ghost data: string, next: Id) returns (next': Id)
    requires disk.Valid() && Ready(files, next) && FileHolds(disk.dev, disk.v, disk.Table(), e, chain, data)
    modifies files`mem, files`model
    ensures Ready(files, next') && next < next'
    ensures (files.model, next') == (WriteFile(old(files.model), full, data, files.root, next).0, next + 1)
  {
    RootOf(files, next);
    WriteFresh(files.model, full, data, files.root, next);
    hide files.Valid, WriteFile, Fresh;
    var text := "";
    if Size(e) != 0 { text := disk.LoadFile(e, chain, data); }
    var r := files.WriteFile(full, text, files.root, next);
    next' := next + 1;
  }

  lemma FolderOk(disk: Disk, e: Ent, full: string, sub: Directory, depth: nat)
    requires disk.Valid() && full != "" && full[|full| - 1] != '/' && Fits(sub.items, |full|, depth)
    requires if StartCluster(e) == 0 then sub == Directory([], []) else DirHolds(disk.dev, disk.v, disk.Table(), StartCluster(e), sub)
    ensures StartCluster(e) != 0 ==> DirOk(disk, StartCluster(e), full, sub, depth)
  {
    hide DirHolds, Fits;
  }

  lemma EntryIs(disk: Disk, e: Ent, item: Item)
    requires disk.Valid() && ItemHolds(disk.dev, disk.v, disk.Table(), e, item)
    ensures item.name == ShortName(e) && (IsDir(e) <==> item.Folder?)
    ensures item.Leaf? ==> FileHolds(disk.dev, disk.v, disk.Table(), e, item.chain, item.data)
    ensures item.Folder? ==>
              if StartCluster(e) == 0 then item.sub == Directory([], [])
              else DirHolds(disk.dev, disk.v, disk.Table(), StartCluster(e), item.sub)
  {
    hide DirHolds, FileHolds, ShortName;
  }

  /** The entry's path: room for it, and what a folder's own entries may need. */
  lemma ItemRoom(item: Item, path: string, depth: nat)
    requires ItemFits(item, |path|, depth) && path != "" && path[|path| - 1] != '/'
    ensures NUL !in item.name && |path| + 1 + |item.name| < 256
    ensures var full := FullName(path, item.name);
            && full != "" && full[|full| - 1] != '/' && (item.Folder? ==> Fits(item.sub.items, |full|, depth + 1))
  {
    FullNameParts(path, item.name);
    hide Fits;
  }

  lemma PopulateItemIs(files: Filesystem, next: Id, path: string, item: Item)
    requires Ready(files, next)
    ensures PopulateItem(files.model, next, path, item) ==
            match item
            case Leaf(name, _, data) => (WriteFile(files.model, FullName(path, name), data, files.root, next).0, next + 1)
            case Folder(name, sub) =>
              Populate(Create(files.model, FullName(path, name), true, files.root, next).0, next + 1, FullName(path, name), sub.items)
  {
    RootOf(files, next);
  }

  /** One live entry. */
  method ProcessEntry(disk: Disk, files: Filesystem, e: Ent, path: CString, ghost item: Item, ghost depth: nat, next: Id) returns (next': Id)
    requires disk.Valid() && Ready(files, next)
    requires ItemHolds(disk.dev, disk.v, disk.Table(), e, item) && ItemFits(item, |path|, depth) && path != "" && path[|path| - 1] != '/'
    modifies files`mem, files`model
    ensures Ready(files, next') && next < next'
    ensures (files.model, next') == PopulateItem(old(files.model), next, path, item)
    decreases item
  {
    hide FullName, Ready, DirHolds, Fits, ItemFits, FileHolds, ItemHolds, Populate, PopulateItem, DirOk, IsDir, ShortName, disk.Valid, disk.Table;
    EntryIs(disk, e, item);
    ItemRoom(item, path, depth);
    PopulateItemIs(files, next, path, item);
    var name := new char[32](_ => NUL);
    var pos := DecodeName(e, name);
    var full := BuildPath(path, name, item.name);
    if IsDir(e) {
      FolderOk(disk, e, full, item.sub, depth + 1);
      next' := MakeFolder(disk, files, e, full, item.sub, depth + 1, next);
    } else {
      next' := MakeFile(disk, files, e, full, item.chain, item.data, next);
    }
  }

  /** The directory is the one at this cluster, and its names fit the path. */
  ghost predicate DirOk(disk: Disk, cluster: nat, path: string, d: Directory, depth: nat)
    reads disk.fat
  {
    && disk.Valid() && DirHolds(disk.dev, disk.v, disk.Table(), cluster, d) && Fits(d.items, |path|, depth)
    && path != "" && path[|path| - 1] != '/'
  }

  /** `i` entries of the directory are done. */
  ghost predicate Progress(files: Filesystem, next: Id, m0: Fs, first: Id, path: string, d: Directory, i: nat)
    reads files
  {
    Ready(files, next) && first <= next && i <= |d.items| && (files.model, next) == Populate(m0, first, path, d.items[..i])
  }

  /** `rest` is what comes behind the first `i` entries. */
  ghost predicate Left(disk: Disk, d: Directory, i: nat, rest: seq<Ent>) {
    i <= |Listed(disk.dev, disk.v, d.chain)| && Listed(disk.dev, disk.v, d.chain)[i..] == rest
  }

  /** The next entry of a directory. */
  method NextEntry(disk: Disk, files: Filesystem, e: Ent, path: CString, ghost cluster: nat, ghost d: Directory, ghost depth: nat, next: Id,
                   ghost i: nat, ghost rest: seq<Ent>, ghost m0: Fs, ghost first: Id)
    returns (next': Id)
    requires DirOk(disk, cluster, path, d, depth) && Progress(files, next, m0, first, path, d, i) && Left(disk, d, i, [e] + rest)
    modifies files`mem, files`model
    ensures Progress(files, next', m0, first, path, d, i + 1) && Left(disk, d, i + 1, rest)
    decreases d, 0
  {
    hide Ready, DirHolds, ItemHolds, Fits, ItemFits, Populate, PopulateItem, Listed;
    TakeEntry(Listed(disk.dev, disk.v, d.chain), i, e, rest);
    EntryHolds(disk.dev, disk.v, disk.Table(), cluster, d, i);
    PopulateNext(m0, first, path, d.items, i);
    FitsAt(d.items, |path|, depth, i);
    next' := ProcessEntry(disk, files, e, path, d.items[i], depth, next);
  }

  /** fat_process_directory */
  method ProcessDirectory(disk: Disk, files: Filesystem, cluster: nat, path: CString, ghost d: Directory, ghost depth: nat, next: Id) returns (next': Id)
    requires DirOk(disk, cluster, path, d, depth) && Ready(files, next)
    modifies files`mem, files`model
    ensures Ready(files, next') && next <= next'
    ensures (files.model, next') == Populate(old(files.model), next, path, d.items)
    decreases d, 2
  {
    ghost var m0, chain := files.model, d.chain;
    PopulateNone(m0, next, path, d.items);
    hide Ready, Populate, Listed, IsChain, DirOk;
    Opened(disk, cluster, path, d, depth);
    StartOf(disk.Table(), cluster, chain, Listed(disk.dev, disk.v, chain));
    ghost var k, i: nat := 0, 0;
    var buf := new byte[ClusterSize(disk.v)](_ => 0);
    var c := cluster;
    next' := next;
    while true
      invariant DirOk(disk, cluster, path, d, depth) && Progress(files, next', m0, next, path, d, i)
      invariant k < |chain| && c == chain[k] && Left(disk, d, i, Listed(disk.dev, disk.v, chain[k..]))
      decreases |chain| - k
    {
      Opened(disk, cluster, path, d, depth);
      ChainSuffix(disk.Table(), cluster, chain, k);
      ChainNext(disk.Table(), cluster, chain, k);
      hide Progress, Left;
      disk.ReadFirst(c, buf, chain[k..]);
      i, next' := ProcessCluster(disk, files, buf, path, cluster, d, depth, next', k, i, m0, next);
      var link := disk.GetNext(c);
      if link >= END_OF_CHAIN { break; }
      c, k := link, k + 1;
    }
    Opened(disk, cluster, path, d, depth);
    AllDone(disk.dev, disk.v, d, i);
  }

  lemma Opened(disk: Disk, cluster: nat, path: string, d: Directory, depth: nat)
    requires DirOk(disk, cluster, path, d, depth)
    ensures disk.Valid() && IsChain(disk.Table(), cluster, d.chain) && |Listed(disk.dev, disk.v, d.chain)| == |d.items|
  {
  }

  /** The entries of the cluster in the buffer, up to the first that begins with 0. */
  method ProcessCluster(disk: Disk, files: Filesystem, buf: array<byte>, path: CString, ghost cluster: nat, ghost d: Directory, ghost depth: nat,
                        start: Id, ghost k: nat, ghost from: nat, ghost m0: Fs, ghost first: Id)
    returns (ghost i: nat, next: Id)
    requires DirOk(disk, cluster, path, d, depth) && Progress(files, start, m0, first, path, d, from)
    requires k < |d.chain| && buf[..] == ClusterBytes(disk.dev, disk.v, d.chain[k]) && Left(disk, d, from, Listed(disk.dev, disk.v, d.chain[k..]))
    modifies files`mem, files`model
    ensures Progress(files, next, m0, first, path, d, i) && Left(disk, d, i, Listed(disk.dev, disk.v, d.chain[k + 1..]))
    decreases d, 1
  {
    hide DirOk, Progress, Left, Listed, ClusterBytes, Live;
    ghost var behind, bytes := Listed(disk.dev, disk.v, d.chain[k + 1..]), buf[..];
    ListedStep(disk.dev, disk.v, d.chain, k);
    i, next := from, start;
    var off: nat := 0;
    assert bytes[0..] == bytes;
    while off + ENTRY <= buf.Length
      invariant off <= buf.Length && buf[..] == bytes && Left(disk, d, i, Live(bytes[off..]) + behind)
      invariant DirOk(disk, cluster, path, d, depth) && Progress(files, next, m0, first, path, d, i)
      decreases buf.Length - off
    {
      var e: Ent := buf[off..off + ENTRY];
      LiveCases(bytes, off, e, behind);
      if e[0] == 0 { return; }
      if !Skipped(e) {
        next := NextEntry(disk, files, e, path, cluster, d, depth, next, i, Live(bytes[off + ENTRY..]) + behind, m0, first);
        i := i + 1;
      }
      off := off + ENTRY;
    }
    LiveNothing(bytes[off..], behind);
  }

  predicate NoGeometry(b: Sector) {
    BytesPerSector(b) == 0 || b[13] == 0
  }

  /** fat32_mount_partition */
  method MountPartition(dev: Device, partition: Word, files: Filesystem, mount: CString, ghost d: Directory, ghost depth: nat, next: Id)
    returns (code: int, next': Id)
    requires Ready(files, next)
    requires NoGeometry(dev(partition)) || (WellFormed(dev, partition, d) && Fits(d.items, |mount|, depth))
    requires mount != "" && mount[|mount| - 1] != '/'
    modifies files`mem, files`model
    ensures Ready(files, next') && code == if NoGeometry(dev(partition)) then -3 else 0
    ensures (files.model, next') ==
            if code == 0 then FatPaths.Mount(old(files.model), next, mount, d.items) else (old(files.model), next)
  {
    hide Ready, Fits, DirHolds, Create, Populate, FatBytes;
    RootOf(files, next);
    var boot := dev(partition);
    var v := ParseBoot(boot, partition);
    if BytesPerSector(boot) == 0 || v.spc == 0 { return -3, next; }
    var disk := new Disk(dev, v);
    assert DirOk(disk, RootCluster(v), mount, d, depth);
    hide WellFormed, ParseBoot, DirOk;
    CreateFolder(files, mount, next);
    next' := ProcessDirectory(disk, files, RootCluster(v), mount, d, depth, next + 1);
    code := 0;
  }
}
