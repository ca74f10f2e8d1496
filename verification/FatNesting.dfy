/** How deep the reader's recursion into directories goes, with or without a finite tree behind it. */
module FatNesting {
  import opened Words
  import opened Bytes
  import opened Fat32
  import opened FatTree

  /** fat_process_directory calls itself for this entry. */
  predicate Enters(e: Ent) {
    IsDir(e) && StartCluster(e) != 0
  }

  /** The `i`th entry of the directory at cluster `c` is entered. */
  predicate EnteredAt(dev: Device, v: Volume, fat: seq<byte>, c: nat, chain: seq<nat>, i: nat) {
    IsChain(fat, c, chain) && i < |Listed(dev, v, chain)| && Enters(Listed(dev, v, chain)[i])
  }

  /** From the call for cluster `c`, the calls go at least `n` levels deeper. */
  ghost predicate Nests(dev: Device, v: Volume, fat: seq<byte>, c: nat, n: nat)
    decreases n
  {
    n == 0 || exists chain, i: nat {:trigger EnteredAt(dev, v, fat, c, chain, i)} ::
                EnteredAt(dev, v, fat, c, chain, i) && Nests(dev, v, fat, StartCluster(Listed(dev, v, chain)[i]), n - 1)
  }

  /** An entry that leads back to its own directory makes the recursion as deep as you like. */
  lemma {:induction false} SelfEntryNests(dev: Device, v: Volume, fat: seq<byte>, c: nat, chain: seq<nat>, i: nat, n: nat)
    requires IsChain(fat, c, chain) && i < |Listed(dev, v, chain)| && c != 0
    requires IsDir(Listed(dev, v, chain)[i]) && StartCluster(Listed(dev, v, chain)[i]) == c
    ensures Nests(dev, v, fat, c, n)
    decreases n
  {
    if n > 0 {
      SelfEntryNests(dev, v, fat, c, chain, i, n - 1);
      assert EnteredAt(dev, v, fat, c, chain, i);
    }
  }

  // ---------------------------------------------------------------- the depth of a tree

  function Max(a: nat, b: nat): nat {
    if a < b then b else a
  }

  /** The levels below a directory; an entry without a cluster is not entered. */
  function Height(items: seq<Item>): nat
    decreases items
  {
    if items == [] then 0 else Max(Height(items[..|items| - 1]), ItemHeight(items[|items| - 1]))
  }

  function ItemHeight(item: Item): nat
    decreases item
  {
    match item
    case Leaf(_, _, _) => 0
    case Folder(_, sub) => if sub.chain == [] then 0 else 1 + Height(sub.items)
  }

  lemma {:induction false} HeightIs(items: seq<Item>)
    ensures forall i :: 0 <= i < |items| ==> ItemHeight(items[i]) <= Height(items)
    ensures Height(items) > 0 ==> exists i :: 0 <= i < |items| && ItemHeight(items[i]) == Height(items)
    decreases |items|
  {
    if items != [] {
      var n := |items| - 1;
      HeightIs(items[..n]);
      forall i | 0 <= i < |items|
        ensures ItemHeight(items[i]) <= Height(items)
      {
        assert i < n ==> items[..n][i] == items[i];
      }
      if i :| 0 <= i < n && ItemHeight(items[..n][i]) == Height(items[..n]) {
        assert ItemHeight(items[i]) == Height(items[..n]);
      }
    }
  }

  /** An entry of a directory with a tree is entered exactly when its item has a chain. */
  lemma EntryItem(dev: Device, v: Volume, fat: seq<byte>, c: nat, d: Directory, i: nat)
    requires DirHolds(dev, v, fat, c, d) && i < |d.items|
    ensures i < |Listed(dev, v, d.chain)|
    ensures var e, item := Listed(dev, v, d.chain)[i], d.items[i];
            && (Enters(e) <==> item.Folder? && item.sub.chain != [])
            && (Enters(e) ==> DirHolds(dev, v, fat, StartCluster(e), item.sub))
  {
    hide IsChain, Listed, StartCluster, IsDir, FileHolds, ShortName;
    var e, item := Listed(dev, v, d.chain)[i], d.items[i];
    assert ItemHolds(dev, v, fat, e, item);
    if Enters(e) { SubChain(dev, v, fat, StartCluster(e), item.sub); }
  }

  lemma SubChain(dev: Device, v: Volume, fat: seq<byte>, c: nat, d: Directory)
    requires DirHolds(dev, v, fat, c, d)
    ensures d.chain != [] && IsChain(fat, c, d.chain) && |Listed(dev, v, d.chain)| == |d.items|
  {
  }

  /** With a finite tree the recursion goes exactly as deep as the tree. */
  lemma {:induction false} TreeNests(dev: Device, v: Volume, fat: seq<byte>, c: nat, d: Directory, n: nat)
    requires DirHolds(dev, v, fat, c, d)
    ensures Nests(dev, v, fat, c, n) <==> n <= Height(d.items)
    decreases d
  {
    hide IsChain, Listed, StartCluster, Enters, DirHolds, Height;
    HeightIs(d.items);
    SubChain(dev, v, fat, c, d);
    if n > 0 {
      if Nests(dev, v, fat, c, n) {
        var chain, i: nat :| EnteredAt(dev, v, fat, c, chain, i) && Nests(dev, v, fat, StartCluster(Listed(dev, v, chain)[i]), n - 1);
        EnteredFacts(dev, v, fat, c, chain, i);
        ChainUnique(fat, c, chain, d.chain);
        TreeNestsEntry(dev, v, fat, c, d, i, n);
      }
      if n <= Height(d.items) {
        var i :| 0 <= i < |d.items| && ItemHeight(d.items[i]) == Height(d.items);
        TreeNestsEntry(dev, v, fat, c, d, i, n);
      }
    }
  }

  lemma EnteredFacts(dev: Device, v: Volume, fat: seq<byte>, c: nat, chain: seq<nat>, i: nat)
    requires EnteredAt(dev, v, fat, c, chain, i)
    ensures IsChain(fat, c, chain) && i < |Listed(dev, v, chain)|
  {
  }

  lemma {:induction false} TreeNestsEntry(dev: Device, v: Volume, fat: seq<byte>, c: nat, d: Directory, i: nat, n: nat)
    requires DirHolds(dev, v, fat, c, d) && n > 0 && i < |d.items|
    ensures i < |Listed(dev, v, d.chain)|
    ensures EnteredAt(dev, v, fat, c, d.chain, i) && Nests(dev, v, fat, StartCluster(Listed(dev, v, d.chain)[i]), n - 1)
            <==> n <= ItemHeight(d.items[i])
    decreases d, 0
  {
    hide IsChain, Listed, StartCluster, DirHolds, Enters, Nests, Height;
    SubChain(dev, v, fat, c, d);
    EntryItem(dev, v, fat, c, d, i);
    var e, item := Listed(dev, v, d.chain)[i], d.items[i];
    if Enters(e) {
      TreeNests(dev, v, fat, StartCluster(e), item.sub, n - 1);
    }
  }

  /** So a directory with an entry that leads back to it, as "." does, has no finite tree. */
  lemma SelfEntryHasNoTree(dev: Device, v: Volume, fat: seq<byte>, c: nat, chain: seq<nat>, i: nat, d: Directory)
    requires IsChain(fat, c, chain) && i < |Listed(dev, v, chain)| && c != 0
    requires IsDir(Listed(dev, v, chain)[i]) && StartCluster(Listed(dev, v, chain)[i]) == c
    ensures !DirHolds(dev, v, fat, c, d)
  {
    hide DirHolds, IsChain, Listed, IsDir, StartCluster, Nests, Height;
    if DirHolds(dev, v, fat, c, d) {
      SelfEntryNests(dev, v, fat, c, chain, i, Height(d.items) + 1);
      TreeNests(dev, v, fat, c, d, Height(d.items) + 1);
    }
  }

  // ---------------------------------------------------------------- bounded recursion has a tree

  /** Chains end and files are long enough, for `n` levels from cluster `c` on. */
  ghost predicate Sound(dev: Device, v: Volume, fat: seq<byte>, c: nat, n: nat)
    decreases n
  {
    n == 0 || exists chain {:trigger IsChain(fat, c, chain)} ::
                && IsChain(fat, c, chain)
                && (forall i: nat :: EnteredAt(dev, v, fat, c, chain, i) ==> Sound(dev, v, fat, StartCluster(Listed(dev, v, chain)[i]), n - 1))
                && (forall i :: 0 <= i < |Listed(dev, v, chain)| ==> FileSound(dev, v, fat, Listed(dev, v, chain)[i]))
  }

  ghost predicate FileSound(dev: Device, v: Volume, fat: seq<byte>, e: Ent) {
    IsDir(e) || exists links, data :: FileHolds(dev, v, fat, e, links, data)
  }

  /** The tree behind a recursion that stops within `n` levels. */
  lemma {:induction false} BoundedHasTree(dev: Device, v: Volume, fat: seq<byte>, c: nat, n: nat) returns (d: Directory)
    requires Sound(dev, v, fat, c, n) && !Nests(dev, v, fat, c, n)
    ensures DirHolds(dev, v, fat, c, d)
    decreases n
  {
    hide FileSound, Listed, StartCluster, Enters;
    var chain :| && IsChain(fat, c, chain)
                 && (forall i: nat :: EnteredAt(dev, v, fat, c, chain, i) ==> Sound(dev, v, fat, StartCluster(Listed(dev, v, chain)[i]), n - 1))
                 && (forall i :: 0 <= i < |Listed(dev, v, chain)| ==> FileSound(dev, v, fat, Listed(dev, v, chain)[i]));
    hide IsChain, Nests, Sound, EnteredAt;
    var items: seq<Item> := [];
    for k := 0 to |Listed(dev, v, chain)|
      invariant |items| == k && forall i :: 0 <= i < k ==> ItemHolds(dev, v, fat, Listed(dev, v, chain)[i], items[i])
    {
      var item := BuildItem(dev, v, fat, c, n, chain, k);
      items := items + [item];
    }
    d := Directory(chain, items);
  }

  lemma {:induction false} BuildItem(dev: Device, v: Volume, fat: seq<byte>, c: nat, n: nat, chain: seq<nat>, i: nat) returns (item: Item)
    requires n > 0 && IsChain(fat, c, chain) && i < |Listed(dev, v, chain)| && !Nests(dev, v, fat, c, n)
    requires EnteredAt(dev, v, fat, c, chain, i) ==> Sound(dev, v, fat, StartCluster(Listed(dev, v, chain)[i]), n - 1)
    requires FileSound(dev, v, fat, Listed(dev, v, chain)[i])
    ensures ItemHolds(dev, v, fat, Listed(dev, v, chain)[i], item)
    decreases n, 0
  {
    hide IsChain, Listed, StartCluster, ShortName, IsDir, FileHolds;
    var e := Listed(dev, v, chain)[i];
    if Enters(e) {
      assert EnteredAt(dev, v, fat, c, chain, i);
      var sub := BoundedHasTree(dev, v, fat, StartCluster(e), n - 1);
      item := Folder(ShortName(e), sub);
    } else if IsDir(e) {
      item := Folder(ShortName(e), Directory([], []));
    } else {
      var links, data :| FileHolds(dev, v, fat, e, links, data);
      item := Leaf(ShortName(e), links, data);
    }
  }

  /** Behind a tree everything is sound, as deep as you like. */
  lemma {:induction false} TreeSound(dev: Device, v: Volume, fat: seq<byte>, c: nat, d: Directory, n: nat)
    requires DirHolds(dev, v, fat, c, d)
    ensures Sound(dev, v, fat, c, n)
    decreases n
  {
    hide IsChain, Listed, StartCluster, Enters, DirHolds, FileSound;
    if n > 0 {
      SubChain(dev, v, fat, c, d);
      forall i: nat | EnteredAt(dev, v, fat, c, d.chain, i)
        ensures Sound(dev, v, fat, StartCluster(Listed(dev, v, d.chain)[i]), n - 1)
      {
        EntryItem(dev, v, fat, c, d, i);
        TreeSound(dev, v, fat, StartCluster(Listed(dev, v, d.chain)[i]), d.items[i].sub, n - 1);
      }
      forall i | 0 <= i < |Listed(dev, v, d.chain)|
        ensures FileSound(dev, v, fat, Listed(dev, v, d.chain)[i])
      {
        ItemFileSound(dev, v, fat, c, d, i);
      }
    }
  }

  lemma ItemFileSound(dev: Device, v: Volume, fat: seq<byte>, c: nat, d: Directory, i: nat)
    requires DirHolds(dev, v, fat, c, d) && i < |d.items|
    ensures i < |Listed(dev, v, d.chain)| && FileSound(dev, v, fat, Listed(dev, v, d.chain)[i])
  {
    hide IsChain, Listed, StartCluster, FileHolds, ShortName, IsDir;
    assert ItemHolds(dev, v, fat, Listed(dev, v, d.chain)[i], d.items[i]);
  }

  // ---------------------------------------------------------------- how deep a tree can be

  /** A cluster of the FAT from which the recursion goes exactly `k` levels deeper. */
  ghost predicate Reaches(dev: Device, v: Volume, fat: seq<byte>, c: nat, k: nat) {
    InFat(fat, c) && Nests(dev, v, fat, c, k) && !Nests(dev, v, fat, c, k + 1)
  }

  /** Down the deepest branch of a tree every depth from its height to 0 comes by. */
  lemma {:induction false} Branch(dev: Device, v: Volume, fat: seq<byte>, c: nat, d: Directory) returns (cs: seq<nat>)
    requires DirHolds(dev, v, fat, c, d)
    ensures |cs| == Height(d.items) + 1
    ensures forall k :: 0 <= k < |cs| ==> Reaches(dev, v, fat, cs[k], k)
    decreases d
  {
    hide IsChain, Listed, StartCluster, Enters, DirHolds, Height, Nests;
    var h := Height(d.items);
    HeightIs(d.items);
    InFatHere(dev, v, fat, c, d);
    TreeNests(dev, v, fat, c, d, h);
    TreeNests(dev, v, fat, c, d, h + 1);
    if h == 0 {
      cs := [c];
    } else {
      var i :| 0 <= i < |d.items| && ItemHeight(d.items[i]) == h;
      EntryItem(dev, v, fat, c, d, i);
      var below := Branch(dev, v, fat, StartCluster(Listed(dev, v, d.chain)[i]), d.items[i].sub);
      cs := below + [c];
    }
  }

  lemma InFatHere(dev: Device, v: Volume, fat: seq<byte>, c: nat, d: Directory)
    requires DirHolds(dev, v, fat, c, d)
    ensures InFat(fat, c)
  {
    SubChain(dev, v, fat, c, d);
  }

  lemma {:induction false} LessNests(dev: Device, v: Volume, fat: seq<byte>, c: nat, m: nat, n: nat)
    requires m <= n && Nests(dev, v, fat, c, n)
    ensures Nests(dev, v, fat, c, m)
    decreases n
  {
    hide IsChain, Listed, StartCluster, Enters;
    if m > 0 {
      var chain, i: nat :| EnteredAt(dev, v, fat, c, chain, i) && Nests(dev, v, fat, StartCluster(Listed(dev, v, chain)[i]), n - 1);
      LessNests(dev, v, fat, StartCluster(Listed(dev, v, chain)[i]), m - 1, n - 1);
    }
  }

  /** Different numbers below `m` are at most `m`. */
  lemma {:induction false} AtMost(cs: seq<nat>, m: nat)
    requires (forall i :: 0 <= i < |cs| ==> cs[i] < m) && (forall i, j :: 0 <= i < j < |cs| ==> cs[i] != cs[j])
    ensures |cs| <= m
    decreases m
  {
    if cs != [] {
      assert cs[0] < m;
      if i :| 0 <= i < |cs| && cs[i] == m - 1 {
        AtMost(cs[..i] + cs[i + 1..], m - 1);
      } else {
        AtMost(cs, m - 1);
      }
    }
  }

  /** A tree has fewer levels than the FAT has links, since no cluster comes twice on a branch. */
  lemma TreeShallow(dev: Device, v: Volume, fat: seq<byte>, c: nat, d: Directory)
    requires DirHolds(dev, v, fat, c, d)
    ensures Height(d.items) < |fat| / 4
  {
    hide DirHolds, Height, Nests;
    var cs := Branch(dev, v, fat, c, d);
    forall i, j | 0 <= i < j < |cs|
      ensures cs[i] != cs[j]
    {
      assert Reaches(dev, v, fat, cs[i], i) && Reaches(dev, v, fat, cs[j], j);
      LessNests(dev, v, fat, cs[j], i + 1, j);
    }
    forall i | 0 <= i < |cs|
      ensures cs[i] < |fat| / 4
    {
      assert Reaches(dev, v, fat, cs[i], i);
    }
    AtMost(cs, |fat| / 4);
  }

  /**
   The directory at `c` has a finite tree if and only if, within as many levels as the FAT has links, chains
   end, files are long enough and the reader's recursion comes to an end.
   */
  lemma TreeExactly(dev: Device, v: Volume, fat: seq<byte>, c: nat)
    ensures (exists d :: DirHolds(dev, v, fat, c, d))
            <==> Sound(dev, v, fat, c, |fat| / 4) && !Nests(dev, v, fat, c, |fat| / 4)
  {
    hide DirHolds, Sound, Nests, Height;
    var n := |fat| / 4;
    if d :| DirHolds(dev, v, fat, c, d) {
      TreeSound(dev, v, fat, c, d, n);
      TreeShallow(dev, v, fat, c, d);
      TreeNests(dev, v, fat, c, d, n);
    }
    if Sound(dev, v, fat, c, n) && !Nests(dev, v, fat, c, n) {
      var d := BoundedHasTree(dev, v, fat, c, n);
    }
  }

  /** So for a whole volume, from its boot sector. */
  lemma WellFormedExactly(dev: Device, partition: Word)
    ensures var b := dev(partition);
            var v := ParseBoot(b, partition);
            var fat := FatBytes(dev, v);
            (exists d :: WellFormed(dev, partition, d)) <==>
              && BytesPerSector(b) == SECTOR && v.spc > 0 && v.fatSize * SECTOR < TWO32
              && Sound(dev, v, fat, RootCluster(v), |fat| / 4) && !Nests(dev, v, fat, RootCluster(v), |fat| / 4)
  {
    hide DirHolds, Sound, Nests, ParseBoot, BytesPerSector;
    var v := ParseBoot(dev(partition), partition);
    var fat := FatBytes(dev, v);
    TreeExactly(dev, v, fat, RootCluster(v));
    if d :| WellFormed(dev, partition, d) {
      assert DirHolds(dev, v, fat, RootCluster(v), d);
    }
    if d :| DirHolds(dev, v, fat, RootCluster(v), d) {
      assert WellFormed(dev, partition, d) <==> BytesPerSector(dev(partition)) == SECTOR && v.spc > 0 && v.fatSize * SECTOR < TWO32;
    }
  }

  /** A recursion that goes that deep goes on for as long as chains and files are sound. */
  lemma DeepIsEndless(dev: Device, v: Volume, fat: seq<byte>, c: nat, m: nat)
    requires Nests(dev, v, fat, c, |fat| / 4) && Sound(dev, v, fat, c, m)
    ensures Nests(dev, v, fat, c, m)
  {
    hide DirHolds, Sound, Nests;
    if !Nests(dev, v, fat, c, m) {
      var d := BoundedHasTree(dev, v, fat, c, m);
      TreeExactly(dev, v, fat, c);
    }
  }

  // ---------------------------------------------------------------- the path buffer on the way down "."

  /** The entry the standard puts first into every subdirectory is named ".". */
  lemma DotName(e: Ent)
    requires e[..8] == [0x2E] + Spaces(7) && e[8..11] == Spaces(3)
    ensures ShortName(e) == "."
  {
    assert Spaces(3) == [] + Spaces(3);
    ShortNameRoundTrip([0x2E], [], e);
    assert Text([0x2E]) == ".";
  }

  /** The path after `k` levels of ".". */
  function DotPath(path: string, k: nat): string {
    if k == 0 then path else FullName(DotPath(path, k - 1), ".")
  }

  lemma {:induction false} DotPathGrows(path: string, k: nat)
    requires path != "" && path[|path| - 1] != '/'
    ensures var p := DotPath(path, k); |p| == |path| + 2 * k && p[|p| - 1] != '/'
    decreases k
  {
    if k > 0 { DotPathGrows(path, k - 1); }
  }

  /**
   The path buffer alone: the call `k` levels down writes the next path and its NUL inside its 256 bytes if
   and only if k < (255 - |path|) / 2.
   */
  lemma DotPathOverruns(path: string, k: nat)
    requires path != "" && path[|path| - 1] != '/' && |path| < 256
    ensures |FullName(DotPath(path, k), ".")| < 256 <==> k < (255 - |path|) / 2
  {
    DotPathGrows(path, k);
    DotPathGrows(path, k + 1);
  }
}
