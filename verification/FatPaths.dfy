/** A mounted volume by its paths: every file is found with its contents, and the rest of the tree is as before. */
module FatPaths {
  import opened Words
  import opened Vfs
  import opened VfsLaws
  import opened Fat32
  import opened FatTree

  /** The first item with this name. */
  function IndexOf(items: seq<Item>, name: string): (i: nat)
    ensures i <= |items| && (i < |items| ==> items[i].name == name) && (forall k :: 0 <= k < i ==> items[k].name != name)
  {
    if items == [] then 0
    else
      var i := IndexOf(items[..|items| - 1], name);
      if i < |items| - 1 || items[|items| - 1].name == name then i else |items|
  }

  /** The item a list of names leads to. */
  function ItemAt(items: seq<Item>, names: seq<string>): Option<Item>
    decreases |names|
  {
    if names == [] then None
    else
      var i := IndexOf(items, names[0]);
      if i == |items| then None
      else if |names| == 1 then Some(items[i])
      else if items[i].Folder? then ItemAt(items[i].sub.items, names[1..]) else None
  }

  lemma GrownDir(fs: Fs, p: Id, items: seq<Item>, before: seq<Id>)
    requires Grown(fs, p, items, before)
    ensures p in fs.nodes && |fs.nodes[p].children| == |items| + |before|
  {
    hide Mirrors;
  }

  /** The i-th item's node, counted from the oldest. */
  lemma NodeOf(fs: Fs, p: Id, items: seq<Item>, before: seq<Id>, i: nat)
    requires Grown(fs, p, items, before) && i < |items|
    ensures var ids := fs.nodes[p].children;
            && |ids| == |items| + |before| && ids[|items| - 1 - i] in ids
            && Mirrors(fs, ids[|items| - 1 - i], items[i]) && NameOf(fs, ids[|items| - 1 - i]) == items[i].name
  {
    hide Tree, FindChild;
  }

  /** In a mirror image a name finds the item's node, and nothing but the items. */
  lemma ChildOf(fs: Fs, p: Id, items: seq<Item>, before: seq<Id>, name: string)
    requires Tree(fs) && Grown(fs, p, items, before)
    ensures var i, r := IndexOf(items, name), FindChild(fs, p, name);
            if i < |items| then r == Some(fs.nodes[p].children[|items| - 1 - i]) && Mirrors(fs, r.value, items[i])
            else before == [] ==> r == None
  {
    hide Tree, FindChild, IndexOf, Mirrors, NameOf, Grown;
    var i := IndexOf(items, name);
    GrownDir(fs, p, items, before);
    if i < |items| {
      NodeOf(fs, p, items, before, i);
      FindChildIs(fs, p, name);
    } else if before == [] {
      forall c | c in fs.nodes[p].children
        ensures NameOf(fs, c) != name
      {
        var k :| 0 <= k < |fs.nodes[p].children| && fs.nodes[p].children[k] == c;
        NodeOf(fs, p, items, before, |items| - 1 - k);
      }
      FindChildIs(fs, p, name);
    }
  }

  predicate AllGood(names: seq<string>) {
    forall i :: 0 <= i < |names| ==> GoodName(names[i])
  }

  lemma WalkStep(fs: Fs, p: Id, names: seq<string>)
    requires names != [] && GoodName(names[0])
    ensures ResolveTokens(fs, p, names) ==
            match FindChild(fs, p, names[0]) case None => None case Some(c) => ResolveTokens(fs, c, names[1..])
  {
  }

  /** Walking names down a mirror image is walking them down the items. */
  lemma {:induction false} Walk(fs: Fs, p: Id, items: seq<Item>, before: seq<Id>, names: seq<string>)
    requires Tree(fs) && Grown(fs, p, items, before) && AllGood(names) && names != []
    ensures var r := ResolveTokens(fs, p, names);
            match ItemAt(items, names)
            case Some(item) => r.Some? && Mirrors(fs, r.value, item)
            case None => before == [] ==> r == None
    decreases |names|
  {
    ChildOf(fs, p, items, before, names[0]);
    WalkStep(fs, p, names);
    var i := IndexOf(items, names[0]);
    if i < |items| {
      var c := FindChild(fs, p, names[0]).value;
      if |names| == 1 {
        ResolveNothing(fs, c);
      } else if items[i].Folder? {
        hide Tree, FindChild, IndexOf, ResolveTokens;
        Walk(fs, c, items[i].sub.items, [], names[1..]);
      } else {
        WalkStep(fs, c, names[1..]);
      }
    }
  }

  /** A path of names that exists on the volume is no deeper than the 64 tokens of vfs_resolve. */
  lemma {:induction false} DepthFits(items: seq<Item>, names: seq<string>, len: nat, depth: nat)
    requires Fits(items, len, depth) && ItemAt(items, names).Some?
    ensures depth + |names| <= MAX_TOKENS && AllGood(names)
    decreases |names|
  {
    var i := IndexOf(items, names[0]);
    assert ItemFits(items[i], len, depth);
    if |names| > 1 {
      DepthFits(items[i].sub.items, names[1..], len + 1 + |items[i].name|, depth + 1);
      assert forall k :: 0 < k < |names| ==> names[k] == names[1..][k - 1];
    }
  }

  /** A path below the mount point. */
  function Below(mount: string, names: seq<string>): string {
    mount + Join(names)
  }

  lemma BelowResolves(fs: Fs, mount: string, p: Id, depth: nat, names: seq<string>)
    requires Place(fs, mount, p, depth) && names != [] && AllGood(names) && depth + |names| <= MAX_TOKENS
    ensures Resolve(fs, Below(mount, names), fs.root) == ResolveTokens(fs, p, names)
  {
    hide ResolveTokens, Tokens;
    TokensJoin(names);
    TokensAppend(mount, Join(names));
    NotTheRootPath(mount, Join(names));
    ResolveAppend(fs, From(fs, mount, fs.root), Tokens(mount), names);
  }

  /**
   After mounting, every path that leads to something on the volume leads to its image: a file with exactly
   its bytes, or a directory.
   */
  lemma MountIsFaithful(fs: Fs, fs': Fs, next': Id, mount: string, p: Id, depth: nat, items: seq<Item>, names: seq<string>)
    requires Place(fs, mount, p, depth) && Mounted(fs, fs', next', p, items) && Fits(items, |mount|, depth)
    requires ItemAt(items, names).Some?
    ensures match ItemAt(items, names).value
            case Leaf(_, _, data) => ReadFile(fs', Below(mount, names), fs'.root) == Some(data)
            case Folder(_, _) =>
              var r := Resolve(fs', Below(mount, names), fs'.root);
              r.Some? && r.value in fs'.nodes && fs'.nodes[r.value].kind == Dir
  {
    DepthFits(items, names, |mount|, depth);
    PlaceKept(fs, fs', mount, p, depth);
    hide ResolveTokens, Tree, Fresh, Fits, Tokens, KeepsPaths;
    Walk(fs', p, items, fs.nodes[p].children, names);
    hide Place;
    BelowResolves(fs', mount, p, depth, names);
    hide Resolve, Below;
  }

  /** Under a mount point that was empty, a path of good names that is not on the volume leads nowhere. */
  lemma NothingElseAppears(fs: Fs, fs': Fs, next': Id, mount: string, p: Id, depth: nat, items: seq<Item>, names: seq<string>)
    requires Place(fs, mount, p, depth) && Mounted(fs, fs', next', p, items) && fs.nodes[p].children == []
    requires names != [] && AllGood(names) && depth + |names| <= MAX_TOKENS && ItemAt(items, names).None?
    ensures Resolve(fs', Below(mount, names), fs'.root) == None
  {
    PlaceKept(fs, fs', mount, p, depth);
    hide ResolveTokens, Tree, Fresh, Tokens, KeepsPaths;
    Walk(fs', p, items, [], names);
    hide Place;
    BelowResolves(fs', mount, p, depth, names);
  }

  /** Every path that led somewhere before still does, and every file that could be read reads the same. */
  lemma MountKeepsTheRest(fs: Fs, fs': Fs, next': Id, p: Id, items: seq<Item>, q: string)
    requires Tree(fs) && Mounted(fs, fs', next', p, items) && p in fs.nodes && fs.nodes[p].kind == Dir
    requires Resolve(fs, q, fs.root).Some?
    ensures Resolve(fs', q, fs'.root) == Resolve(fs, q, fs.root) && ReadFile(fs', q, fs'.root) == ReadFile(fs, q, fs.root)
  {
    RootThere(fs);
    ResolveIn(fs, q, fs.root);
    hide Tree, Fresh, Grown, Resolve;
  }

  // ---------------------------------------------------------------- the mount point

  /** fat32_mount_partition's part in the filesystem: the mount point, then the root directory's entries. */
  function Mount(fs: Fs, next: Id, mount: string, items: seq<Item>): (Fs, Id) {
    Populate(Create(fs, mount, true, fs.root, next).0, next + 1, mount, items)
  }

  lemma CreateKeepsPaths(fs: Fs, mount: string, id: Id)
    requires Tree(fs) && Fresh(fs, id)
    ensures KeepsPaths(fs, Create(fs, mount, true, fs.root, id).0)
  {
    RootThere(fs);
    assert Create(fs, mount, true, fs.root, id).0.root == fs.root;
    hide Create, Tree, Fresh, Resolve;
    forall q | Resolve(fs, q, fs.root).Some?
      ensures Resolve(Create(fs, mount, true, fs.root, id).0, q, fs.root) == Resolve(fs, q, fs.root)
    {
      CreateKeepsOthers(fs, mount, true, fs.root, id, q, fs.root);
    }
  }

  lemma CreateFresh(fs: Fs, mount: string, id: Id)
    requires Tree(fs) && Fresh(fs, id)
    ensures var (fs1, n) := Create(fs, mount, true, fs.root, id);
            && Fresh(fs1, id + 1)
            && (n == Some(id) ==> id in fs1.nodes && fs1.nodes[id].children == [] && fs1.nodes[id].kind == Dir)
  {
    hide Resolve, FindChild;
    if Create(fs, mount, true, fs.root, id).1 == Some(id) {
      RootThere(fs);
      ParentResolves(fs, mount, fs.root);
      var parent := Resolve(fs, ParentPath(mount), fs.root);
      FindChildIs(fs, parent.value, LastName(mount));
      assert ChildrenOk(fs, parent.value);
    }
  }

  /** A mount point with a good path that is new, or an existing directory, is a place. */
  lemma MountPoint(fs: Fs, next: Id, mount: string)
    requires Tree(fs) && Fresh(fs, next) && GoodPath(mount) && NamePos(mount) < PARENT_BUF
    requires var (fs1, n) := Create(fs, mount, true, fs.root, next);
             n.Some? && n.value in fs1.nodes && fs1.nodes[n.value].kind == Dir
    ensures var (fs1, n) := Create(fs, mount, true, fs.root, next);
            Tree(fs1) && Fresh(fs1, next + 1) && Place(fs1, mount, n.value, |Tokens(mount)|)
  {
    RootThere(fs);
    CreateTree(fs, mount, true, fs.root, next);
    CreateFresh(fs, mount, next);
    CreateThenResolve(fs, mount, true, fs.root, next);
    KeepsPathsRoot(fs, mount, next);
    hide Create, Tree, Fresh, Resolve, Tokens, NamePos;
  }

  lemma KeepsPathsRoot(fs: Fs, mount: string, id: Id)
    ensures Create(fs, mount, true, fs.root, id).0.root == fs.root
  {
  }

  /**
   Mounting a well-formed volume at a good path that is new, or an existing directory without any of the
   names: the image of the volume's tree comes in front of what the directory held, and every path that led
   somewhere before leads there still.
   */
  lemma MountAt(fs: Fs, next: Id, mount: string, p: Id, items: seq<Item>)
    requires Tree(fs) && Fresh(fs, next) && GoodPath(mount) && NamePos(mount) < PARENT_BUF
    requires var (fs1, n) := Create(fs, mount, true, fs.root, next);
             n == Some(p) && p in fs1.nodes && fs1.nodes[p].kind == Dir && NamesFree(fs1, p, items)
    requires Fits(items, |mount|, |Tokens(mount)|)
    ensures var fs1 := Create(fs, mount, true, fs.root, next).0;
            var (fs2, next2) := Mount(fs, next, mount, items);
            && Place(fs1, mount, p, |Tokens(mount)|) && Mounted(fs1, fs2, next2, p, items) && KeepsPaths(fs, fs2)
  {
    hide Tree, Fresh, Resolve, Tokens, NamePos, Create, GoodPath, Fits, Populate, KeepsPaths, Place, Grown, NamesFree, OnlyUnder;
    MountPoint(fs, next, mount);
    CreateKeepsPaths(fs, mount, next);
    var fs1 := Create(fs, mount, true, fs.root, next).0;
    Populated(fs1, next + 1, mount, p, |Tokens(mount)|, items);
    KeepsTrans(fs, fs1, Mount(fs, next, mount, items).0);
  }

  /** At a new mount point the image is all that the mount point holds. */
  lemma MountNew(fs: Fs, next: Id, mount: string, items: seq<Item>)
    requires Tree(fs) && Fresh(fs, next) && GoodPath(mount) && NamePos(mount) < PARENT_BUF
    requires Create(fs, mount, true, fs.root, next).1 == Some(next)
    requires Fits(items, |mount|, |Tokens(mount)|)
    ensures var fs1 := Create(fs, mount, true, fs.root, next).0;
            var (fs2, next2) := Mount(fs, next, mount, items);
            && Place(fs1, mount, next, |Tokens(mount)|) && fs1.nodes[next].children == []
            && Mounted(fs1, fs2, next2, next, items) && KeepsPaths(fs, fs2)
  {
    hide Tree, Fresh, Resolve, Tokens, NamePos, Create, GoodPath, Fits, Populate, KeepsPaths, Place, Grown, NamesFree, OnlyUnder, Mounted;
    CreateFresh(fs, mount, next);
    NewDirectoryEmpty(Create(fs, mount, true, fs.root, next).0, next, items);
    MountAt(fs, next, mount, next, items);
  }
}
