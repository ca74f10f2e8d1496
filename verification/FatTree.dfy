/** What mounting does to the filesystem: the volume's tree appears under the mount point, and nothing else changes. */
module FatTree {
  import opened Words
  import opened Strings
  import opened Vfs
  import opened VfsLaws
  import opened Fat32

  /** The path of an entry: its directory's path, a slash unless there is one, and its name. */
  function FullName(path: string, name: string): string {
    (if path != "" && path[|path| - 1] != '/' then path + "/" else path) + name
  }

  /** The entries of a directory one after the other; `next` is the address of the next new node. */
  function Populate(fs: Fs, next: Id, path: string, items: seq<Item>): (Fs, Id)
    decreases items
  {
    if items == [] then (fs, next)
    else
      var (fs1, next1) := Populate(fs, next, path, items[..|items| - 1]);
      PopulateItem(fs1, next1, path, items[|items| - 1])
  }

  function PopulateItem(fs: Fs, next: Id, path: string, item: Item): (Fs, Id)
    decreases item
  {
    match item
    case Leaf(name, _, data) => (WriteFile(fs, FullName(path, name), data, fs.root, next).0, next + 1)
    case Folder(name, sub) =>
      Populate(Create(fs, FullName(path, name), true, fs.root, next).0, next + 1, FullName(path, name), sub.items)
  }

  /** Directory path and name with exactly one slash between them, the path's own if it ends in one. */
  lemma OneSlash(dir: string, name: string)
    ensures FullName(dir + "/", name) == dir + "/" + name
    ensures dir != "" && dir[|dir| - 1] != '/' ==> FullName(dir, name) == dir + "/" + name
    ensures FullName("", name) == name
  {
    assert (dir + "/")[|dir|] == '/';
  }

  // ---------------------------------------------------------------- well-formed names

  /** Names as an operating system writes them, no two alike, short enough for the 256-byte path buffer. */
  ghost predicate Fits(items: seq<Item>, len: nat, depth: nat)
    decreases items
  {
    && (forall i, j :: 0 <= i < j < |items| ==> items[i].name != items[j].name)
    && (forall i :: 0 <= i < |items| ==> ItemFits(items[i], len, depth))
  }

  ghost predicate ItemFits(item: Item, len: nat, depth: nat)
    decreases item
  {
    && GoodName(item.name) && NUL !in item.name
    && len + 1 + |item.name| < PARENT_BUF && depth < MAX_TOKENS
    && (item.Folder? ==> Fits(item.sub.items, len + 1 + |item.name|, depth + 1))
  }

  // ---------------------------------------------------------------- the mirror image

  /** `c` is a node with the name and contents of the item, down to the last entry. */
  ghost predicate Mirrors(fs: Fs, c: Id, item: Item)
    decreases item
  {
    && c in fs.nodes && fs.nodes[c].name == item.name
    && match item
       case Leaf(_, _, data) => fs.nodes[c].kind == File && fs.nodes[c].data == Some(data)
       case Folder(_, sub) => fs.nodes[c].kind == Dir && Grown(fs, c, sub.items, [])
  }

  /** The children of `p` are the items, the last first, in front of what was there. */
  ghost predicate Grown(fs: Fs, p: Id, items: seq<Item>, before: seq<Id>)
    decreases items
  {
    && p in fs.nodes
    && var ids := fs.nodes[p].children;
       && |ids| == |items| + |before| && ids[|items|..] == before
       && forall i :: 0 <= i < |items| ==> Mirrors(fs, ids[|items| - 1 - i], items[i])
  }

  // ---------------------------------------------------------------- one entry

  /** A path without trailing slash, of `depth` names, that leads to the directory `p`. */
  ghost predicate Place(fs: Fs, path: string, p: Id, depth: nat) {
    && path != "" && path[|path| - 1] != '/' && !MeansRoot(path) && |Tokens(path)| == depth
    && Resolve(fs, path, fs.root) == Some(p) && p in fs.nodes && fs.nodes[p].kind == Dir
  }

  /** Resolution keeps every result it had. */
  ghost predicate KeepsPaths(fs: Fs, fs': Fs) {
    && fs'.root == fs.root
    && forall q :: Resolve(fs, q, fs.root).Some? ==> Resolve(fs', q, fs.root) == Resolve(fs, q, fs.root)
  }

  /** Only the children of `p` change; other nodes are new. */
  ghost predicate OnlyUnder(fs: Fs, fs': Fs, p: Id) {
    && p in fs.nodes && p in fs'.nodes
    && fs'.nodes[p] == fs.nodes[p].(children := fs'.nodes[p].children)
    && forall m :: m in fs.nodes && m != p ==> m in fs'.nodes && fs'.nodes[m] == fs.nodes[m]
  }

  lemma {:induction false} NameStartIs(p: string, pos: nat, start: nat)
    requires start <= pos <= |p| && (start == 0 || p[start - 1] == '/') && (forall i :: start <= i < pos ==> p[i] != '/')
    ensures NameStart(p, pos) == start
    decreases pos
  {
    if pos > start { NameStartIs(p, pos - 1, start); }
  }

  /** Where the name of an entry's path lies. */
  lemma FullNameParts(path: string, name: string)
    requires path != "" && path[|path| - 1] != '/' && Plain(name)
    ensures var full := FullName(path, name);
            && full == path + "/" + name && full[|full| - 1] != '/'
            && NamePos(full) == |path| + 1 && LastName(full) == name && full[..NamePos(full)] == path + "/"
  {
    var full := path + "/" + name;
    assert full[|full| - 1] == name[|name| - 1];
    assert StrippedLen(full, |full|) == |full|;
    forall i | |path| + 1 <= i < |full|
      ensures full[i] != '/'
    {
      assert full[i] == name[i - |path| - 1];
    }
    NameStartIs(full, |full|, |path| + 1);
    assert full[|path| + 1..] == name && full[..|path| + 1] == path + "/";
  }

  lemma FullNameTokens(path: string, name: string)
    requires Plain(name)
    ensures Tokens(path + "/" + name) == Tokens(path) + [name]
    ensures Tokens(path + "/") == Tokens(path)
  {
    assert path + "/" + name == path + ("/" + name);
    TokensAppend(path, "/" + name);
    TokensSlash(name);
    TokensCons(name, "");
    assert name + "" == name;
    TokensAppend(path, "/");
    SlashHasNoTokens();
    TokensOfSlashes("");
  }

  lemma NotTheRootPath(path: string, rest: string)
    requires path != "" && path[|path| - 1] != '/' && !MeansRoot(path)
    ensures !MeansRoot(path + rest) && Absolute(path + rest) == Absolute(path)
  {
  }

  /** A trailing slash makes no difference to resolution. */
  lemma SameParent(fs: Fs, path: string, start: Id)
    requires path != "" && path[|path| - 1] != '/' && !MeansRoot(path)
    ensures Resolve(fs, path + "/", start) == Resolve(fs, path, start)
  {
    hide Tokens, ResolveTokens;
    NotTheRootPath(path, "/");
    FullNameTokens(path, "a");
  }

  lemma CreateIs(fs: Fs, full: string, p: Id, isDir: bool, id: Id)
    requires Resolve(fs, ParentPath(full), fs.root) == Some(p) && p in fs.nodes && fs.nodes[p].kind == Dir
    requires FindChild(fs, p, LastName(full)).None?
    ensures Create(fs, full, isDir, fs.root, id) == (Insert(fs, p, LastName(full), if isDir then Dir else File, id), Some(id))
  {
  }

  lemma ParentPathIs(path: string, name: string)
    requires path != "" && path[|path| - 1] != '/' && Plain(name) && |path| + 1 < PARENT_BUF
    ensures ParentPath(FullName(path, name)) == path + "/" && NamePos(FullName(path, name)) < PARENT_BUF
  {
    FullNameParts(path, name);
  }

  /** Creating an entry in a place inserts it there, and makes a place of a new directory. */
  lemma CreateEntry(fs: Fs, path: string, p: Id, depth: nat, name: string, isDir: bool, id: Id)
    requires Tree(fs) && Fresh(fs, id) && Place(fs, path, p, depth) && depth < MAX_TOKENS
    requires GoodName(name) && |path| + 1 < PARENT_BUF && FindChild(fs, p, name).None?
    ensures var full, kind := FullName(path, name), if isDir then Dir else File;
            var fs' := Insert(fs, p, name, kind, id);
            && Create(fs, full, isDir, fs.root, id) == (fs', Some(id))
            && (isDir ==> Place(fs', full, id, depth + 1))
  {
    hide Resolve, NamePos, FindChild, Tokens, Create, Tree, Fresh, ParentPath, LastName;
    var full := FullName(path, name);
    FullNameParts(path, name);
    FullNameTokens(path, name);
    ParentPathIs(path, name);
    SameParent(fs, path, fs.root);
    CreateIs(fs, full, p, isDir, id);
    NotTheRootPath(path, "/" + name);
    assert full == path + ("/" + name);
    assert GoodPath(full);
    assert fs.root in fs.nodes by { assert Tree(fs); RootThere(fs); }
    CreateThenResolve(fs, full, isDir, fs.root, id);
  }

  lemma RootThere(fs: Fs)
    requires Tree(fs)
    ensures fs.root in fs.nodes
  {
  }

  lemma InsertKeepsPaths(fs: Fs, p: Id, name: string, kind: Kind, id: Id)
    requires Tree(fs) && Fresh(fs, id) && p in fs.nodes && fs.nodes[p].kind == Dir && FindChild(fs, p, name).None?
    ensures KeepsPaths(fs, Insert(fs, p, name, kind, id))
  {
    var fs' := Insert(fs, p, name, kind, id);
    assert fs'.root == fs.root;
    RootThere(fs);
    hide Tree, Fresh, FindChild, Insert, ResolveTokens, Tokens, Kept;
    forall q | Resolve(fs, q, fs.root).Some?
      ensures Resolve(fs', q, fs.root) == Resolve(fs, q, fs.root)
    {
      InsertKeepsOthers(fs, p, name, kind, id, fs.root, Kept(Tokens(q)));
    }
  }

  // ---------------------------------------------------------------- frames

  lemma KeepsTrans(fs: Fs, fs1: Fs, fs2: Fs)
    requires KeepsPaths(fs, fs1) && KeepsPaths(fs1, fs2)
    ensures KeepsPaths(fs, fs2)
  {
    hide Resolve;
  }

  lemma PlaceKept(fs: Fs, fs': Fs, path: string, p: Id, depth: nat)
    requires Place(fs, path, p, depth) && KeepsPaths(fs, fs') && OnlyUnder(fs, fs', p)
    ensures Place(fs', path, p, depth)
  {
    hide Resolve, Tokens;
  }

  /** Children are younger than their parent. */
  lemma ChildYounger(fs: Fs, p: Id, c: Id)
    requires Tree(fs) && p in fs.nodes && c in fs.nodes[p].children
    ensures c in fs.nodes && p < c
  {
    assert ChildrenOk(fs, p);
    assert ParentOk(fs, c);
  }

  /** Changes under an older node leave a mirror image alone. */
  lemma {:induction false} MirrorsKept(fs: Fs, fs': Fs, p: Id, c: Id, item: Item)
    requires Tree(fs) && Mirrors(fs, c, item) && p < c && OnlyUnder(fs, fs', p)
    ensures Mirrors(fs', c, item)
    decreases item
  {
    hide Tree, Mirrors, Grown, OnlyUnder;
    SameNode(fs, fs', p, c, item);
    if item.Folder? {
      MirrorShape(fs, c, item);
      var items, ids := item.sub.items, fs.nodes[c].children;
      forall i | 0 <= i < |items|
        ensures Mirrors(fs', ids[|items| - 1 - i], items[i])
      {
        MirrorChild(fs, c, item, i);
        MirrorsKept(fs, fs', p, ids[|items| - 1 - i], items[i]);
      }
      MirrorFolder(fs, fs', c, item);
    } else {
      MirrorLeaf(fs, fs', c, item);
    }
  }

  lemma SameNode(fs: Fs, fs': Fs, p: Id, c: Id, item: Item)
    requires Mirrors(fs, c, item) && p < c && OnlyUnder(fs, fs', p)
    ensures c in fs.nodes && c in fs'.nodes && fs'.nodes[c] == fs.nodes[c]
  {
  }

  lemma MirrorShape(fs: Fs, c: Id, item: Item)
    requires Mirrors(fs, c, item) && item.Folder?
    ensures c in fs.nodes && |fs.nodes[c].children| == |item.sub.items|
  {
  }

  lemma MirrorChild(fs: Fs, c: Id, item: Item, i: nat)
    requires Tree(fs) && Mirrors(fs, c, item) && item.Folder? && i < |item.sub.items|
    ensures c in fs.nodes && |fs.nodes[c].children| == |item.sub.items|
    ensures var k := fs.nodes[c].children[|item.sub.items| - 1 - i]; c < k && Mirrors(fs, k, item.sub.items[i])
  {
    hide Tree;
    MirrorShape(fs, c, item);
    ChildYounger(fs, c, fs.nodes[c].children[|item.sub.items| - 1 - i]);
  }

  lemma MirrorFolder(fs: Fs, fs': Fs, c: Id, item: Item)
    requires Mirrors(fs, c, item) && item.Folder? && c in fs'.nodes && c in fs.nodes && fs'.nodes[c] == fs.nodes[c]
    requires |fs.nodes[c].children| == |item.sub.items|
    requires forall i :: 0 <= i < |item.sub.items| ==> Mirrors(fs', fs.nodes[c].children[|item.sub.items| - 1 - i], item.sub.items[i])
    ensures Mirrors(fs', c, item)
  {
  }

  lemma MirrorLeaf(fs: Fs, fs': Fs, c: Id, item: Item)
    requires Mirrors(fs, c, item) && item.Leaf? && c in fs'.nodes && fs'.nodes[c] == fs.nodes[c]
    ensures Mirrors(fs', c, item)
  {
  }

  // ---------------------------------------------------------------- the whole directory

  /** What one entry adds: a youngest child `id`, in front. */
  ghost predicate Added(fs: Fs, fs': Fs, p: Id, id: Id) {
    && Tree(fs') && KeepsPaths(fs, fs') && OnlyUnder(fs, fs', p)
    && fs'.nodes[p].children == [id] + fs.nodes[p].children
  }

  lemma InsertFacts(fs: Fs, p: Id, name: string, kind: Kind, id: Id)
    requires Fresh(fs, id) && p in fs.nodes
    ensures var fs' := Insert(fs, p, name, kind, id);
            && Fresh(fs', id + 1) && OnlyUnder(fs, fs', p) && fs'.nodes[p].children == [id] + fs.nodes[p].children
            && id in fs'.nodes && fs'.nodes[id] == Node(name, kind, Some(p), [], None)
  {
  }

  lemma InsertAdded(fs: Fs, p: Id, name: string, kind: Kind, id: Id)
    requires Tree(fs) && Fresh(fs, id) && p in fs.nodes && fs.nodes[p].kind == Dir && FindChild(fs, p, name).None?
    ensures var fs' := Insert(fs, p, name, kind, id);
            && Added(fs, fs', p, id) && Fresh(fs', id + 1)
            && id in fs'.nodes && fs'.nodes[id] == Node(name, kind, Some(p), [], None)
  {
    InsertTree(fs, p, name, kind, id);
    InsertKeepsPaths(fs, p, name, kind, id);
    InsertFacts(fs, p, name, kind, id);
    hide Tree, KeepsPaths, FindChild, Insert, Fresh;
  }

  lemma SetDataKeepsPaths(fs: Fs, id: Id, data: string)
    requires Tree(fs) && id in fs.nodes
    ensures KeepsPaths(fs, SetData(fs, id, data))
  {
    RootThere(fs);
    hide Tree, Resolve;
    forall q | Resolve(fs, q, fs.root).Some?
      ensures Resolve(SetData(fs, id, data), q, fs.root) == Resolve(fs, q, fs.root)
    {
      SetDataResolve(fs, id, data, q, fs.root);
    }
  }

  lemma SetDataFacts(fs: Fs, fs1: Fs, p: Id, id: Id, data: string)
    requires OnlyUnder(fs, fs1, p) && id !in fs.nodes && id in fs1.nodes && Fresh(fs1, id + 1)
    ensures var fs2 := SetData(fs1, id, data);
            && OnlyUnder(fs, fs2, p) && Fresh(fs2, id + 1) && fs2.nodes[p] == fs1.nodes[p]
            && id in fs2.nodes && fs2.nodes[id] == fs1.nodes[id].(data := Some(data))
  {
  }

  lemma SetDataAdded(fs: Fs, fs1: Fs, p: Id, id: Id, data: string)
    requires Fresh(fs, id) && Added(fs, fs1, p, id) && id in fs1.nodes && Fresh(fs1, id + 1)
    ensures Added(fs, SetData(fs1, id, data), p, id) && Fresh(SetData(fs1, id, data), id + 1)
  {
    assert id !in fs.nodes;
    SetDataTree(fs1, id, data);
    SetDataKeepsPaths(fs1, id, data);
    SetDataFacts(fs, fs1, p, id, data);
    hide Tree, Fresh, OnlyUnder, SetData, KeepsPaths;
    KeepsTrans(fs, fs1, SetData(fs1, id, data));
  }

  /** A file entry is its new node with the data put in. */
  lemma LeafWritten(fs: Fs, id: Id, path: string, item: Item, fs1: Fs, parent: Option<Id>)
    requires item.Leaf? && Create(fs, FullName(path, item.name), false, fs.root, id) == (fs1, Some(id))
    requires id in fs1.nodes && fs1.nodes[id] == Node(item.name, File, parent, [], None)
    ensures PopulateItem(fs, id, path, item) == (SetData(fs1, id, item.data), id + 1)
    ensures Mirrors(SetData(fs1, id, item.data), id, item)
  {
    hide Create, FullName;
  }

  lemma LeafPopulated(fs: Fs, id: Id, path: string, p: Id, depth: nat, item: Item)
    requires Tree(fs) && Fresh(fs, id) && Place(fs, path, p, depth) && ItemFits(item, |path|, depth) && item.Leaf?
    requires FindChild(fs, p, item.name).None?
    ensures var (fs', next') := PopulateItem(fs, id, path, item);
            Added(fs, fs', p, id) && Fresh(fs', next') && Mirrors(fs', id, item)
  {
    hide Tree, Fresh, FindChild, Added, Create, Insert, Fits, Resolve, PopulateItem, Mirrors, SetData, FullName;
    hide GoodName, Tokens, MeansRoot;
    var fs1 := Insert(fs, p, item.name, File, id);
    CreateEntry(fs, path, p, depth, item.name, false, id);
    InsertAdded(fs, p, item.name, File, id);
    SetDataAdded(fs, fs1, p, id, item.data);
    LeafWritten(fs, id, path, item, fs1, Some(p));
  }

  /** A new directory and then its entries. */
  lemma FolderAdded(fs: Fs, fs1: Fs, fs2: Fs, p: Id, id: Id)
    requires Fresh(fs, id) && Added(fs, fs1, p, id) && Tree(fs2) && KeepsPaths(fs1, fs2) && OnlyUnder(fs1, fs2, id)
    ensures Added(fs, fs2, p, id)
  {
    hide Tree;
    KeepsTrans(fs, fs1, fs2);
    hide KeepsPaths;
    assert p != id && id !in fs.nodes;
  }

  lemma FitsPrefix(items: seq<Item>, len: nat, depth: nat)
    requires items != [] && Fits(items, len, depth)
    ensures Fits(items[..|items| - 1], len, depth) && ItemFits(items[|items| - 1], len, depth)
  {
    hide ItemFits;
  }

  /** None of the entries' names is taken in `p`. */
  ghost predicate NamesFree(fs: Fs, p: Id, items: seq<Item>) {
    p in fs.nodes && forall i, c :: 0 <= i < |items| && c in fs.nodes[p].children ==> NameOf(fs, c) != items[i].name
  }

  lemma ChildNamed(fs: Fs, fs1: Fs, p: Id, items: seq<Item>, len: nat, depth: nat, k: nat)
    requires items != [] && Tree(fs) && NamesFree(fs, p, items) && OnlyUnder(fs, fs1, p)
    requires Fits(items, len, depth) && Grown(fs1, p, items[..|items| - 1], fs.nodes[p].children) && k < |fs1.nodes[p].children|
    ensures NameOf(fs1, fs1.nodes[p].children[k]) != items[|items| - 1].name
  {
    var n := |items| - 1;
    var c := fs1.nodes[p].children[k];
    hide Tree, Fits, ItemFits;
    if k < n {
      assert Mirrors(fs1, fs1.nodes[p].children[n - 1 - (n - 1 - k)], items[..n][n - 1 - k]);
      FitsDiffer(items, len, depth, n - 1 - k);
    } else {
      assert c == fs1.nodes[p].children[n..][k - n];
      ChildYounger(fs, p, c);
    }
  }

  /** After the entries before it, the last entry's name is still free. */
  lemma LastNameFree(fs: Fs, fs1: Fs, p: Id, items: seq<Item>, len: nat, depth: nat)
    requires items != [] && Tree(fs) && Tree(fs1) && NamesFree(fs, p, items) && OnlyUnder(fs, fs1, p)
    requires Fits(items, len, depth) && Grown(fs1, p, items[..|items| - 1], fs.nodes[p].children)
    ensures FindChild(fs1, p, items[|items| - 1].name).None?
  {
    assert p in fs1.nodes;
    var name, ids := items[|items| - 1].name, fs1.nodes[p].children;
    FindChildIs(fs1, p, name);
    hide Tree, Fits, ItemFits, Grown, OnlyUnder, NamesFree, FindChild;
    forall k | 0 <= k < |ids|
      ensures NameOf(fs1, ids[k]) != name
    {
      ChildNamed(fs, fs1, p, items, len, depth, k);
    }
  }

  lemma FitsDiffer(items: seq<Item>, len: nat, depth: nat, i: nat)
    requires Fits(items, len, depth) && i < |items| - 1
    ensures items[i].name != items[|items| - 1].name
  {
  }

  lemma OldEntryKept(fs: Fs, fs': Fs, p: Id, items: seq<Item>, before: seq<Id>, i: nat)
    requires items != [] && i < |items| - 1 && Tree(fs) && Grown(fs, p, items[..|items| - 1], before) && OnlyUnder(fs, fs', p)
    ensures |fs.nodes[p].children| >= |items| - 1
    ensures Mirrors(fs', fs.nodes[p].children[|items| - 2 - i], items[i])
  {
    hide Tree;
    var n, ids := |items| - 1, fs.nodes[p].children;
    assert Mirrors(fs, ids[|items[..n]| - 1 - i], items[..n][i]);
    hide Mirrors;
    ChildYounger(fs, p, ids[n - 1 - i]);
    MirrorsKept(fs, fs', p, ids[n - 1 - i], items[i]);
  }

  /** One more entry in front of a mirror image. */
  lemma GrownStep(fs: Fs, fs': Fs, p: Id, id: Id, items: seq<Item>, before: seq<Id>)
    requires items != [] && Tree(fs) && Grown(fs, p, items[..|items| - 1], before)
    requires Added(fs, fs', p, id) && Mirrors(fs', id, items[|items| - 1])
    ensures Grown(fs', p, items, before)
  {
    hide Mirrors, Tree, KeepsPaths;
    var n := |items| - 1;
    var ids, ids' := fs.nodes[p].children, fs'.nodes[p].children;
    assert ids'[n + 1..] == ids[n..];
    forall i | 0 <= i < |items|
      ensures Mirrors(fs', ids'[|items| - 1 - i], items[i])
    {
      if i < n {
        assert ids'[n - i] == ids[n - 1 - i];
        OldEntryKept(fs, fs', p, items, before, i);
      }
    }
  }

  /** The mirror image of the entries is under `p`, nothing else has changed and no path is lost. */
  ghost predicate Mounted(fs: Fs, fs': Fs, next': Id, p: Id, items: seq<Item>) {
    && Tree(fs') && Fresh(fs', next') && KeepsPaths(fs, fs') && OnlyUnder(fs, fs', p)
    && Grown(fs', p, items, fs.nodes[p].children)
  }

  lemma MountedNone(fs: Fs, next: Id, p: Id)
    requires Tree(fs) && Fresh(fs, next) && p in fs.nodes
    ensures Mounted(fs, fs, next, p, [])
  {
    hide Tree, Fresh;
  }

  lemma OnlyUnderTrans(fs: Fs, fs1: Fs, fs2: Fs, p: Id)
    requires OnlyUnder(fs, fs1, p) && OnlyUnder(fs1, fs2, p)
    ensures OnlyUnder(fs, fs2, p)
  {
  }

  lemma MountedStep(fs: Fs, fs1: Fs, fs2: Fs, id: Id, next: Id, p: Id, items: seq<Item>)
    requires items != [] && Mounted(fs, fs1, id, p, items[..|items| - 1])
    requires Added(fs1, fs2, p, id) && Fresh(fs2, next) && Mirrors(fs2, id, items[|items| - 1])
    ensures Mounted(fs, fs2, next, p, items)
  {
    assert p in fs.nodes;
    hide Tree, Fresh, KeepsPaths, OnlyUnder, Mirrors, Grown;
    GrownStep(fs1, fs2, p, id, items, fs.nodes[p].children);
    KeepsTrans(fs, fs1, fs2);
    OnlyUnderTrans(fs, fs1, fs2, p);
  }

  /** Populating a place puts the mirror image of the entries there. */
  lemma {:induction false} Populated(fs: Fs, next: Id, path: string, p: Id, depth: nat, items: seq<Item>)
    requires Tree(fs) && Fresh(fs, next) && Place(fs, path, p, depth)
    requires Fits(items, |path|, depth) && NamesFree(fs, p, items)
    ensures var (fs', next') := Populate(fs, next, path, items); Mounted(fs, fs', next', p, items)
    decreases items
  {
    if items == [] {
      MountedNone(fs, next, p);
    } else {
      PopulateLast(fs, next, path, items);
      FitsPrefix(items, |path|, depth);
      assert NamesFree(fs, p, items[..|items| - 1]);
      hide Tree, Fresh, Place, Fits, ItemFits, NamesFree, FindChild, Grown, Mirrors, Populate, PopulateItem, OnlyUnder, KeepsPaths;
      var (fs1, next1) := Populate(fs, next, path, items[..|items| - 1]);
      Populated(fs, next, path, p, depth, items[..|items| - 1]);
      PlaceKept(fs, fs1, path, p, depth);
      LastNameFree(fs, fs1, p, items, |path|, depth);
      hide Mounted;
      ItemPopulated(fs1, next1, path, p, depth, items[|items| - 1]);
      var (fs2, next2) := PopulateItem(fs1, next1, path, items[|items| - 1]);
      MountedStep(fs, fs1, fs2, next1, next2, p, items);
    }
  }

  lemma PopulateLast(fs: Fs, next: Id, path: string, items: seq<Item>)
    requires items != []
    ensures var (fs1, next1) := Populate(fs, next, path, items[..|items| - 1]);
            Populate(fs, next, path, items) == PopulateItem(fs1, next1, path, items[|items| - 1])
  {
  }

  lemma NewDirectoryEmpty(fs: Fs, id: Id, items: seq<Item>)
    requires id in fs.nodes && fs.nodes[id].children == []
    ensures NamesFree(fs, id, items)
  {
  }

  lemma {:induction false} ItemPopulated(fs: Fs, id: Id, path: string, p: Id, depth: nat, item: Item)
    requires Tree(fs) && Fresh(fs, id) && Place(fs, path, p, depth) && ItemFits(item, |path|, depth)
    requires FindChild(fs, p, item.name).None?
    ensures var (fs', next') := PopulateItem(fs, id, path, item);
            Added(fs, fs', p, id) && Fresh(fs', next') && Mirrors(fs', id, item)
    decreases item
  {
    if item.Leaf? {
      LeafPopulated(fs, id, path, p, depth, item);
    } else {
      FolderPopulated(fs, id, path, p, depth, item);
    }
  }

  lemma FolderReady(fs: Fs, id: Id, path: string, p: Id, depth: nat, item: Item) returns (fs1: Fs, full: string)
    requires Tree(fs) && Fresh(fs, id) && Place(fs, path, p, depth) && ItemFits(item, |path|, depth) && item.Folder?
    requires FindChild(fs, p, item.name).None?
    ensures PopulateItem(fs, id, path, item) == Populate(fs1, id + 1, full, item.sub.items)
    ensures Tree(fs1) && Fresh(fs1, id + 1) && Added(fs, fs1, p, id) && Place(fs1, full, id, depth + 1)
    ensures Fits(item.sub.items, |full|, depth + 1) && NamesFree(fs1, id, item.sub.items)
    ensures id in fs1.nodes && fs1.nodes[id] == Node(item.name, Dir, Some(p), [], None)
  {
    PlaceFacts(fs, path, p, depth);
    FolderFits(path, depth, item);
    PopulateFolder(fs, id, path, item);
    hide Tree, Fresh, Place, Fits, ItemFits, NamesFree, FindChild, Insert, Create, Resolve, Populate, PopulateItem, Added, FullName;
    full, fs1 := FullName(path, item.name), Insert(fs, p, item.name, Dir, id);
    CreateEntry(fs, path, p, depth, item.name, true, id);
    InsertAdded(fs, p, item.name, Dir, id);
    NewDirectoryEmpty(fs1, id, item.sub.items);
    AddedIsTree(fs, fs1, p, id);
  }

  lemma PlaceFacts(fs: Fs, path: string, p: Id, depth: nat)
    requires Place(fs, path, p, depth)
    ensures path != "" && path[|path| - 1] != '/' && p in fs.nodes && fs.nodes[p].kind == Dir
  {
  }

  lemma FolderFits(path: string, depth: nat, item: Item)
    requires ItemFits(item, |path|, depth) && item.Folder? && path != "" && path[|path| - 1] != '/'
    ensures depth < MAX_TOKENS && GoodName(item.name) && |path| + 1 < PARENT_BUF
    ensures Fits(item.sub.items, |FullName(path, item.name)|, depth + 1)
  {
    FullNameParts(path, item.name);
  }

  lemma PopulateFolder(fs: Fs, id: Id, path: string, item: Item)
    requires item.Folder?
    ensures var full := FullName(path, item.name);
            PopulateItem(fs, id, path, item) == Populate(Create(fs, full, true, fs.root, id).0, id + 1, full, item.sub.items)
  {
  }

  lemma AddedIsTree(fs: Fs, fs': Fs, p: Id, id: Id)
    requires Added(fs, fs', p, id)
    ensures Tree(fs')
  {
  }

  lemma MountedParts(fs1: Fs, fs2: Fs, next: Id, id: Id, item: Item)
    requires item.Folder? && Mounted(fs1, fs2, next, id, item.sub.items)
    requires fs1.nodes[id].name == item.name && fs1.nodes[id].kind == Dir && fs1.nodes[id].children == []
    ensures Tree(fs2) && Fresh(fs2, next) && KeepsPaths(fs1, fs2) && OnlyUnder(fs1, fs2, id) && Mirrors(fs2, id, item)
  {
    hide Tree, Fresh, KeepsPaths;
  }

  lemma {:induction false} FolderPopulated(fs: Fs, id: Id, path: string, p: Id, depth: nat, item: Item)
    requires Tree(fs) && Fresh(fs, id) && Place(fs, path, p, depth) && ItemFits(item, |path|, depth) && item.Folder?
    requires FindChild(fs, p, item.name).None?
    ensures var (fs', next') := PopulateItem(fs, id, path, item);
            Added(fs, fs', p, id) && Fresh(fs', next') && Mirrors(fs', id, item)
    decreases item, 0
  {
    hide Tree, Fresh, Place, Fits, ItemFits, NamesFree, FindChild, Populate, PopulateItem, Added, Mirrors, Mounted, KeepsPaths, OnlyUnder;
    var fs1, full := FolderReady(fs, id, path, p, depth, item);
    Populated(fs1, id + 1, full, id, depth + 1, item.sub.items);
    var (fs2, next2) := Populate(fs1, id + 1, full, item.sub.items);
    assert id in fs1.nodes;
    MountedParts(fs1, fs2, next2, id, item);
    FolderAdded(fs, fs1, fs2, p, id);
  }
}
