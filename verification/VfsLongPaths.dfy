/**
 vfs_create on paths whose parent part does not fit its 256-byte buffer: the node is made where the first
 255 characters lead.
 */
module VfsLongPaths {
  import opened Words
  import opened Vfs
  import opened VfsLaws

  /** Where the path without its last name leads. */
  function Before(fs: Fs, p: string, start: Id): Option<Id> {
    Resolve(fs, p[..NamePos(p)], start)
  }

  /** Where the part of it that fits the buffer leads. */
  function Cut(fs: Fs, p: string, start: Id): Option<Id>
    requires NamePos(p) >= PARENT_BUF
  {
    Resolve(fs, p[..PARENT_BUF - 1], start)
  }

  lemma BeforeIs(fs: Fs, p: string, start: Id)
    requires NamePos(p) >= PARENT_BUF && !MeansRoot(p)
    ensures Before(fs, p, start) == ResolveTokens(fs, From(fs, p, start), Kept(Tokens(p[..NamePos(p)])))
  {
    hide ResolveTokens, Tokens, NamePos;
    var q := p[..NamePos(p)];
    assert q[0] == p[0] && q[1] == p[1];
  }

  /** Resolving a long path is resolving what precedes the last name and following the last token, while there is room. */
  lemma LongStep(fs: Fs, p: string, start: Id)
    requires NamePos(p) >= PARENT_BUF && !MeansRoot(p)
    ensures LastToken(p) != ""
    ensures Resolve(fs, p, start) ==
            if |Tokens(p[..NamePos(p)])| >= MAX_TOKENS then Before(fs, p, start)
            else match Before(fs, p, start) case None => None case Some(d) => Follow(fs, d, LastToken(p))
  {
    LongToken(p);
    BeforeIs(fs, p, start);
    TokensLast(p);
    hide Tokens, ResolveTokens, Follow, NamePos, Before, LastToken;
    var before, t := Tokens(p[..NamePos(p)]), LastToken(p);
    if |before| >= MAX_TOKENS {
      assert Kept(Tokens(p)) == Kept(before);
    } else {
      assert Kept(Tokens(p)) == before + [t];
      ResolveAppend(fs, From(fs, p, start), before, [t]);
      if d :| Before(fs, p, start) == Some(d) { ResolveOne(fs, d, t); }
    }
  }

  lemma LongToken(p: string)
    requires NamePos(p) >= PARENT_BUF
    ensures LastToken(p) != ""
  {
    StrippedIs(p, |p|);
  }

  /** A child of `parent` is what following `t` from `d` gives. */
  lemma FollowedTo(fs: Fs, parent: Id, n: Id, d: Id, t: string)
    requires Tree(fs) && parent in fs.nodes && n in fs.nodes[parent].children && d in fs.nodes && t != ""
    ensures Follow(fs, d, t) == Some(n) <==>
            if t == "." then d == n
            else if t == ".." then fs.nodes[d].parent == Some(n)
            else d == parent && NameOf(fs, n) == t
  {
    assert ChildrenOk(fs, parent) && ChildrenOk(fs, d) && ParentOk(fs, d);
    FindChildIs(fs, d, t);
  }

  /** What was created is a child, by its last name, of where the cut path leads before and after. */
  lemma CreatedUnderCut(fs: Fs, p: string, isDir: bool, start: Id, id: Id)
    requires Tree(fs) && Fresh(fs, id) && start in fs.nodes && NamePos(p) >= PARENT_BUF
    requires Create(fs, p, isDir, start, id).1.Some?
    ensures var (fs', n) := Create(fs, p, isDir, start, id);
            && Tree(fs') && start in fs'.nodes && Cut(fs, p, start).Some? && Cut(fs', p, start) == Cut(fs, p, start)
            && var parent := Cut(fs, p, start).value;
               parent in fs'.nodes && n.value in fs'.nodes[parent].children && NameOf(fs', n.value) == LastName(p)
  {
    ParentResolves(fs, p, start);
    CreateTree(fs, p, isDir, start, id);
    CreateKeepsOthers(fs, p, isDir, start, id, p[..PARENT_BUF - 1], start);
    KeepsStart(fs, p, isDir, start, id);
    var parent := Resolve(fs, ParentPath(p), start).value;
    FindChildIs(fs, parent, LastName(p));
  }

  lemma KeepsStart(fs: Fs, p: string, isDir: bool, start: Id, id: Id)
    requires start in fs.nodes
    ensures start in Create(fs, p, isDir, start, id).0.nodes
  {
    hide Resolve, FindChild;
  }

  /** In the filesystem after the call: when a long path leads to the node `n` that was created for it. */
  ghost predicate FoundLong(fs: Fs, p: string, start: Id, n: Id)
    requires NamePos(p) >= PARENT_BUF
  {
    var d, t := Before(fs, p, start), LastToken(p);
    && !MeansRoot(p)
    && if |Tokens(p[..NamePos(p)])| >= MAX_TOKENS || t == "." then d == Some(n)
       else if t == ".." then d.Some? && d.value in fs.nodes && fs.nodes[d.value].parent == Some(n)
       else p[|p| - 1] != '/' && d == Cut(fs, p, start)
  }

  lemma FoundLongAt(fs: Fs, p: string, start: Id, parent: Id, n: Id)
    requires Tree(fs) && start in fs.nodes && NamePos(p) >= PARENT_BUF && Cut(fs, p, start) == Some(parent)
    requires parent in fs.nodes && n in fs.nodes[parent].children && NameOf(fs, n) == LastName(p)
    ensures Resolve(fs, p, start) == Some(n) <==> FoundLong(fs, p, start, n)
  {
    if MeansRoot(p) {
      NotTheRoot(fs, parent, n);
    } else {
      LongStep(fs, p, start);
      ResolveIn(fs, p[..NamePos(p)], start);
      LastNameIs(p);
      hide Tokens, Resolve, Follow, NamePos, Tree, LastName, LastToken;
      if d :| Before(fs, p, start) == Some(d) {
        FollowedTo(fs, parent, n, d, LastToken(p));
      }
    }
  }

  // ---------------------------------------------------------------- the same, seen from before the call

  /** Where a walk is after the call: at a node that was there before, at the new one, or nowhere. */
  datatype Spot = At(node: Id) | AtNew | Nowhere

  /** One token, when `parent` is about to get a child `name` if it has none. */
  function StepTo(fs: Fs, parent: Id, name: string, s: Spot, tok: string): Spot {
    match s
    case Nowhere => Nowhere
    case AtNew => if tok == "" || tok == "." then AtNew else if tok == ".." then At(parent) else Nowhere
    case At(cur) =>
      match Follow(fs, cur, tok)
      case Some(c) => At(c)
      case None => if cur == parent && tok == name then AtNew else Nowhere
  }

  function WalkTo(fs: Fs, parent: Id, name: string, s: Spot, toks: seq<string>): Spot
    decreases |toks|
  {
    if toks == [] then s else WalkTo(fs, parent, name, StepTo(fs, parent, name, s, toks[0]), toks[1..])
  }

  function NodeAt(s: Spot, id: Id): Option<Id> {
    match s case At(m) => Some(m) case AtNew => Some(id) case Nowhere => None
  }

  /** The old nodes keep their parents, so none of them is a child of the new one. */
  lemma NewHasNoChild(fs: Fs, parent: Id, name: string, kind: Kind, id: Id, m: Id)
    requires Tree(fs) && Fresh(fs, id) && parent in fs.nodes && m in fs.nodes
    ensures var fs' := Insert(fs, parent, name, kind, id);
            m in fs'.nodes && fs'.nodes[m].parent == fs.nodes[m].parent != Some(id)
  {
    assert ParentOk(fs, m);
  }

  lemma StepIs(fs: Fs, parent: Id, name: string, kind: Kind, id: Id, s: Spot, tok: string)
    requires Tree(fs) && Fresh(fs, id) && parent in fs.nodes && fs.nodes[parent].kind == Dir && FindChild(fs, parent, name).None?
    requires s != Nowhere && (s.At? ==> s.node in fs.nodes)
    ensures var s' := StepTo(fs, parent, name, s, tok);
            NodeAt(s', id) == Follow(Insert(fs, parent, name, kind, id), NodeAt(s, id).value, tok) && (s'.At? ==> s'.node in fs.nodes)
  {
    hide Tree, Fresh, FindChild, Insert;
    if s.At? {
      NewHasNoChild(fs, parent, name, kind, id, s.node);
      InsertFindChild(fs, parent, name, kind, id, s.node, tok);
      FollowStays(fs, s.node, tok);
    } else {
      NewIsEmpty(fs, parent, name, kind, id, tok);
    }
  }

  lemma NewIsEmpty(fs: Fs, parent: Id, name: string, kind: Kind, id: Id, tok: string)
    requires parent in fs.nodes
    ensures var fs' := Insert(fs, parent, name, kind, id);
            id in fs'.nodes && fs'.nodes[id].parent == Some(parent) && FindChild(fs', id, tok) == None
  {
  }

  lemma {:induction false} NowhereStays(fs: Fs, parent: Id, name: string, toks: seq<string>)
    ensures WalkTo(fs, parent, name, Nowhere, toks) == Nowhere
    decreases |toks|
  {
    if toks != [] { NowhereStays(fs, parent, name, toks[1..]); }
  }

  /** The walk in the filesystem with the new node. */
  lemma {:induction false} WalkIs(fs: Fs, parent: Id, name: string, kind: Kind, id: Id, s: Spot, toks: seq<string>)
    requires Tree(fs) && Fresh(fs, id) && parent in fs.nodes && fs.nodes[parent].kind == Dir && FindChild(fs, parent, name).None?
    requires s != Nowhere && (s.At? ==> s.node in fs.nodes)
    ensures var s' := WalkTo(fs, parent, name, s, toks);
            NodeAt(s', id) == ResolveTokens(Insert(fs, parent, name, kind, id), NodeAt(s, id).value, toks) && (s'.At? ==> s'.node in fs.nodes)
    decreases |toks|
  {
    hide Tree, Fresh, FindChild, Insert, Follow, StepTo;
    if toks != [] {
      StepIs(fs, parent, name, kind, id, s, toks[0]);
      var s1 := StepTo(fs, parent, name, s, toks[0]);
      if s1 == Nowhere {
        NowhereStays(fs, parent, name, toks[1..]);
      } else {
        WalkIs(fs, parent, name, kind, id, s1, toks[1..]);
      }
    }
  }

  /** A walk that ends, that never asks for the name, or that finds it there, is the walk before the call. */
  lemma {:induction false} WalkAsBefore(fs: Fs, parent: Id, name: string, cur: Id, toks: seq<string>)
    requires ResolveTokens(fs, cur, toks).Some? || name !in toks || FindChild(fs, parent, name).Some?
    ensures WalkTo(fs, parent, name, At(cur), toks) ==
            match ResolveTokens(fs, cur, toks) case Some(m) => At(m) case None => Nowhere
    decreases |toks|
  {
    if toks != [] {
      if c :| Follow(fs, cur, toks[0]) == Some(c) {
        hide FindChild;
        assert forall t :: t in toks[1..] ==> t in toks;
        WalkAsBefore(fs, parent, name, c, toks[1..]);
      } else {
        assert StepTo(fs, parent, name, At(cur), toks[0]) == Nowhere;
        NowhereStays(fs, parent, name, toks[1..]);
      }
    }
  }

  /** Where the path without its last name will lead after the call. */
  function Ahead(fs: Fs, p: string, start: Id): Spot
    requires NamePos(p) >= PARENT_BUF && Cut(fs, p, start).Some?
  {
    WalkTo(fs, Cut(fs, p, start).value, LastName(p), At(From(fs, p, start)), Kept(Tokens(p[..NamePos(p)])))
  }

  /** What the call returns. */
  function Target(fs: Fs, p: string, start: Id): Spot
    requires NamePos(p) >= PARENT_BUF && Cut(fs, p, start).Some?
  {
    match FindChild(fs, Cut(fs, p, start).value, LastName(p)) case Some(n) => At(n) case None => AtNew
  }

  /** The exact condition on the filesystem before the call, for every long path. */
  predicate WillBeFound(fs: Fs, p: string, start: Id)
    requires NamePos(p) >= PARENT_BUF && Cut(fs, p, start).Some?
  {
    var s, target, t := Ahead(fs, p, start), Target(fs, p, start), LastToken(p);
    && !MeansRoot(p)
    && if |Tokens(p[..NamePos(p)])| >= MAX_TOKENS || t == "." then s == target
       else if t == ".." then s.At? && target.At? && s.node in fs.nodes && fs.nodes[s.node].parent == Some(target.node)
       else p[|p| - 1] != '/' && s == At(Cut(fs, p, start).value)
  }

  lemma CreateLong(fs: Fs, p: string, isDir: bool, start: Id, id: Id)
    requires Tree(fs) && start in fs.nodes && NamePos(p) >= PARENT_BUF && Create(fs, p, isDir, start, id).1.Some?
    ensures Cut(fs, p, start).Some?
    ensures var (parent, name, kind) := (Cut(fs, p, start).value, LastName(p), if isDir then Dir else File);
            && parent in fs.nodes && fs.nodes[parent].kind == Dir
            && Create(fs, p, isDir, start, id) == match FindChild(fs, parent, name)
                                                   case Some(n) => (fs, Some(n))
                                                   case None => (Insert(fs, parent, name, kind, id), Some(id))
  {
    hide FindChild, Insert, LastName, Resolve, Tree;
  }

  lemma AheadIs(fs: Fs, p: string, isDir: bool, start: Id, id: Id)
    requires Tree(fs) && Fresh(fs, id) && start in fs.nodes && NamePos(p) >= PARENT_BUF && !MeansRoot(p)
    requires Cut(fs, p, start).Some? && Create(fs, p, isDir, start, id).1.Some?
    ensures var ((fs', n), s, target) := (Create(fs, p, isDir, start, id), Ahead(fs, p, start), Target(fs, p, start));
            && Before(fs', p, start) == NodeAt(s, id) && NodeAt(target, id) == n
            && (s.At? ==> s.node in fs.nodes) && (target.At? ==> fs' == fs && s != AtNew)
            && (target == AtNew ==> fs' == Insert(fs, Cut(fs, p, start).value, LastName(p), if isDir then Dir else File, id))
  {
    CreateLong(fs, p, isDir, start, id);
    RootIn(fs);
    var fs' := Create(fs, p, isDir, start, id).0;
    BeforeIs(fs', p, start);
    hide Tree, Fresh, FindChild, Create, Insert, Cut, Before, ResolveTokens, Tokens, Kept, LastName, WalkTo, NamePos;
    var parent, name, toks, from := Cut(fs, p, start).value, LastName(p), Kept(Tokens(p[..NamePos(p)])), From(fs, p, start);
    if FindChild(fs, parent, name).Some? {
      WalkAsBefore(fs, parent, name, from, toks);
      ResolveStays(fs, from, toks);
    } else {
      assert From(fs', p, start) == from by { InsertRoot(fs, parent, name, if isDir then Dir else File, id); }
      WalkIs(fs, parent, name, if isDir then Dir else File, id, At(from), toks);
    }
  }

  lemma InsertRoot(fs: Fs, parent: Id, name: string, kind: Kind, id: Id)
    requires parent in fs.nodes
    ensures Insert(fs, parent, name, kind, id).root == fs.root
  {
  }

  lemma ChildIn(fs: Fs, dir: Id, name: string)
    requires Tree(fs) && dir in fs.nodes
    ensures var r := FindChild(fs, dir, name); r.Some? ==> r.value in fs.nodes
  {
    FindChildIs(fs, dir, name);
    assert ChildrenOk(fs, dir);
  }

  /** vfs_create followed by vfs_resolve on a long path, in terms of the filesystem before the call. */
  lemma CreateThenResolveLong(fs: Fs, p: string, isDir: bool, start: Id, id: Id)
    requires Tree(fs) && Fresh(fs, id) && start in fs.nodes && NamePos(p) >= PARENT_BUF
    requires Create(fs, p, isDir, start, id).1.Some?
    ensures Cut(fs, p, start).Some?
    ensures var (fs', n) := Create(fs, p, isDir, start, id);
            Resolve(fs', p, start) == n <==> WillBeFound(fs, p, start)
  {
    hide Tree, Fresh, Resolve, FindChild, Insert, Create, FoundLong, WillBeFound, Tokens, NamePos, LastName;
    var (fs', n) := Create(fs, p, isDir, start, id);
    CreatedUnderCut(fs, p, isDir, start, id);
    FoundLongAt(fs', p, start, Cut(fs, p, start).value, n.value);
    SameCondition(fs, p, isDir, start, id);
  }

  lemma SameCondition(fs: Fs, p: string, isDir: bool, start: Id, id: Id)
    requires Tree(fs) && Fresh(fs, id) && start in fs.nodes && NamePos(p) >= PARENT_BUF
    requires Cut(fs, p, start).Some? && Create(fs, p, isDir, start, id).1.Some?
    ensures var (fs', n) := Create(fs, p, isDir, start, id);
            FoundLong(fs', p, start, n.value) <==> WillBeFound(fs, p, start)
  {
    hide Tree, Fresh, Resolve, FindChild, Insert, Create, Before, Cut, Ahead, Target, Tokens, NamePos, LastName, LastToken;
    if !MeansRoot(p) {
      CreatedUnderCut(fs, p, isDir, start, id);
      AheadIs(fs, p, isDir, start, id);
      AheadNodes(fs, p, isDir, start, id);
    }
  }

  /** The nodes of both spots are old, so neither is the new one, and their parents are as before. */
  lemma AheadNodes(fs: Fs, p: string, isDir: bool, start: Id, id: Id)
    requires Tree(fs) && Fresh(fs, id) && start in fs.nodes && NamePos(p) >= PARENT_BUF && !MeansRoot(p)
    requires Cut(fs, p, start).Some? && Create(fs, p, isDir, start, id).1.Some?
    ensures var (fs', s, target) := (Create(fs, p, isDir, start, id).0, Ahead(fs, p, start), Target(fs, p, start));
            && Cut(fs, p, start).value != id && target != Nowhere && (target.At? ==> target.node != id)
            && (s.At? ==> s.node in fs.nodes && s.node != id && s.node in fs'.nodes && fs'.nodes[s.node].parent == fs.nodes[s.node].parent)
            && (s.At? && target == AtNew ==> fs.nodes[s.node].parent != Some(id))
            && (s == AtNew ==> id in fs'.nodes ==> fs'.nodes[id].parent != Some(id))
  {
    hide Tree, Resolve, FindChild, Insert, Create, Cut, Ahead, NamePos, LastName;
    var parent, name, kind := Cut(fs, p, start).value, LastName(p), if isDir then Dir else File;
    CreateLong(fs, p, isDir, start, id);
    ChildIn(fs, parent, name);
    AheadIs(fs, p, isDir, start, id);
    var s := Ahead(fs, p, start);
    if Target(fs, p, start) == AtNew {
      if s.At? { NewHasNoChild(fs, parent, name, kind, id, s.node); }
      NewIsEmpty(fs, parent, name, kind, id, name);
    }
  }

  /** When the path without its last name will lead to the directory in which the node is made. */
  predicate LeadsTogether(fs: Fs, p: string, start: Id)
    requires NamePos(p) >= PARENT_BUF
  {
    Cut(fs, p, start).Some? && Ahead(fs, p, start) == At(Cut(fs, p, start).value)
  }

  /**
   vfs_create followed by vfs_resolve on a good path of any length: the node is found again if and only if
   the parent part fits the buffer, or the part that fits leads to the directory that all of it will lead to.
   */
  lemma GoodPathFound(fs: Fs, p: string, isDir: bool, start: Id, id: Id)
    requires Tree(fs) && Fresh(fs, id) && start in fs.nodes && GoodPath(p)
    requires Create(fs, p, isDir, start, id).1.Some?
    ensures var (fs', n) := Create(fs, p, isDir, start, id);
            Resolve(fs', p, start) == n <==> NamePos(p) < PARENT_BUF || LeadsTogether(fs, p, start)
  {
    if NamePos(p) < PARENT_BUF {
      CreateThenResolve(fs, p, isDir, start, id);
    } else {
      CreateThenResolveLong(fs, p, isDir, start, id);
      GoodLong(p);
      hide Create, Resolve, Tokens, Ahead, Cut, LastToken, NamePos;
    }
  }

  lemma GoodLong(p: string)
    requires GoodPath(p) && NamePos(p) >= PARENT_BUF
    ensures |Tokens(p[..NamePos(p)])| < MAX_TOKENS && LastToken(p) != "." && LastToken(p) != ".."
  {
    hide Tokens, NamePos, StrippedLen;
    LongToken(p);
    TokensLast(p);
    LastNameIs(p);
  }

  /** So a successful write is read back under every good path whose fitting part leads to its directory. */
  lemma WriteThenReadAny(fs: Fs, p: string, data: string, start: Id, id: Id)
    requires Tree(fs) && Fresh(fs, id) && start in fs.nodes && GoodPath(p) && WriteFile(fs, p, data, start, id).1 == 0
    requires NamePos(p) < PARENT_BUF || LeadsTogether(fs, p, start)
    ensures ReadFile(WriteFile(fs, p, data, start, id).0, p, start) == Some(data)
  {
    CreateTree(fs, p, false, start, id);
    GoodPathFound(fs, p, false, start, id);
    KeepsStart(fs, p, false, start, id);
    hide Create, Resolve, Tree, Fresh, GoodPath, NamePos, LeadsTogether;
    var (fs1, n) := Create(fs, p, false, start, id);
    SetDataResolve(fs1, n.value, data, p, start);
  }

  /**
   The usual case: the real parent is there, or is not but would not come about by the new node either. The
   node is found again if and only if both parts lead to one directory; if the real parent is missing it never is.
   */
  lemma Misplaced(fs: Fs, p: string, isDir: bool, start: Id, id: Id)
    requires Tree(fs) && Fresh(fs, id) && start in fs.nodes && GoodPath(p) && NamePos(p) >= PARENT_BUF
    requires Before(fs, p, start).Some? || LastName(p) !in Tokens(p[..NamePos(p)])
    requires Create(fs, p, isDir, start, id).1.Some?
    ensures var (fs', n) := Create(fs, p, isDir, start, id);
            Resolve(fs', p, start) == n <==> Before(fs, p, start) == Cut(fs, p, start)
  {
    GoodPathFound(fs, p, isDir, start, id);
    CreateLong(fs, p, isDir, start, id);
    BeforeIs(fs, p, start);
    hide Tree, Fresh, Create, Resolve, FindChild, Before, Cut, ResolveTokens, Tokens, LastName, NamePos, WalkTo;
    var before := Tokens(p[..NamePos(p)]);
    assert forall t :: t in Kept(before) ==> t in before;
    WalkAsBefore(fs, Cut(fs, p, start).value, LastName(p), From(fs, p, start), Kept(before));
  }

  /** Two levels down by name. */
  lemma TwoDown(fs: Fs, a: string, b: string, da: Id, db: Id, start: Id)
    requires Tree(fs) && GoodName(a) && GoodName(b) && a[0] != '\n'
    requires FindChild(fs, fs.root, a) == Some(da) && FindChild(fs, da, b) == Some(db)
    ensures Resolve(fs, "/" + a + "/" + b, start) == Some(db)
  {
    hide Tree, FindChild, Tokens, ResolveTokens;
    TwoTokens(a, b);
    TwoFollowed(fs, a, b, da);
    assert Kept([a, b]) == [a, b];
  }

  lemma TwoTokens(a: string, b: string)
    requires GoodName(a) && GoodName(b) && a[0] != '\n'
    ensures var p := "/" + a + "/" + b; Tokens(p) == [a, b] && Absolute(p) && !MeansRoot(p)
  {
    hide Tokens, Join;
    TokensJoin([a, b]);
    JoinTwo(a, b);
  }

  lemma TwoFollowed(fs: Fs, a: string, b: string, da: Id)
    requires GoodName(a) && GoodName(b) && FindChild(fs, fs.root, a) == Some(da)
    ensures ResolveTokens(fs, fs.root, [a, b]) == FindChild(fs, da, b)
  {
    hide FindChild;
    ResolveOne(fs, da, b);
    assert [a, b][1..] == [b];
  }

  lemma JoinTwo(a: string, b: string)
    ensures Join([a, b]) == "/" + a + "/" + b
  {
    assert [a, b][..1] == [a] && [a][..0] == [];
    assert Join([a]) == "" + "/" + a == "/" + a;
  }

  lemma JoinThree(a: string, b: string, c: string)
    ensures Join([a, b, c]) == "/" + a + "/" + b + "/" + c
  {
    assert [a, b, c][..2] == [a, b];
    JoinTwo(a, b);
  }

  /**
   A failing family: "/" and 200 characters, then a directory of which the first 53 characters name another
   one. The file "x" is made in that other directory and not found.
   */
  lemma WrongDirectory(fs: Fs, a: string, b: string, c: string, da: Id, db: Id, dc: Id, id: Id)
    requires Tree(fs) && Fresh(fs, id) && |a| == 200 && |b| == 53 && GoodName(a) && GoodName(b) && c != "" && '/' !in c && a[0] != '\n'
    requires FindChild(fs, fs.root, a) == Some(da) && FindChild(fs, da, b) == Some(db) && FindChild(fs, da, b + c) == Some(dc)
    requires db in fs.nodes && fs.nodes[db].kind == Dir && FindChild(fs, db, "x") == None
    ensures var p := "/" + a + "/" + (b + c) + "/x";
            var (fs', n) := Create(fs, p, false, fs.root, id);
            && n == Some(id) && fs' == Insert(fs, db, "x", File, id) && Resolve(fs', p, fs.root) != Some(id)
  {
    hide Resolve, Insert, FindChild, Tree, NamePos, Create, GoodPath, Fresh, Before, Cut, ParentPath, LastName;
    var dir, p := "/" + a + "/" + (b + c), "/" + a + "/" + (b + c) + "/x";
    XIsLast(dir);
    assert dir[..PARENT_BUF - 1] == "/" + a + "/" + b;
    BeforeSlash(fs, dir, fs.root);
    TwoDown(fs, a, b, da, db, fs.root);
    LongerName(b, c);
    TwoDown(fs, a, b + c, da, dc, fs.root);
    XIsGood(a, b + c);
    DifferentNames(fs, da, b, b + c, db, dc);
    CreateInserts(fs, p, db, id);
    RootIn(fs);
    CutIs(fs, p, fs.root);
    Misplaced(fs, p, false, fs.root, id);
  }

  lemma LongerName(b: string, c: string)
    requires Plain(b) && |b| > 2 && '/' !in c
    ensures GoodName(b + c) && (c != "" ==> b != b + c)
  {
    if c != "" { assert |b + c| > |b|; }
  }

  lemma RootIn(fs: Fs)
    requires Tree(fs)
    ensures fs.root in fs.nodes
  {
  }

  lemma CutIs(fs: Fs, p: string, start: Id)
    requires NamePos(p) >= PARENT_BUF
    ensures Cut(fs, p, start) == Resolve(fs, ParentPath(p), start)
  {
  }

  lemma CreateInserts(fs: Fs, p: string, d: Id, id: Id)
    requires Resolve(fs, ParentPath(p), fs.root) == Some(d) && d in fs.nodes && fs.nodes[d].kind == Dir
    requires FindChild(fs, d, LastName(p)).None?
    ensures Create(fs, p, false, fs.root, id) == (Insert(fs, d, LastName(p), File, id), Some(id))
  {
  }

  lemma XIsLast(dir: string)
    requires |dir| >= PARENT_BUF - 1
    ensures var p := dir + "/x"; NamePos(p) == |dir| + 1 && LastName(p) == "x" && p[..NamePos(p)] == dir + "/"
    ensures ParentPath(dir + "/x") == dir[..PARENT_BUF - 1]
  {
    var p := dir + "/x";
    assert StrippedLen(p, |p|) == |p| && p[|p| - 2] == '/';
    assert NameStart(p, |p|) == NameStart(p, |p| - 1) == |p| - 1;
    assert p[..|dir| + 1] == dir + "/" && p[|dir| + 1..] == "x";
    assert p[..PARENT_BUF - 1] == dir[..PARENT_BUF - 1];
  }

  lemma BeforeSlash(fs: Fs, dir: string, start: Id)
    requires |dir| >= PARENT_BUF - 1 && !MeansRoot(dir)
    ensures Before(fs, dir + "/x", start) == Resolve(fs, dir, start)
  {
    XIsLast(dir);
    hide Tokens, ResolveTokens, NamePos;
    TokensAppend(dir, "/");
    SlashHasNoTokens();
    assert Tokens(dir + "/") == Tokens(dir);
    assert !MeansRoot(dir + "/") && Absolute(dir + "/") == Absolute(dir);
  }

  lemma XIsGood(a: string, b: string)
    requires GoodName(a) && GoodName(b) && a[0] != '\n' && |a| + |b| + 2 >= PARENT_BUF - 1
    ensures GoodPath("/" + a + "/" + b + "/x")
  {
    var dir := "/" + a + "/" + b;
    XIsLast(dir);
    TokensJoin([a, b, "x"]);
    JoinThree(a, b, "x");
    assert dir + "/x" == dir + "/" + "x";
  }

  lemma DifferentNames(fs: Fs, dir: Id, a: string, b: string, x: Id, y: Id)
    requires Tree(fs) && a != b && FindChild(fs, dir, a) == Some(x) && FindChild(fs, dir, b) == Some(y)
    ensures x != y
  {
    FindChildIs(fs, dir, a);
    FindChildIs(fs, dir, b);
  }
}
