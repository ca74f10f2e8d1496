/** The filesystem as linked nodes changed in place, against the tree of Vfs. */
module VfsTree {
  import opened Words
  import opened Strings
  import opened Vfs
  import opened VfsLaws

  /** A vfs_node as it lies in memory: its links are addresses, NULL is 0. */
  datatype Cell = Cell(name: string, kind: Kind, parent: Id, children: Id, next: Id, data: Option<string>)

  type Memory = map<Id, Cell>

  /** The loop that cuts a path into at most 64 tokens. */
  method Tokenize(path: CString) returns (tokens: seq<CString>)
    ensures tokens == Kept(Tokens(path))
  {
    hide Tokens;
    tokens := [];
    var p: nat := 0;
    assert path[0..] == path;
    while CharAt(path, p) != NUL && |tokens| < MAX_TOKENS
      invariant p <= |path| && |tokens| <= MAX_TOKENS
      invariant Tokens(path) == tokens + Tokens(path[p..])
      decreases |path| - p
    {
      p := SkipFrom(path, p);
      if CharAt(path, p) == NUL {
        NoTokens(path[p..]);
        break;
      }
      var q := NameEnd(path, p);
      TokensUnfoldAt(path, p, q);
      tokens := tokens + [path[p..q]];
      p := q;
    }
    if CharAt(path, p) == NUL {
      assert path[p..] == "";
      NoTokens(path[p..]);
    }
  }

  lemma TokensUnfoldAt(path: string, p: nat, q: nat)
    requires p < q <= |path| && '/' !in path[p..q] && (q == |path| || path[q] == '/')
    ensures Tokens(path[p..]) == [path[p..q]] + Tokens(path[q..])
  {
    var t, rest := path[p..q], path[q..];
    assert path[p..] == t + rest && t[0] != '/' by { assert t[0] in t; }
    TokensUnfold(path[p..], t, rest);
  }

  method SkipFrom(path: CString, start: nat) returns (p: nat)
    requires start <= |path|
    ensures start <= p <= |path| && Tokens(path[p..]) == Tokens(path[start..]) && (p < |path| ==> path[p] != '/')
    ensures p == |path| ==> SkipSlashes(path[p..]) == ""
  {
    p := start;
    while CharAt(path, p) == '/'
      invariant start <= p <= |path| && Tokens(path[p..]) == Tokens(path[start..])
      decreases |path| - p
    {
      assert path[p..] == "/" + path[p + 1..];
      TokensSlash(path[p + 1..]);
      p := p + 1;
    }
  }

  method NameEnd(path: CString, p: nat) returns (q: nat)
    requires p < |path| && path[p] != '/'
    ensures p < q <= |path| && '/' !in path[p..q] && (q == |path| || path[q] == '/')
  {
    q := p;
    while CharAt(path, q) != NUL && CharAt(path, q) != '/'
      invariant p <= q <= |path| && '/' !in path[p..q] && (q == p ==> path[q] != '/')
      decreases |path| - q
    {
      q := q + 1;
    }
  }

  function Pointer(o: Option<Id>): Id {
    match o case None => 0 case Some(id) => id
  }

  function PointerAt(ids: seq<Id>, i: nat): Id {
    if i < |ids| then ids[i] else 0
  }

  /** The sibling links run through `ids` in order. */
  predicate Chain(mem: Memory, ids: seq<Id>) {
    forall i {:trigger ids[i] in mem} :: 0 <= i < |ids| ==> ids[i] in mem && mem[ids[i]].next == PointerAt(ids, i + 1)
  }

  predicate CellOk(c: Cell, n: Node) {
    && c.name == n.name && NUL !in c.name && c.kind == n.kind && c.data == n.data
    && c.parent == Pointer(n.parent) && c.children == PointerAt(n.children, 0)
  }

  /** One node's fields, and a directory's list of children. */
  predicate HoldsAt(mem: Memory, fs: Fs, n: Id) {
    n in mem && n in fs.nodes && n != 0 && CellOk(mem[n], fs.nodes[n]) && Chain(mem, fs.nodes[n].children)
  }

  /** Memory holds the tree. */
  ghost predicate Holds(mem: Memory, fs: Fs) {
    Tree(fs) && mem.Keys == fs.nodes.Keys && (forall n :: n in fs.nodes ==> HoldsAt(mem, fs, n))
  }

  lemma ChainElsewhere(mem: Memory, mem': Memory, ids: seq<Id>)
    requires Chain(mem, ids)
    requires forall n :: n in ids && n in mem ==> n in mem' && mem'[n].next == mem[n].next
    ensures Chain(mem', ids)
  {
    forall i | 0 <= i < |ids|
      ensures ids[i] in mem' && mem'[ids[i]].next == PointerAt(ids, i + 1)
    {
      assert ids[i] in mem;
    }
  }

  lemma ChainFront(mem: Memory, ids: seq<Id>, id: Id)
    requires Chain(mem, ids) && id in mem && mem[id].next == PointerAt(ids, 0)
    ensures Chain(mem, [id] + ids)
  {
    var all := [id] + ids;
    forall i | 0 <= i < |all|
      ensures all[i] in mem && mem[all[i]].next == PointerAt(all, i + 1)
    {
      if i > 0 { assert ids[i - 1] in mem; }
    }
  }

  /** What insertion does to the nodes, one by one. */
  ghost predicate Inserted(fs: Fs, fs': Fs, parent: Id, name: string, kind: Kind, id: Id)
    requires parent in fs.nodes
  {
    && fs'.nodes.Keys == fs.nodes.Keys + {id}
    && id in fs'.nodes && parent in fs'.nodes
    && fs'.nodes[id] == Node(name, kind, Some(parent), [], None)
    && fs'.nodes[parent] == fs.nodes[parent].(children := [id] + fs.nodes[parent].children)
    && (forall n :: n in fs.nodes && n != parent ==> n in fs'.nodes && fs'.nodes[n] == fs.nodes[n])
  }

  lemma InsertIs(fs: Fs, parent: Id, name: string, kind: Kind, id: Id)
    requires parent in fs.nodes && id !in fs.nodes
    ensures Inserted(fs, Insert(fs, parent, name, kind, id), parent, name, kind, id)
    ensures Insert(fs, parent, name, kind, id).root == fs.root
  {
  }

  /** The same for memory: a new cell at the head of the parent's list. */
  ghost predicate Linked(mem: Memory, mem': Memory, parent: Id, name: string, kind: Kind, id: Id)
    requires parent in mem
  {
    && mem'.Keys == mem.Keys + {id}
    && id in mem' && parent in mem'
    && mem'[id] == Cell(name, kind, parent, 0, mem[parent].children, None)
    && mem'[parent] == mem[parent].(children := id)
    && (forall n :: n in mem && n != parent ==> n in mem' && mem'[n] == mem[n])
  }

  lemma LinkedNode(mem: Memory, mem': Memory, fs: Fs, fs': Fs, parent: Id, name: string, kind: Kind, id: Id, n: Id)
    requires Holds(mem, fs) && parent in fs.nodes && parent in mem && id !in mem && id != 0 && NUL !in name
    requires Inserted(fs, fs', parent, name, kind, id) && Linked(mem, mem', parent, name, kind, id) && n in fs'.nodes
    ensures HoldsAt(mem', fs', n)
  {
    hide Tree;
    assert HoldsAt(mem, fs, parent);
    if n != id {
      var ids := fs.nodes[n].children;
      assert HoldsAt(mem, fs, n);
      hide Holds;
      ChainElsewhere(mem, mem', ids);
      if n == parent { ChainFront(mem', ids, id); }
    }
  }

  lemma LinkedNodes(mem: Memory, mem': Memory, fs: Fs, fs': Fs, parent: Id, name: string, kind: Kind, id: Id)
    requires Holds(mem, fs) && parent in fs.nodes && parent in mem && id !in mem && id != 0 && NUL !in name
    requires Inserted(fs, fs', parent, name, kind, id) && Linked(mem, mem', parent, name, kind, id) && Tree(fs')
    ensures Holds(mem', fs')
  {
    hide Tree, HoldsAt;
    forall n | n in fs'.nodes
      ensures HoldsAt(mem', fs', n)
    {
      LinkedNode(mem, mem', fs, fs', parent, name, kind, id, n);
    }
  }

  /** The link writes of vfs_create insert the node in front of its parent's children. */
  lemma HoldsInsert(mem: Memory, mem': Memory, fs: Fs, parent: Id, name: string, kind: Kind, id: Id)
    requires Holds(mem, fs) && parent in fs.nodes && fs.nodes[parent].kind == Dir
    requires Fresh(fs, id) && id != 0 && NUL !in name && FindChild(fs, parent, name).None?
    requires parent in mem && Linked(mem, mem', parent, name, kind, id)
    ensures Holds(mem', Insert(fs, parent, name, kind, id)) && Insert(fs, parent, name, kind, id).root == fs.root
  {
    hide Tree, HoldsAt, Insert, Inserted, Linked, FindChild;
    assert id !in fs.nodes && id !in mem;
    InsertTree(fs, parent, name, kind, id);
    InsertIs(fs, parent, name, kind, id);
    LinkedNodes(mem, mem', fs, Insert(fs, parent, name, kind, id), parent, name, kind, id);
  }

  lemma DataNode(mem: Memory, fs: Fs, n: Id, data: string, m: Id)
    requires HoldsAt(mem, fs, n) && HoldsAt(mem, fs, m)
    ensures HoldsAt(mem[n := mem[n].(data := Some(data))], SetData(fs, n, data), m)
  {
    ChainElsewhere(mem, mem[n := mem[n].(data := Some(data))], fs.nodes[m].children);
  }

  /** Storing a file's data changes one node. */
  lemma HoldsData(mem: Memory, mem': Memory, fs: Fs, n: Id, data: string)
    requires Holds(mem, fs) && n in mem && mem' == mem[n := mem[n].(data := Some(data))]
    ensures n in fs.nodes && Holds(mem', SetData(fs, n, data)) && SetData(fs, n, data).root == fs.root
  {
    assert n in fs.nodes && mem'.Keys == mem.Keys;
    SetDataKeys(fs, n, data);
    hide Tree, HoldsAt, SetData;
    forall m | m in fs.nodes
      ensures HoldsAt(mem', SetData(fs, n, data), m)
    {
      DataNode(mem, fs, n, data, m);
    }
  }

  lemma SetDataKeys(fs: Fs, n: Id, data: string)
    requires Tree(fs) && n in fs.nodes
    ensures Tree(SetData(fs, n, data)) && SetData(fs, n, data).nodes.Keys == fs.nodes.Keys && SetData(fs, n, data).root == fs.root
  {
    SetDataTree(fs, n, data);
  }

  method CopyOf(data: seq<char>) returns (copy: string)
    ensures copy == data
  {
    var buf := new char[|data| + 1](_ => NUL);
    for i := 0 to |data|
      invariant buf[..i] == data[..i]
    {
      buf[i] := data[i];
    }
    buf[|data|] := NUL;
    copy := buf[..|data|];
  }

  // ---------------------------------------------------------------- printing a path

  function Reversed(parts: seq<CString>): seq<CString> {
    seq(|parts|, i requires 0 <= i < |parts| => parts[|parts| - 1 - i])
  }

  lemma ReversedCons(parts: seq<CString>, name: CString)
    ensures Reversed(parts + [name]) == [name] + Reversed(parts)
  {
  }

  lemma NamesStep(fs: Fs, cur: Id)
    requires Tree(fs) && cur in fs.nodes && cur != fs.root
    ensures var p := fs.nodes[cur].parent;
            p.Some? && p.value in fs.nodes && NamesTo(fs, cur) == NamesTo(fs, p.value) + [fs.nodes[cur].name]
  {
    assert ParentOk(fs, cur);
  }

  /** One step towards the root. */
  lemma Upwards(fs: Fs, cur: Id, parts: seq<CString>)
    requires Tree(fs) && cur in fs.nodes && cur != fs.root && NUL !in fs.nodes[cur].name
    ensures var p := fs.nodes[cur].parent;
            p.Some? && p.value in fs.nodes
            && NamesTo(fs, cur) + Reversed(parts) == NamesTo(fs, p.value) + Reversed(parts + [fs.nodes[cur].name])
  {
    NamesStep(fs, cur);
    ReversedCons(parts, fs.nodes[cur].name);
    hide Tree, NamesTo, Reversed;
    var up, name, rest := NamesTo(fs, fs.nodes[cur].parent.value), [fs.nodes[cur].name], Reversed(parts);
    assert up + name + rest == up + (name + rest);
  }

  /** What a buffer of this size shows of a text. */
  function Cut(text: string, size: nat): string
    requires size > 0
  {
    if |text| < size then text else text[..size - 1]
  }

  /** The buffer holds the text and its NUL; the bytes behind are as before. */
  ghost predicate Shows(buf: array<char>, text: string, before: seq<char>)
    reads buf
  {
    |text| < buf.Length == |before| && buf[..] == text + [NUL] + before[|text| + 1..]
  }

  function NearNames(fs: Fs, n: Id): seq<string>
    requires Tree(fs) && n in fs.nodes
  {
    var names := NamesTo(fs, n);
    if |names| > MAX_TOKENS then names[|names| - MAX_TOKENS..] else names
  }

  lemma NothingYet(fs: Fs, n: Id)
    requires Tree(fs) && n in fs.nodes
    ensures NamesTo(fs, n) == NamesTo(fs, n) + Reversed([])
  {
  }

  lemma NearNamesAre(fs: Fs, n: Id, cur: Id, parts: seq<CString>)
    requires Tree(fs) && n in fs.nodes && cur in fs.nodes && |parts| <= MAX_TOKENS
    requires NamesTo(fs, n) == NamesTo(fs, cur) + Reversed(parts)
    requires cur == fs.root || |parts| == MAX_TOKENS
    ensures Reversed(parts) == NearNames(fs, n)
  {
    assert |Reversed(parts)| == |parts|;
    if cur == fs.root { assert NamesTo(fs, cur) == []; }
  }

  lemma GetPathIs(fs: Fs, n: Id, size: nat)
    requires Tree(fs) && n in fs.nodes && n != fs.root && size > 0
    ensures Vfs.GetPath(fs, n, size) == Cut(Join(NearNames(fs, n)), size)
  {
  }

  lemma {:induction false} JoinPrefix(names: seq<string>, i: nat)
    requires i <= |names|
    ensures Join(names[..i]) <= Join(names)
    decreases |names|
  {
    if i < |names| {
      var n := |names| - 1;
      JoinPrefix(names[..n], i);
      assert names[..n][..i] == names[..i];
    } else {
      assert names[..i] == names;
    }
  }

  /** Text that already fills the buffer hides whatever follows it. */
  lemma CutFull(pre: string, full: string, size: nat)
    requires size > 0 && pre <= full && (pre == full || |Cut(pre, size)| + 1 == size)
    ensures Cut(full, size) == Cut(pre, size)
  {
    assert |pre| < size ==> pre[..|pre|] == pre;
  }

  /** The names, last part first, each behind a slash, as far as the buffer reaches. */
  method WriteNames(parts: seq<CString>, buf: array<char>)
    requires buf.Length > 0
    modifies buf
    ensures Shows(buf, Cut(Join(Reversed(parts)), buf.Length), old(buf[..]))
  {
    hide Shows, Join, Reversed;
    ghost var names: seq<string> := Reversed(parts);
    ReversedAt(parts);
    EmptyJoin(names, buf.Length);
    var off: nat, i: nat := 0, 0;
    while i < |parts| && off + 1 < buf.Length
      invariant i <= |parts| && off < buf.Length && buf[off..] == old(buf[off..])
      invariant buf[..off] == Cut(Join(names[..i]), buf.Length)
      decreases |parts| - i
    {
      var name := parts[|parts| - 1 - i];
      ghost var pre := Join(names[..i]);
      JoinStep(names, i);
      off := WriteName(name, buf, off, pre);
      i := i + 1;
    }
    assert names[..|names|] == names;
    JoinPrefix(names, i);
    CutFull(Join(names[..i]), Join(names), buf.Length);
    Terminate(buf, off, Cut(Join(names), buf.Length), old(buf[..]));
  }

  /** The NUL behind the text. */
  method Terminate(buf: array<char>, off: nat, ghost text: string, ghost before: seq<char>)
    requires off < buf.Length == |before| && buf[..off] == text && buf[off..] == before[off..]
    modifies buf
    ensures Shows(buf, text, before)
  {
    ghost var tail := buf[off..];
    buf[off] := NUL;
    assert buf[off + 1..] == tail[1..] == before[off..][1..] == before[off + 1..];
    assert buf[..] == buf[..off] + [NUL] + buf[off + 1..];
  }

  lemma ReversedAt(parts: seq<CString>)
    ensures |Reversed(parts)| == |parts| && forall i :: 0 <= i < |parts| ==> Reversed(parts)[i] == parts[|parts| - 1 - i]
  {
  }

  lemma EmptyJoin(names: seq<string>, size: nat)
    requires size > 0
    ensures Cut(Join(names[..0]), size) == ""
  {
  }

  lemma JoinStep(names: seq<string>, i: nat)
    requires i < |names|
    ensures Join(names[..i + 1]) == Join(names[..i]) + "/" + names[i]
  {
    assert names[..i + 1][..i] == names[..i];
  }

  /** A slash and one name behind the text so far. */
  method WriteName(name: CString, buf: array<char>, start: nat, ghost pre: string) returns (off: nat)
    requires start + 1 < buf.Length && buf[..start] == Cut(pre, buf.Length)
    modifies buf
    ensures off < buf.Length && buf[..off] == Cut(pre + "/" + name, buf.Length) && buf[off..] == old(buf[off..])
  {
    buf[start] := '/';
    off := start + 1;
    var j: nat := 0;
    while CharAt(name, j) != NUL && off + 1 < buf.Length
      invariant j <= |name| && off == start + 1 + j < buf.Length
      invariant buf[..off] == pre + "/" + name[..j] && buf[off..] == old(buf[off..])
      decreases |name| - j
    {
      buf[off] := name[j];
      off, j := off + 1, j + 1;
    }
  }

  lemma ChainAt(mem: Memory, ids: seq<Id>, i: nat)
    requires Chain(mem, ids) && i < |ids|
    ensures ids[i] in mem && mem[ids[i]].next == PointerAt(ids, i + 1) && ids[i] in ids
  {
  }

  lemma FirstNamedStep(fs: Fs, ids: seq<Id>, i: nat, name: string)
    requires i < |ids| && ids[i] in fs.nodes
    ensures FirstNamed(fs, ids[i..], name) == if NameOf(fs, ids[i]) == name then Some(ids[i]) else FirstNamed(fs, ids[i + 1..], name)
  {
    assert ids[i..][1..] == ids[i + 1..];
  }

  lemma NothingNamed(fs: Fs, ids: seq<Id>, i: nat, name: string)
    requires i == |ids|
    ensures FirstNamed(fs, ids[i..], name) == None
  {
  }

  class Filesystem {
    var mem: Memory
    var root: Id
    ghost var model: Fs

    ghost predicate Valid()
      reads this
    {
      Holds(mem, model) && root == model.root
    }

    /** vfs_init, as far as the root directory. */
    constructor (id: Id)
      requires id != 0
      ensures Valid() && model == RootOnly(id)
    {
      root := id;
      mem := map[id := Cell("", Dir, 0, 0, 0, None)];
      model := RootOnly(id);
    }

    lemma CellFacts(n: Id)
      requires Valid() && n in mem
      ensures n in model.nodes && n != 0 && (forall c :: c in model.nodes[n].children ==> c in model.nodes) && CellOk(mem[n], model.nodes[n]) && Chain(mem, model.nodes[n].children)
      ensures model.nodes[n].parent.Some? ==> model.nodes[n].parent.value in mem && model.nodes[n].parent.value != 0
      ensures forall c :: c in model.nodes[n].children ==> c in mem && c != 0 && mem[c].name == NameOf(model, c) && NUL !in mem[c].name
    {
      assert HoldsAt(mem, model, n) && ParentOk(model, n) && ChildrenOk(model, n);
      forall c | c in model.nodes[n].children
        ensures c in mem && c != 0 && mem[c].name == NameOf(model, c) && NUL !in mem[c].name
      {
        assert HoldsAt(mem, model, c);
      }
    }

    lemma RootHere()
      requires Valid()
      ensures root in mem && root != 0 && root == model.root
    {
      assert HoldsAt(mem, model, root);
    }

    /** The loop over the children; 0 for NULL. */
    method FindChild(dir: Id, name: CString) returns (r: Id)
      requires Valid() && (dir != 0 ==> dir in mem)
      ensures r == if dir == 0 then 0 else Pointer(Vfs.FindChild(model, dir, name))
      ensures r != 0 ==> r in mem && Vfs.FindChild(model, dir, name) == Some(r)
      ensures dir != 0 && r == 0 ==> Vfs.FindChild(model, dir, name) == None
    {
      if dir == 0 || mem[dir].kind != Dir {
        if dir != 0 { CellFacts(dir); }
        return 0;
      }
      CellFacts(dir);
      hide Valid, Holds, Chain;
      r := FirstChild(mem[dir].children, name, model.nodes[dir].children);
    }

    method FirstChild(first: Id, name: CString, ghost ids: seq<Id>) returns (r: Id)
      requires Chain(mem, ids) && first == PointerAt(ids, 0)
      requires forall c :: c in ids ==> c in mem && c != 0 && c in model.nodes && mem[c].name == NameOf(model, c) && NUL !in mem[c].name
      ensures r == Pointer(FirstNamed(model, ids, name)) && (r == 0 ==> FirstNamed(model, ids, name) == None)
      ensures r != 0 ==> r in mem && FirstNamed(model, ids, name) == Some(r)
    {
      hide Chain, FirstNamed;
      var c := first;
      ghost var i: nat := 0;
      assert ids[0..] == ids && (ids != [] ==> ids[0] in ids);
      while c != 0
        invariant i <= |ids| && c == PointerAt(ids, i) && (i < |ids| ==> c != 0)
        invariant FirstNamed(model, ids, name) == FirstNamed(model, ids[i..], name)
        decreases |ids| - i
      {
        assert i + 1 < |ids| ==> ids[i + 1] in ids;
        ChainAt(mem, ids, i);
        FirstNamedStep(model, ids, i, name);
        var d := Strcmp(mem[c].name, name);
        if d == 0 { return c; }
        c := mem[c].next;
        i := i + 1;
      }
      NothingNamed(model, ids, i, name);
      return 0;
    }

    method ResolveTokens(start: Id, tokens: seq<CString>) returns (r: Id)
      requires Valid() && start in mem
      ensures r == Pointer(Vfs.ResolveTokens(model, start, tokens)) && (r != 0 ==> r in mem)
      ensures r == 0 ==> Vfs.ResolveTokens(model, start, tokens) == None
    {
      hide Holds;
      var cur := start;
      var i: nat := 0;
      assert tokens[0..] == tokens;
      while i < |tokens|
        invariant i <= |tokens| && cur in mem
        invariant Vfs.ResolveTokens(model, start, tokens) == Vfs.ResolveTokens(model, cur, tokens[i..])
      {
        CellFacts(cur);
        assert tokens[i..][1..] == tokens[i + 1..];
        var tok := tokens[i];
        var dot := Strcmp(tok, ".");
        if CharAt(tok, 0) != NUL && dot != 0 {
          var dots := Strcmp(tok, "..");
          if dots == 0 {
            if mem[cur].parent != 0 { cur := mem[cur].parent; }
          } else {
            var child := FindChild(cur, tok);
            if child == 0 { return 0; }
            cur := child;
          }
        }
        i := i + 1;
      }
      CellFacts(cur);
      return cur;
    }

    /** A NULL start means the root. */
    function Origin(start: Id): Id
      reads `root
    {
      if start == 0 then root else start
    }

    method Resolve(path: CString, start: Id) returns (r: Id)
      requires Valid() && (start != 0 ==> start in mem)
      ensures r == Pointer(Vfs.Resolve(model, path, Origin(start)))
      ensures r != 0 ==> r in mem
      ensures r == 0 ==> Vfs.Resolve(model, path, Origin(start)) == None
    {
      hide Valid, Holds, Tokens, Kept, Vfs.ResolveTokens;
      RootHere();
      if CharAt(path, 0) == '/' && (CharAt(path, 1) == NUL || CharAt(path, 1) == '\n') { return root; }
      hide Pointer;
      assert !MeansRoot(path);
      var from, rest := Origin(start), path;
      if CharAt(path, 0) == '/' {
        from := root;
        rest := path[1..];
        assert path == "/" + rest;
        TokensSlash(rest);
      }
      var tokens := Tokenize(rest);
      r := ResolveTokens(from, tokens);
    }

    /** The length without trailing slashes, then the start of the last name. */
    method LastNameAt(path: CString) returns (pos: nat)
      ensures pos == NamePos(path)
    {
      var len: nat := |path|;
      while len > 1 && path[len - 1] == '/'
        invariant len <= |path| && StrippedLen(path, len) == StrippedLen(path, |path|)
      {
        len := len - 1;
      }
      pos := len;
      while pos > 0 && path[pos - 1] != '/'
        invariant pos <= len && NameStart(path, pos) == NameStart(path, len)
      {
        pos := pos - 1;
      }
    }

    /** What vfs_create copies into its 256-byte buffer. */
    method CopyParent(path: CString, pos: nat) returns (text: CString)
      requires pos == NamePos(path)
      ensures text == ParentPath(path)
    {
      if pos == 0 {
        text := if CharAt(path, 0) == '/' then "/" else ".";
      } else {
        text := path[..if pos >= PARENT_BUF then PARENT_BUF - 1 else pos];
      }
    }

    /** vfs_create, with the address kmalloc gives to a new node. */
    method Create(path: CString, isDir: bool, start: Id, id: Id) returns (r: Id)
      requires Valid() && (start != 0 ==> start in mem)
      requires Fresh(model, id) && id != 0
      modifies `mem, `model
      ensures Valid()
      ensures var (after, n) := Vfs.Create(old(model), path, isDir, Origin(start), id);
              model == after && r == Pointer(n)
      ensures r != 0 ==> r in mem
      ensures old(mem).Keys <= mem.Keys
    {
      hide Valid, Holds, ParentPath, Vfs.Resolve, Vfs.FindChild, Insert;
      var pos := LastNameAt(path);
      var name := path[pos..];
      assert name == LastName(path);
      hide LastName, NamePos;
      var parentPath := CopyParent(path, pos);
      var parent := Resolve(parentPath, start);
      if parent == 0 { return 0; }
      CellFacts(parent);
      if mem[parent].kind != Dir { return 0; }
      var existing := FindChild(parent, name);
      if existing != 0 { return existing; }
      Link(parent, name, if isDir then Dir else File, id);
      return id;
    }

    /** A new node, linked at the head of its parent's children. */
    method Link(parent: Id, name: CString, kind: Kind, id: Id)
      requires Valid() && parent in mem && parent in model.nodes && model.nodes[parent].kind == Dir
      requires Fresh(model, id) && id != 0 && Vfs.FindChild(model, parent, name) == None
      modifies `mem, `model
      ensures Valid() && mem.Keys == old(mem).Keys + {id}
      ensures model == Insert(old(model), parent, name, kind, id)
    {
      hide Linked, Vfs.FindChild, Insert, HoldsAt, Tree;
      assert id !in model.nodes && id !in mem;
      hide Holds, Fresh;
      ghost var was := mem;
      WriteLinks(parent, name, kind, id);
      HoldsInsert(was, mem, model, parent, name, kind, id);
      model := Insert(model, parent, name, kind, id);
    }

    method WriteLinks(parent: Id, name: CString, kind: Kind, id: Id)
      requires parent in mem && id !in mem
      modifies `mem
      ensures Linked(old(mem), mem, parent, name, kind, id) && mem.Keys == old(mem).Keys + {id}
    {
      mem := mem[id := Cell(name, kind, 0, 0, 0, None)];
      mem := mem[id := mem[id].(parent := parent)];
      mem := mem[id := mem[id].(next := mem[parent].children)];
      mem := mem[parent := mem[parent].(children := id)];
    }

    /** vfs_write_file; the bytes go into a new buffer. */
    method WriteFile(path: CString, data: seq<char>, start: Id, id: Id) returns (r: int)
      requires Valid() && (start != 0 ==> start in mem)
      requires Fresh(model, id) && id != 0
      modifies `mem, `model
      ensures Valid()
      ensures (model, r) == Vfs.WriteFile(old(model), path, data, Origin(start), id)
    {
      var n := Create(path, false, start, id);
      if n == 0 { return -1; }
      CellFacts(n);
      if mem[n].kind != File { return -1; }
      var buf := CopyOf(data);
      hide Vfs.Create;
      Store(n, buf);
      return 0;
    }

    method Store(n: Id, data: string)
      requires Valid() && n in mem && n in model.nodes
      modifies `mem, `model
      ensures Valid() && model == SetData(old(model), n, data)
    {
      hide Holds, SetData, Tree, HoldsAt, CellOk, Chain;
      HoldsData(mem, mem[n := mem[n].(data := Some(data))], model, n, data);
      mem := mem[n := mem[n].(data := Some(data))];
      model := SetData(model, n, data);
    }

    /** vfs_read_file; the size is the length. */
    method ReadFile(path: CString, start: Id) returns (r: Option<string>)
      requires Valid() && (start != 0 ==> start in mem)
      ensures r == Vfs.ReadFile(model, path, Origin(start))
    {
      var n := Resolve(path, start);
      if n == 0 { return None; }
      CellFacts(n);
      hide Holds, Vfs.Resolve;
      return if mem[n].kind != File then None else mem[n].data;
    }

    /** The names from the node upwards, at most 64. */
    method Ancestors(node: Id) returns (parts: seq<CString>)
      requires Valid() && node in mem && node in model.nodes
      ensures Reversed(parts) == NearNames(model, node)
    {
      hide NamesTo, Reversed, Tree, DepthOf, HoldsAt;
      parts := [];
      var cur := node;
      NothingYet(model, node);
      while cur != 0 && cur != root && |parts| < MAX_TOKENS
        invariant cur in mem && cur in model.nodes && |parts| <= MAX_TOKENS
        invariant NamesTo(model, node) == NamesTo(model, cur) + Reversed(parts)
        decreases MAX_TOKENS - |parts|
      {
        CellFacts(cur);
        Upwards(model, cur, parts);
        parts := parts + [mem[cur].name];
        cur := mem[cur].parent;
      }
      CellFacts(cur);
      NearNamesAre(model, node, cur, parts);
    }

    method GetPath(node: Id, buf: array<char>)
      requires Valid() && node in mem && node in model.nodes && buf.Length > 0
      modifies buf
      ensures Tree(model) && Shows(buf, Vfs.GetPath(model, node, buf.Length), old(buf[..]))
    {
      hide Tree, HoldsAt;
      var parts := Ancestors(node);
      hide Valid, Shows, Reversed;
      if node == root {
        WriteRoot(buf);
      } else {
        GetPathIs(model, node, buf.Length);
        hide Vfs.GetPath;
        WriteNames(parts, buf);
      }
    }
  }

  method WriteRoot(buf: array<char>)
    requires buf.Length > 0
    modifies buf
    ensures Shows(buf, if buf.Length < 2 then "" else "/", old(buf[..]))
  {
    if buf.Length >= 2 {
      buf[0], buf[1] := '/', NUL;
    } else {
      buf[0] := NUL;
    }
  }
}
