/** Laws of lookup, creation and path printing. */
module VfsLaws {
  import opened Words
  import opened Vfs

  // ---------------------------------------------------------------- tokens

  predicate Plain(name: string) {
    name != "" && '/' !in name
  }

  lemma {:induction false} FirstNameIs(name: string, rest: string)
    requires '/' !in name && (rest == "" || rest[0] == '/')
    ensures FirstName(name + rest) == name
  {
    if name == "" {
      assert name + rest == rest;
    } else {
      assert (name + rest)[1..] == name[1..] + rest;
      FirstNameIs(name[1..], rest);
    }
  }

  /** A plain name at the front of a path is its first token. */
  lemma TokensCons(name: string, rest: string)
    requires Plain(name) && (rest == "" || rest[0] == '/')
    ensures Tokens(name + rest) == [name] + Tokens(rest)
  {
    var p := name + rest;
    assert p[0] == name[0];
    FirstNameIs(name, rest);
    assert p[|name|..] == rest;
  }

  lemma TokensSlash(p: string)
    ensures Tokens("/" + p) == Tokens(p)
  {
    assert ("/" + p)[1..] == p;
    assert SkipSlashes("/" + p) == SkipSlashes(p);
  }

  /** A path splits into its first name and a rest that begins with a slash or is empty. */
  lemma {:induction false} FirstNameSplit(p: string)
    ensures var t := FirstName(p);
            && '/' !in t && t == p[..|t|] && (p[|t|..] == "" || p[|t|..][0] == '/')
  {
    if p != "" && p[0] != '/' {
      FirstNameSplit(p[1..]);
      var t := FirstName(p[1..]);
      assert p[1..][|t|..] == p[1 + |t|..];
    }
  }

  lemma {:induction false} SkipAppend(p: string, q: string)
    ensures SkipSlashes(p + q) == if SkipSlashes(p) == "" then SkipSlashes(q) else SkipSlashes(p) + q
  {
    if p == "" {
      assert p + q == q;
    } else if p[0] == '/' {
      assert (p + q)[1..] == p[1..] + q;
      SkipAppend(p[1..], q);
    }
  }

  /** One step of the splitting loop. */
  lemma TokensUnfold(p: string, t: string, rest: string)
    requires SkipSlashes(p) == t + rest && Plain(t) && (rest == "" || rest[0] == '/')
    ensures Tokens(p) == [t] + Tokens(rest)
  {
    FirstNameIs(t, rest);
    assert (t + rest)[|t|..] == rest;
  }

  /** The tokens of two paths joined at a slash. */
  lemma {:induction false} TokensAppend(p: string, q: string)
    requires q == "" || q[0] == '/'
    ensures Tokens(p + q) == Tokens(p) + Tokens(q)
    decreases |p|
  {
    hide Tokens, FirstName, SkipSlashes;
    var s := SkipSlashes(p);
    SkipAppend(p, q);
    if s != "" {
      var t := FirstName(s);
      FirstNameSplit(s);
      var rest := s[|t|..];
      assert s == t + rest && s + q == t + (rest + q);
      TokensAppend(rest, q);
      TokensUnfold(p, t, rest);
      assert rest + q == "" || (rest + q)[0] == '/';
      TokensUnfold(p + q, t, rest + q);
      hide Plain;
      assert [t] + (Tokens(rest) + Tokens(q)) == [t] + Tokens(rest) + Tokens(q);
    } else {
      NoTokens(p);
      TokensSkip(p + q);
      TokensSkip(q);
    }
  }

  lemma NoTokens(p: string)
    requires SkipSlashes(p) == ""
    ensures Tokens(p) == []
  {
  }

  lemma TokensSkip(p: string)
    ensures Tokens(p) == Tokens(SkipSlashes(p))
  {
    SkipTwice(p);
  }

  lemma {:induction false} SkipTwice(p: string)
    ensures SkipSlashes(SkipSlashes(p)) == SkipSlashes(p)
  {
    if p != "" && p[0] == '/' {
      SkipTwice(p[1..]);
    }
  }

  /** Printing names with slashes and splitting again gives the names back. */
  lemma {:induction false} TokensJoin(names: seq<string>)
    requires forall i :: 0 <= i < |names| ==> Plain(names[i])
    ensures Tokens(Join(names)) == names
    ensures names != [] ==> Join(names) != "" && Join(names)[0] == '/'
    decreases |names|
  {
    if names != [] {
      hide Tokens;
      var n := |names| - 1;
      var last := names[n];
      TokensJoin(names[..n]);
      assert Join(names) == Join(names[..n]) + ("/" + last);
      TokensAppend(Join(names[..n]), "/" + last);
      TokensSlash(last);
      TokensCons(last, "");
      assert last + "" == last;
    }
  }

  // ---------------------------------------------------------------- resolving

  /** Resolving a list of tokens in two parts. */
  lemma {:induction false} ResolveAppend(fs: Fs, cur: Id, a: seq<string>, b: seq<string>)
    ensures ResolveTokens(fs, cur, a + b) ==
            match ResolveTokens(fs, cur, a) case None => None case Some(mid) => ResolveTokens(fs, mid, b)
    decreases |a|
  {
    if a == [] {
      assert a + b == b;
    } else {
      var next := Follow(fs, cur, a[0]);
      assert (a + b)[1..] == a[1..] + b;
      if next.Some? { ResolveAppend(fs, next.value, a[1..], b); }
    }
  }

  /** Resolving p/q is resolving q from wherever p leads. */
  lemma ResolveComposes(fs: Fs, p: string, q: string, start: Id)
    requires p != "" && !Absolute(q)
    requires Absolute(p) ==> |p| == 1 || p[1] != '\n'
    requires |Tokens(p)| + |Tokens(q)| <= MAX_TOKENS
    ensures Resolve(fs, p + "/" + q, start) ==
            match Resolve(fs, p, start) case None => None case Some(mid) => Resolve(fs, q, mid)
  {
    hide Tokens, ResolveTokens;
    var whole := p + "/" + q;
    assert whole == p + ("/" + q);
    TokensAppend(p, "/" + q);
    TokensSlash(q);
    ResolveAppend(fs, From(fs, p, start), Tokens(p), Tokens(q));
    assert From(fs, whole, start) == From(fs, p, start) && !MeansRoot(whole);
    if p == "/" {
      SlashHasNoTokens();
      ResolveNothing(fs, fs.root);
    }
  }

  lemma SlashHasNoTokens()
    ensures Tokens("/") == []
  {
    assert "/" + "" == "/";
    TokensSlash("");
  }

  lemma ResolveNothing(fs: Fs, cur: Id)
    ensures ResolveTokens(fs, cur, []) == Some(cur)
  {
  }

  lemma {:induction false} FirstNamedIs(fs: Fs, ids: seq<Id>, name: string)
    requires forall i :: 0 <= i < |ids| ==> ids[i] in fs.nodes
    ensures var r := FirstNamed(fs, ids, name);
            if r.Some? then r.value in ids && NameOf(fs, r.value) == name
            else forall i :: 0 <= i < |ids| ==> NameOf(fs, ids[i]) != name
  {
    if ids != [] {
      FirstNamedIs(fs, ids[1..], name);
      assert ids == [ids[0]] + ids[1..];
    }
  }

  /** In a tree, lookup by name finds exactly the child with that name. */
  lemma FindChildIs(fs: Fs, dir: Id, name: string)
    requires Tree(fs) && dir in fs.nodes
    ensures forall c :: FindChild(fs, dir, name) == Some(c) <==> c in fs.nodes[dir].children && NameOf(fs, c) == name
    ensures FindChild(fs, dir, name).None? <==> fs.nodes[dir].kind == File || forall c :: c in fs.nodes[dir].children ==> NameOf(fs, c) != name
  {
    var ids := fs.nodes[dir].children;
    assert ChildrenOk(fs, dir) && NamesDiffer(fs, ids);
    assert forall i :: 0 <= i < |ids| ==> ids[i] in ids;
    FirstNamedIs(fs, ids, name);
  }

  lemma FollowStays(fs: Fs, cur: Id, tok: string)
    requires Tree(fs) && cur in fs.nodes
    ensures var r := Follow(fs, cur, tok); r.Some? ==> r.value in fs.nodes
  {
    assert ParentOk(fs, cur) && ChildrenOk(fs, cur);
    FindChildIs(fs, cur, tok);
  }

  lemma {:induction false} ResolveStays(fs: Fs, cur: Id, toks: seq<string>)
    requires Tree(fs) && cur in fs.nodes
    ensures var r := ResolveTokens(fs, cur, toks); r.Some? ==> r.value in fs.nodes
    decreases |toks|
  {
    if toks != [] {
      FollowStays(fs, cur, toks[0]);
      var next := Follow(fs, cur, toks[0]);
      if next.Some? { ResolveStays(fs, next.value, toks[1..]); }
    }
  }

  // ---------------------------------------------------------------- printing a path and resolving it

  predicate GoodName(name: string) {
    Plain(name) && name != "." && name != ".."
  }

  predicate NoNewlineFirst(names: seq<string>) {
    names != [] && names[0] != "" ==> names[0][0] != '\n'
  }

  /** Walking the names down from the root leads back to the node. */
  lemma {:induction false} NamesLeadBack(fs: Fs, n: Id)
    requires Tree(fs) && n in fs.nodes
    requires forall i :: 0 <= i < |NamesTo(fs, n)| ==> GoodName(NamesTo(fs, n)[i])
    ensures ResolveTokens(fs, fs.root, NamesTo(fs, n)) == Some(n)
    decreases n
  {
    if n != fs.root {
      assert ParentOk(fs, n);
      var p := fs.nodes[n].parent.value;
      var name := fs.nodes[n].name;
      var names := NamesTo(fs, n);
      assert names[|names| - 1] == name;
      assert forall i :: 0 <= i < |NamesTo(fs, p)| ==> NamesTo(fs, p)[i] == names[i];
      NamesLeadBack(fs, p);
      ResolveAppend(fs, fs.root, NamesTo(fs, p), [name]);
      FindChildIs(fs, p, name);
    }
  }

  /**
   vfs_get_path followed by vfs_resolve gives the node back, from any start: for depth at most 64, good
   names, a first name that does not begin with a newline, and a buffer longer than the path.
   */
  lemma PathRoundTrip(fs: Fs, n: Id, bufLen: nat, start: Id)
    requires Tree(fs) && n in fs.nodes
    requires DepthOf(fs, n) <= MAX_TOKENS && |FullPath(fs, n)| < bufLen
    requires forall i :: 0 <= i < |NamesTo(fs, n)| ==> GoodName(NamesTo(fs, n)[i])
    requires NoNewlineFirst(NamesTo(fs, n))
    ensures Resolve(fs, GetPath(fs, n, bufLen), start) == Some(n)
  {
    if n != fs.root {
      var names := NamesTo(fs, n);
      var p := Join(names);
      TokensJoin(names);
      NamesLeadBack(fs, n);
      JoinStart(names);
      assert GetPath(fs, n, bufLen) == p;
      assert !MeansRoot(p);
    }
  }

  lemma {:induction false} JoinStart(names: seq<string>)
    requires names != [] && names[0] != ""
    ensures |Join(names)| >= 2 && Join(names)[0] == '/' && Join(names)[1] == names[0][0]
    decreases |names|
  {
    var n := |names| - 1;
    if n == 0 {
      assert Join(names[..0]) == "";
      assert Join(names) == "/" + names[0];
    } else {
      JoinStart(names[..n]);
    }
  }

  // ---------------------------------------------------------------- creation

  lemma InsertTree(fs: Fs, parent: Id, name: string, kind: Kind, id: Id)
    requires Tree(fs) && Fresh(fs, id) && parent in fs.nodes && fs.nodes[parent].kind == Dir
    requires FindChild(fs, parent, name).None?
    ensures Tree(Insert(fs, parent, name, kind, id))
  {
    var fs' := Insert(fs, parent, name, kind, id);
    FindChildIs(fs, parent, name);
    forall n | n in fs'.nodes
      ensures ParentOk(fs', n) && ChildrenOk(fs', n) && NamesDiffer(fs', fs'.nodes[n].children)
    {
      if n != id {
        InsertNodeOk(fs, parent, name, kind, id, n);
      }
    }
  }

  lemma InsertNodeOk(fs: Fs, parent: Id, name: string, kind: Kind, id: Id, n: Id)
    requires Tree(fs) && Fresh(fs, id) && parent in fs.nodes && fs.nodes[parent].kind == Dir && n in fs.nodes
    requires forall c :: c in fs.nodes[parent].children ==> NameOf(fs, c) != name
    ensures var fs' := Insert(fs, parent, name, kind, id);
            ParentOk(fs', n) && ChildrenOk(fs', n) && NamesDiffer(fs', fs'.nodes[n].children)
  {
    var fs' := Insert(fs, parent, name, kind, id);
    assert ParentOk(fs, n) && ChildrenOk(fs, n) && NamesDiffer(fs, fs.nodes[n].children);
    var ids, ids' := fs.nodes[n].children, fs'.nodes[n].children;
    assert ids' == if n == parent then [id] + ids else ids;
    InsertNames(fs, fs', ids, ids', id);
  }

  lemma InsertNames(fs: Fs, fs': Fs, ids: seq<Id>, ids': seq<Id>, id: Id)
    requires NamesDiffer(fs, ids) && (ids' == ids || ids' == [id] + ids)
    requires forall c :: c in ids ==> NameOf(fs', c) == NameOf(fs, c)
    requires ids' != ids ==> forall c :: c in ids ==> NameOf(fs, c) != NameOf(fs', id)
    ensures NamesDiffer(fs', ids')
  {
    var k := |ids'| - |ids|;
    forall i, j | 0 <= i < j < |ids'|
      ensures NameOf(fs', ids'[i]) != NameOf(fs', ids'[j])
    {
      assert ids'[j] == ids[j - k] && ids[j - k] in ids;
      if i >= k { assert ids'[i] == ids[i - k] && ids[i - k] in ids; }
    }
  }

  /** Creation keeps the tree, whatever the path. */
  lemma CreateTree(fs: Fs, p: string, isDir: bool, start: Id, id: Id)
    requires Tree(fs) && Fresh(fs, id) && start in fs.nodes
    ensures var (fs', n) := Create(fs, p, isDir, start, id);
            Tree(fs') && (n.Some? ==> n.value in fs'.nodes)
  {
    ParentResolves(fs, p, start);
    var parent := Resolve(fs, ParentPath(p), start);
    if parent.Some? && fs.nodes[parent.value].kind == Dir {
      FindChildIs(fs, parent.value, LastName(p));
      if FindChild(fs, parent.value, LastName(p)).None? {
        InsertTree(fs, parent.value, LastName(p), if isDir then Dir else File, id);
      } else {
        assert ChildrenOk(fs, parent.value);
      }
    }
  }

  lemma ParentResolves(fs: Fs, p: string, start: Id)
    requires Tree(fs) && start in fs.nodes
    ensures var r := Resolve(fs, ParentPath(p), start); r.Some? ==> r.value in fs.nodes
  {
    ResolveStays(fs, From(fs, ParentPath(p), start), Kept(Tokens(ParentPath(p))));
  }

  lemma {:induction false} FirstNamedSame(fs: Fs, fs': Fs, ids: seq<Id>, name: string)
    requires forall c :: c in ids ==> c in fs.nodes && c in fs'.nodes && fs'.nodes[c].name == fs.nodes[c].name
    ensures FirstNamed(fs', ids, name) == FirstNamed(fs, ids, name)
  {
    if ids != [] {
      FirstNamedSame(fs, fs', ids[1..], name);
    }
  }

  lemma InsertFindChild(fs: Fs, parent: Id, name: string, kind: Kind, id: Id, cur: Id, tok: string)
    requires Tree(fs) && Fresh(fs, id) && parent in fs.nodes && fs.nodes[parent].kind == Dir && cur in fs.nodes
    ensures FindChild(Insert(fs, parent, name, kind, id), cur, tok) ==
            if cur == parent && tok == name then Some(id) else FindChild(fs, cur, tok)
  {
    var fs' := Insert(fs, parent, name, kind, id);
    var ids := fs.nodes[cur].children;
    assert ChildrenOk(fs, cur);
    assert fs'.nodes[cur].children == if cur == parent then [id] + ids else ids;
    assert ([id] + ids)[1..] == ids;
    FirstNamedSame(fs, fs', ids, tok);
  }

  /** One token after an insertion: as before, unless it now finds the new node. */
  lemma InsertFollow(fs: Fs, parent: Id, name: string, kind: Kind, id: Id, cur: Id, tok: string)
    requires Tree(fs) && Fresh(fs, id) && parent in fs.nodes && fs.nodes[parent].kind == Dir
    requires FindChild(fs, parent, name).None? && cur in fs.nodes
    ensures var (r, r') := (Follow(fs, cur, tok), Follow(Insert(fs, parent, name, kind, id), cur, tok));
            r' == r || (r.None? && r' == Some(id))
  {
    InsertFindChild(fs, parent, name, kind, id, cur, tok);
  }

  /** Every other resolution is unchanged; only a walk that comes to the new node can differ. */
  lemma {:induction false} InsertKeepsOthers(fs: Fs, parent: Id, name: string, kind: Kind, id: Id, cur: Id, toks: seq<string>)
    requires Tree(fs) && Fresh(fs, id) && parent in fs.nodes && fs.nodes[parent].kind == Dir
    requires FindChild(fs, parent, name).None? && cur in fs.nodes
    ensures var (r, r') := (ResolveTokens(fs, cur, toks), ResolveTokens(Insert(fs, parent, name, kind, id), cur, toks));
            && (r.Some? ==> r' == r)
            && (r' != r ==> exists k :: 0 < k <= |toks| && ResolveTokens(Insert(fs, parent, name, kind, id), cur, toks[..k]) == Some(id))
    decreases |toks|
  {
    hide Follow, Insert, FindChild, Tree, Fresh;
    if toks != [] {
      var fs' := Insert(fs, parent, name, kind, id);
      InsertFollow(fs, parent, name, kind, id, cur, toks[0]);
      FollowStays(fs, cur, toks[0]);
      var next, next' := Follow(fs, cur, toks[0]), Follow(fs', cur, toks[0]);
      if next.Some? {
        InsertKeepsOthers(fs, parent, name, kind, id, next.value, toks[1..]);
        if k :| 0 < k <= |toks[1..]| && ResolveTokens(fs', next.value, toks[1..][..k]) == Some(id) {
          assert toks[..k + 1][1..] == toks[1..][..k];
          assert ResolveTokens(fs', cur, toks[..k + 1]) == Some(id);
        }
      } else if next'.Some? {
        assert toks[..1][1..] == [];
        assert ResolveTokens(fs', cur, toks[..1]) == Some(id);
      }
    }
  }

  /** What vfs_create does to the resolution of any path from any node. */
  lemma CreateKeepsOthers(fs: Fs, p: string, isDir: bool, start: Id, id: Id, q: string, from: Id)
    requires Tree(fs) && Fresh(fs, id) && start in fs.nodes && from in fs.nodes
    ensures var fs' := Create(fs, p, isDir, start, id).0;
            && (Resolve(fs, q, from).Some? ==> Resolve(fs', q, from) == Resolve(fs, q, from))
            && (Resolve(fs', q, from) != Resolve(fs, q, from) ==>
                  exists k :: 0 < k <= |Kept(Tokens(q))| && ResolveTokens(fs', From(fs, q, from), Kept(Tokens(q))[..k]) == Some(id))
  {
    var fs' := Create(fs, p, isDir, start, id).0;
    ParentResolves(fs, p, start);
    if fs' != fs {
      var parent := Resolve(fs, ParentPath(p), start).value;
      InsertKeepsOthers(fs, parent, LastName(p), if isDir then Dir else File, id, From(fs, q, from), Kept(Tokens(q)));
    }
  }

  /** Creating the same path again returns the same node and changes nothing. */
  lemma CreateTwice(fs: Fs, p: string, isDir: bool, isDir2: bool, start: Id, id: Id, id2: Id)
    requires Tree(fs) && Fresh(fs, id) && start in fs.nodes
    requires Create(fs, p, isDir, start, id).1.Some?
    ensures var (fs', n) := Create(fs, p, isDir, start, id);
            Create(fs', p, isDir2, start, id2) == (fs', n)
  {
    var (fs', n) := Create(fs, p, isDir, start, id);
    ParentResolves(fs, p, start);
    CreateKeepsOthers(fs, p, isDir, start, id, ParentPath(p), start);
    CreateTree(fs, p, isDir, start, id);
    var parent := Resolve(fs, ParentPath(p), start).value;
    FindChildIs(fs', parent, LastName(p));
    if FindChild(fs, parent, LastName(p)).None? {
      assert id in fs'.nodes[parent].children && NameOf(fs', id) == LastName(p);
    }
  }

  // ---------------------------------------------------------------- finding what was created

  predicate Slashes(p: string) {
    forall i :: 0 <= i < |p| ==> p[i] == '/'
  }

  /** The last name without the trailing slashes that LastName keeps. */
  function LastToken(p: string): string {
    p[NamePos(p)..StrippedLen(p, |p|)]
  }

  lemma {:induction false} StrippedIs(p: string, len: nat)
    requires len <= |p|
    ensures var r := StrippedLen(p, len);
            && (forall i :: r <= i < len ==> p[i] == '/')
            && (r == 0 <==> len == 0)
            && (r > 1 ==> p[r - 1] != '/')
    decreases len
  {
    if len > 1 && p[len - 1] == '/' {
      StrippedIs(p, len - 1);
    }
  }

  lemma {:induction false} TokensOfSlashes(p: string)
    requires Slashes(p)
    ensures Tokens(p) == []
    decreases |p|
  {
    if p != "" {
      TokensOfSlashes(p[1..]);
      assert p == "/" + p[1..];
      TokensSlash(p[1..]);
    }
  }

  /** A path's tokens are those before its last name and then that name. */
  lemma TokensLast(p: string)
    ensures var t := LastToken(p);
            Tokens(p) == Tokens(p[..NamePos(p)]) + if t == "" then [] else [t]
  {
    hide Tokens, NameStart, StrippedLen;
    var len, pos, t := StrippedLen(p, |p|), NamePos(p), LastToken(p);
    StrippedIs(p, |p|);
    var rest := t + p[len..];
    assert Tokens(rest) == if t == "" then [] else [t] by {
      TokensOfSlashes(p[len..]);
      if t == "" { assert rest == p[len..]; } else { TokensCons(t, p[len..]); }
    }
    assert p[pos..] == rest;
    TokensOfSlashes("");
    if pos == 0 {
      assert p[..0] == "" && p == rest;
    } else {
      var before := p[..pos - 1];
      assert p[..pos] == before + ("/" + "") && p == before + ("/" + rest);
      TokensAppend(before, "/" + rest);
      TokensAppend(before, "/" + "");
      TokensSlash(rest);
      TokensSlash("");
    }
  }

  /** The paths for which what vfs_create returns can be found under the same path. */
  predicate GoodPath(p: string) {
    && p != "" && p[|p| - 1] != '/'
    && !MeansRoot(p)
    && LastName(p) != "." && LastName(p) != ".."
    && |Tokens(p)| <= MAX_TOKENS
  }

  /** Without truncation the parent is where all tokens but the last lead. */
  lemma ParentIs(fs: Fs, p: string, start: Id)
    requires NamePos(p) < PARENT_BUF && !MeansRoot(p)
    ensures Resolve(fs, ParentPath(p), start) == ResolveTokens(fs, From(fs, p, start), Kept(Tokens(p[..NamePos(p)])))
  {
    var pos := NamePos(p);
    if pos == 0 {
      NotAbsolute(p);
      DotResolves(fs, start);
    } else {
      if pos == 1 {
        assert p[..1] == "/";
        SlashHasNoTokens();
        ResolveNothing(fs, fs.root);
      } else {
        assert p[..pos][0] == p[0] && p[..pos][1] == p[1];
      }
    }
  }

  lemma NotAbsolute(p: string)
    requires NamePos(p) == 0
    ensures !Absolute(p)
  {
    if p != "" {
      StrippedIs(p, |p|);
    }
  }

  lemma DotResolves(fs: Fs, start: Id)
    ensures Resolve(fs, ".", start) == Some(start)
    ensures ResolveTokens(fs, start, Kept(Tokens(""))) == Some(start)
  {
    TokensCons(".", "");
    assert "." + "" == ".";
    TokensOfSlashes("");
    ResolveNothing(fs, start);
    ResolveOne(fs, start, ".");
  }

  /** Following one more token from a node never leads to one of its children of another name. */
  lemma FollowsTo(fs: Fs, parent: Id, n: Id, t: string)
    requires Tree(fs) && parent in fs.nodes && n in fs.nodes[parent].children
    ensures n in fs.nodes && parent < n
    ensures Follow(fs, parent, t) == Some(n) <==> t != "" && t != "." && t != ".." && NameOf(fs, n) == t
  {
    assert ChildrenOk(fs, parent) && ParentOk(fs, parent);
    assert ParentOk(fs, n);
    FindChildIs(fs, parent, t);
  }

  /** Resolving a path is resolving its parent and following the last token, while there is room for it. */
  lemma LastStep(fs: Fs, p: string, start: Id, parent: Id)
    requires NamePos(p) < PARENT_BUF && !MeansRoot(p)
    requires Resolve(fs, ParentPath(p), start) == Some(parent)
    ensures var before, t := Tokens(p[..NamePos(p)]), LastToken(p);
            Resolve(fs, p, start) ==
            if |before| >= MAX_TOKENS || t == "" then Some(parent) else Follow(fs, parent, t)
  {
    ParentIs(fs, p, start);
    hide Tokens, ResolveTokens, Follow, NamePos, ParentPath;
    TokensLast(p);
    var before, t := Tokens(p[..NamePos(p)]), LastToken(p);
    if |before| >= MAX_TOKENS || t == "" {
      assert Kept(Tokens(p)) == Kept(before);
    } else {
      assert Kept(Tokens(p)) == before + [t];
      ResolveAppend(fs, From(fs, p, start), before, [t]);
      ResolveOne(fs, parent, t);
    }
  }

  lemma FoundExactly(fs: Fs, p: string, start: Id, parent: Id, n: Id)
    requires Tree(fs) && start in fs.nodes && NamePos(p) < PARENT_BUF
    requires Resolve(fs, ParentPath(p), start) == Some(parent) && parent in fs.nodes
    requires n in fs.nodes[parent].children && NameOf(fs, n) == LastName(p)
    ensures Resolve(fs, p, start) == Some(n) <==> GoodPath(p)
  {
    hide Tokens, ResolveTokens, Follow, NamePos, Tree, Kept;
    if MeansRoot(p) {
      NotTheRoot(fs, parent, n);
    } else {
      FollowsTo(fs, parent, n, LastToken(p));
      LastStep(fs, p, start, parent);
      TokensLast(p);
      LastNameIs(p);
    }
  }

  lemma ResolveOne(fs: Fs, cur: Id, t: string)
    ensures ResolveTokens(fs, cur, [t]) == Follow(fs, cur, t)
  {
  }

  lemma NotTheRoot(fs: Fs, parent: Id, n: Id)
    requires Tree(fs) && parent in fs.nodes && n in fs.nodes[parent].children
    ensures n != fs.root
  {
    assert ChildrenOk(fs, parent);
  }

  /** The name kept by vfs_create is the last token exactly when the path does not end in a slash. */
  lemma LastNameIs(p: string)
    requires !MeansRoot(p)
    ensures p != "" && p[|p| - 1] != '/' <==> LastToken(p) != "" && LastName(p) == LastToken(p)
  {
    StrippedIs(p, |p|);
    var len, pos := StrippedLen(p, |p|), NamePos(p);
    assert |LastName(p)| == |p| - pos && |LastToken(p)| == len - pos;
    if len == |p| {
      assert LastName(p) == LastToken(p);
    }
  }

  /**
   vfs_create followed by vfs_resolve, for every path whose parent part fits the 256-byte buffer: the
   node returned is found again if and only if the path is good.
   */
  lemma CreateThenResolve(fs: Fs, p: string, isDir: bool, start: Id, id: Id)
    requires Tree(fs) && Fresh(fs, id) && start in fs.nodes && NamePos(p) < PARENT_BUF
    requires Create(fs, p, isDir, start, id).1.Some?
    ensures var (fs', n) := Create(fs, p, isDir, start, id);
            Resolve(fs', p, start) == n <==> GoodPath(p)
  {
    var (fs', n) := Create(fs, p, isDir, start, id);
    ParentResolves(fs, p, start);
    CreateTree(fs, p, isDir, start, id);
    CreateKeepsOthers(fs, p, isDir, start, id, ParentPath(p), start);
    var parent := Resolve(fs, ParentPath(p), start).value;
    FindChildIs(fs, parent, LastName(p));
    FoundExactly(fs', p, start, parent, n.value);
  }

  /** Creating "/" makes a child of the root with an empty name, which no path leads to. */
  lemma CreateSlash(fs: Fs, start: Id, id: Id)
    requires Tree(fs) && Fresh(fs, id) && start in fs.nodes
    requires forall c :: c in fs.nodes[fs.root].children ==> NameOf(fs, c) != ""
    ensures var (fs', n) := Create(fs, "/", true, start, id);
            && n == Some(id) && id in fs'.nodes && fs'.nodes[id].name == "" && fs'.nodes[id].parent == Some(fs.root)
            && Resolve(fs', "/", start) == Some(fs.root)
  {
    assert NamePos("/") == 1 && LastName("/") == "" && ParentPath("/") == "/";
    FindChildIs(fs, fs.root, "");
  }

  // ---------------------------------------------------------------- contents

  lemma SetDataFollow(fs: Fs, n: Id, data: string, cur: Id, tok: string)
    requires Tree(fs) && n in fs.nodes && cur in fs.nodes
    ensures Follow(SetData(fs, n, data), cur, tok) == Follow(fs, cur, tok)
  {
    hide Tree, SetData, FirstNamed;
    ChildrenIn(fs, cur);
    SetDataNodes(fs, n, data);
    FirstNamedSame(fs, SetData(fs, n, data), fs.nodes[cur].children, tok);
  }

  lemma ChildrenIn(fs: Fs, cur: Id)
    requires Tree(fs) && cur in fs.nodes
    ensures forall c :: c in fs.nodes[cur].children ==> c in fs.nodes
  {
    assert ChildrenOk(fs, cur);
  }

  lemma SetDataNodes(fs: Fs, n: Id, data: string)
    requires n in fs.nodes
    ensures forall m :: m in fs.nodes ==> m in SetData(fs, n, data).nodes && SetData(fs, n, data).nodes[m] == fs.nodes[m].(data := SetData(fs, n, data).nodes[m].data)
  {
  }

  /** Contents play no part in resolution. */
  lemma {:induction false} SetDataResolves(fs: Fs, n: Id, data: string, cur: Id, toks: seq<string>)
    requires Tree(fs) && n in fs.nodes && cur in fs.nodes
    ensures ResolveTokens(SetData(fs, n, data), cur, toks) == ResolveTokens(fs, cur, toks)
    decreases |toks|
  {
    if toks != [] {
      SetDataFollow(fs, n, data, cur, toks[0]);
      FollowStays(fs, cur, toks[0]);
      var next := Follow(fs, cur, toks[0]);
      if next.Some? { SetDataResolves(fs, n, data, next.value, toks[1..]); }
    }
  }

  lemma SetDataResolve(fs: Fs, n: Id, data: string, p: string, start: Id)
    requires Tree(fs) && n in fs.nodes && start in fs.nodes
    ensures Resolve(SetData(fs, n, data), p, start) == Resolve(fs, p, start)
  {
    SetDataResolves(fs, n, data, From(fs, p, start), Kept(Tokens(p)));
  }

  lemma SetDataTree(fs: Fs, n: Id, data: string)
    requires Tree(fs) && n in fs.nodes
    ensures Tree(SetData(fs, n, data))
  {
    var fs' := SetData(fs, n, data);
    forall m | m in fs'.nodes
      ensures ParentOk(fs', m) && ChildrenOk(fs', m) && NamesDiffer(fs', fs'.nodes[m].children)
    {
      SetDataNode(fs, n, data, m);
    }
  }

  lemma SetDataNode(fs: Fs, n: Id, data: string, m: Id)
    requires n in fs.nodes && m in fs.nodes
    requires ParentOk(fs, m) && ChildrenOk(fs, m) && NamesDiffer(fs, fs.nodes[m].children)
    ensures var fs' := SetData(fs, n, data);
            ParentOk(fs', m) && ChildrenOk(fs', m) && NamesDiffer(fs', fs'.nodes[m].children)
  {
  }

  /** A successful write is read back under the same path, if the path is good. */
  lemma WriteThenRead(fs: Fs, p: string, data: string, start: Id, id: Id)
    requires Tree(fs) && Fresh(fs, id) && start in fs.nodes && NamePos(p) < PARENT_BUF && GoodPath(p)
    requires WriteFile(fs, p, data, start, id).1 == 0
    ensures var fs' := WriteFile(fs, p, data, start, id).0;
            Tree(fs') && ReadFile(fs', p, start) == Some(data)
  {
    CreateTree(fs, p, false, start, id);
    CreateThenResolve(fs, p, false, start, id);
    KeepsNode(fs, p, start, id, start);
    hide Create, Resolve, Tree, Fresh, GoodPath, NamePos;
    var (fs1, n) := Create(fs, p, false, start, id);
    SetDataTree(fs1, n.value, data);
    SetDataResolve(fs1, n.value, data, p, start);
  }

  lemma ResolveIn(fs: Fs, p: string, start: Id)
    requires Tree(fs) && start in fs.nodes
    ensures var r := Resolve(fs, p, start); r.Some? ==> r.value in fs.nodes
  {
    ResolveStays(fs, From(fs, p, start), Kept(Tokens(p)));
  }

  /** Creation changes no existing node's kind, contents, name or parent. */
  lemma KeepsNode(fs: Fs, p: string, start: Id, id: Id, n: Id)
    requires Fresh(fs, id)
    ensures var fs' := Create(fs, p, false, start, id).0;
            && fs'.root == fs.root
            && (n in fs.nodes ==>
                  n in fs'.nodes && fs'.nodes[n] == fs.nodes[n].(children := fs'.nodes[n].children))
  {
  }

  /** A write changes what can be read under another path only if that path leads to the written node. */
  lemma WriteKeepsOthers(fs: Fs, p: string, data: string, start: Id, id: Id, q: string, from: Id)
    requires Tree(fs) && Fresh(fs, id) && start in fs.nodes && from in fs.nodes
    requires var r := Resolve(fs, q, from); r.Some? && r != Create(fs, p, false, start, id).1
    ensures var fs' := WriteFile(fs, p, data, start, id).0;
            Resolve(fs', q, from) == Resolve(fs, q, from) && ReadFile(fs', q, from) == ReadFile(fs, q, from)
  {
    hide Create, Resolve, Tree, Fresh;
    CreateTree(fs, p, false, start, id);
    CreateKeepsOthers(fs, p, false, start, id, q, from);
    ResolveIn(fs, q, from);
    KeepsNode(fs, p, start, id, from);
    KeepsNode(fs, p, start, id, Resolve(fs, q, from).value);
    var (fs1, n) := Create(fs, p, false, start, id);
    if n.Some? && fs1.nodes[n.value].kind == File {
      SetDataResolve(fs1, n.value, data, q, from);
    }
  }
}
