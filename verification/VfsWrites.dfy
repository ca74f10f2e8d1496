/** Exactly what creating, writing and reading do, from the tree before the call. */
module VfsWrites {
  import opened Words
  import opened Vfs
  import opened VfsLaws

  // ---------------------------------------------------------------- creation

  /** The part of the path before the last name, as far as it fits its buffer, leads to the directory `d`. */
  ghost predicate MadeIn(fs: Fs, p: string, start: Id, d: Id) {
    Resolve(fs, ParentPath(p), start) == Some(d) && d in fs.nodes && fs.nodes[d].kind == Dir
  }

  /** `c` is the child of `d` with this name. */
  predicate Child(fs: Fs, d: Id, name: string, c: Id) {
    d in fs.nodes && c in fs.nodes[d].children && NameOf(fs, c) == name
  }

  /** vfs_create succeeds if and only if the parent part leads to a directory; failing, it changes nothing. */
  lemma CreateSucceeds(fs: Fs, p: string, isDir: bool, start: Id, id: Id)
    requires Tree(fs) && start in fs.nodes
    ensures Create(fs, p, isDir, start, id).1.Some? <==> exists d: Id :: MadeIn(fs, p, start, d)
    ensures Create(fs, p, isDir, start, id).1.None? ==> Create(fs, p, isDir, start, id).0 == fs
  {
    hide Tree, Resolve, FindChild, Insert, LastName, ParentPath;
    var r := Resolve(fs, ParentPath(p), start);
    if r.Some? && r.value in fs.nodes && fs.nodes[r.value].kind == Dir {
      assert MadeIn(fs, p, start, r.value);
    }
  }

  /**
   A child with the last name is returned as it is, whatever its kind; otherwise a new empty node of the
   kind asked for becomes the directory's first child, and nothing else changes.
   */
  lemma CreateExactly(fs: Fs, p: string, isDir: bool, start: Id, id: Id, d: Id)
    requires Tree(fs) && Fresh(fs, id) && MadeIn(fs, p, start, d)
    ensures var (fs', n) := Create(fs, p, isDir, start, id);
            && (forall c: Id :: Child(fs, d, LastName(p), c) ==> fs' == fs && n == Some(c))
            && ((forall c: Id :: !Child(fs, d, LastName(p), c)) ==>
                  n == Some(id) && Made(fs, fs', d, Node(LastName(p), if isDir then Dir else File, Some(d), [], None), id))
  {
    hide Tree, Fresh, Resolve, FindChild, Insert, LastName, ParentPath, Made, Child;
    FoundIs(fs, d, LastName(p));
    InsertMade(fs, d, LastName(p), if isDir then Dir else File, id);
  }

  lemma FoundIs(fs: Fs, d: Id, name: string)
    requires Tree(fs) && d in fs.nodes
    ensures forall c: Id :: Child(fs, d, name, c) <==> FindChild(fs, d, name) == Some(c)
  {
    hide FindChild, NameOf, Tree;
    FindChildIs(fs, d, name);
  }

  /** `node` is new, at the head of the children of `d`; all else is as it was. */
  ghost predicate Made(fs: Fs, fs': Fs, d: Id, node: Node, id: Id) {
    && d in fs.nodes && fs'.root == fs.root && fs'.nodes.Keys == fs.nodes.Keys + {id} && id !in fs.nodes
    && fs'.nodes[id] == node
    && fs'.nodes[d] == fs.nodes[d].(children := [id] + fs.nodes[d].children)
    && forall m :: m in fs.nodes && m != d ==> fs'.nodes[m] == fs.nodes[m]
  }

  lemma InsertMade(fs: Fs, d: Id, name: string, kind: Kind, id: Id)
    requires Fresh(fs, id) && d in fs.nodes
    ensures Made(fs, Insert(fs, d, name, kind, id), d, Node(name, kind, Some(d), [], None), id)
  {
  }

  // ---------------------------------------------------------------- writing

  /** The parent part leads to a directory in which the last name is free or names a file. */
  ghost predicate Writable(fs: Fs, p: string, start: Id) {
    exists d: Id :: MadeIn(fs, p, start, d) && forall c: Id :: Child(fs, d, LastName(p), c) ==> c in fs.nodes && fs.nodes[c].kind == File
  }

  /** The contents of every node but `n` are as before. */
  ghost predicate OtherContents(fs: Fs, fs': Fs, n: Option<Id>) {
    forall m :: m in fs.nodes && n != Some(m) ==> m in fs'.nodes && fs'.nodes[m].data == fs.nodes[m].data
  }

  /**
   A write succeeds if and only if the path is writable. Then the file of that name holds exactly the new
   data, whatever it held before, and no other node's contents change; a failed write changes nothing.
   */
  lemma WriteExactly(fs: Fs, p: string, data: string, start: Id, id: Id)
    requires Tree(fs) && Fresh(fs, id) && start in fs.nodes
    ensures var (fs', code) := WriteFile(fs, p, data, start, id);
            && (code == 0 <==> Writable(fs, p, start))
            && (code != 0 ==> code == -1 && fs' == fs)
            && (code == 0 ==> exists d: Id, n: Id ::
                  && MadeIn(fs, p, start, d) && Child(fs', d, LastName(p), n) && n in fs'.nodes
                  && fs'.nodes[n].kind == File && fs'.nodes[n].data == Some(data) && OtherContents(fs, fs', Some(n)))
  {
    hide Create, Tree, Fresh, MadeIn;
    CreateSucceeds(fs, p, false, start, id);
    if Create(fs, p, false, start, id).1.Some? {
      var d: Id :| MadeIn(fs, p, start, d);
      WriteInto(fs, p, data, start, id, d);
    }
  }

  lemma WriteInto(fs: Fs, p: string, data: string, start: Id, id: Id, d: Id)
    requires Tree(fs) && Fresh(fs, id) && start in fs.nodes && MadeIn(fs, p, start, d)
    ensures var (fs', code) := WriteFile(fs, p, data, start, id);
            && (code == 0 <==> Writable(fs, p, start))
            && (code != 0 ==> code == -1 && fs' == fs)
            && (code == 0 ==> exists n: Id ::
                  && Child(fs', d, LastName(p), n) && n in fs'.nodes
                  && fs'.nodes[n].kind == File && fs'.nodes[n].data == Some(data) && OtherContents(fs, fs', Some(n)))
  {
    hide Create, Tree, Fresh, Resolve, LastName, SetData, OtherContents;
    CreateExactly(fs, p, false, start, id, d);
    var name := LastName(p);
    if c :| Child(fs, d, name, c) {
      OneChild(fs, d, name, c);
      WritableHere(fs, p, start, d, c);
      if fs.nodes[c].kind == File { Stored(fs, fs, d, name, c, data); }
    } else {
      WritableFree(fs, p, start, d);
      Stored(fs, Create(fs, p, false, start, id).0, d, name, id, data);
    }
  }

  lemma OneChild(fs: Fs, d: Id, name: string, c: Id)
    requires Tree(fs) && Child(fs, d, name, c)
    ensures c in fs.nodes && forall e: Id :: Child(fs, d, name, e) ==> e == c
  {
    FindChildIs(fs, d, name);
    assert ChildrenOk(fs, d);
  }

  lemma WritableHere(fs: Fs, p: string, start: Id, d: Id, c: Id)
    requires MadeIn(fs, p, start, d) && Child(fs, d, LastName(p), c) && c in fs.nodes
    requires forall e: Id :: Child(fs, d, LastName(p), e) ==> e == c
    ensures Writable(fs, p, start) <==> fs.nodes[c].kind == File
  {
    hide Resolve, Child;
  }

  lemma WritableFree(fs: Fs, p: string, start: Id, d: Id)
    requires MadeIn(fs, p, start, d) && forall c: Id :: !Child(fs, d, LastName(p), c)
    ensures Writable(fs, p, start)
  {
    hide MadeIn, Child;
  }

  /** Putting the data into the file that is there now. */
  lemma Stored(fs: Fs, fs1: Fs, d: Id, name: string, n: Id, data: string)
    requires Child(fs1, d, name, n) && n in fs1.nodes && fs1.nodes[n].kind == File
    requires forall m :: m in fs.nodes ==> m in fs1.nodes && fs1.nodes[m].data == fs.nodes[m].data
    ensures var fs' := SetData(fs1, n, data);
            && Child(fs', d, name, n) && n in fs'.nodes && fs'.nodes[n].kind == File && fs'.nodes[n].data == Some(data)
            && OtherContents(fs, fs', Some(n))
  {
  }

  // ---------------------------------------------------------------- reading

  /** Directories hold no data. */
  ghost predicate DataInFiles(fs: Fs) {
    forall n :: n in fs.nodes && fs.nodes[n].data.Some? ==> fs.nodes[n].kind == File
  }

  /** That is so at the start and stays so. */
  lemma DataStaysInFiles(fs: Fs, p: string, isDir: bool, data: string, start: Id, id: Id)
    requires Fresh(fs, id) && DataInFiles(fs)
    ensures DataInFiles(RootOnly(id))
    ensures DataInFiles(Create(fs, p, isDir, start, id).0) && DataInFiles(WriteFile(fs, p, data, start, id).0)
  {
    hide Resolve, FindChild, ParentPath, LastName;
  }

  /** So a read delivers what the node at the path holds, and fails where nothing was ever written, as at a directory. */
  lemma ReadExactly(fs: Fs, p: string, start: Id, n: Id)
    requires Tree(fs) && start in fs.nodes && DataInFiles(fs)
    ensures Resolve(fs, p, start) == Some(n) ==> n in fs.nodes && ReadFile(fs, p, start) == fs.nodes[n].data
    ensures Resolve(fs, p, start) == None ==> ReadFile(fs, p, start) == None
  {
    ResolveIn(fs, p, start);
    hide Resolve;
  }

  // ---------------------------------------------------------------- what resolution and printing cut off

  /** "/" alone, and anything that begins with a slash and a newline, is the root. */
  lemma RootPaths(fs: Fs, rest: string, start: Id)
    ensures Resolve(fs, "/", start) == Some(fs.root) && Resolve(fs, "/\n" + rest, start) == Some(fs.root)
  {
  }

  /** Only the first 64 names of a path count. */
  lemma OnlyFirstNames(fs: Fs, names: seq<string>, start: Id)
    requires (forall i :: 0 <= i < |names| ==> GoodName(names[i]) && names[i] != "") && |names| > 64 && names[0][0] != '\n'
    ensures Resolve(fs, Join(names), start) == Resolve(fs, Join(names[..64]), start)
  {
    hide Tokens, ResolveTokens, Join;
    TokensJoin(names);
    TokensJoin(names[..64]);
    FirstLetters(names);
    FirstLetters(names[..64]);
  }

  lemma {:induction false} FirstLetters(names: seq<string>)
    requires names != [] && (forall i :: 0 <= i < |names| ==> names[i] != "") && names[0][0] != '\n'
    ensures var p := Join(names); |p| > 1 && p[0] == '/' && p[1] == names[0][0]
    decreases |names|
  {
    var n := |names| - 1;
    if n > 0 {
      FirstLetters(names[..n]);
    } else {
      assert names[..0] == [];
    }
  }

  /** Of a node more than 64 levels down only the nearest 64 names are printed. */
  lemma NearestNames(fs: Fs, n: Id)
    requires Tree(fs) && n in fs.nodes && |NamesTo(fs, n)| > 64
    requires forall i :: 0 <= i < |NamesTo(fs, n)| ==> Plain(NamesTo(fs, n)[i])
    ensures Tokens(FullPath(fs, n)) == NamesTo(fs, n)[|NamesTo(fs, n)| - 64..]
  {
    hide Tokens, Join;
    TokensJoin(NamesTo(fs, n)[|NamesTo(fs, n)| - 64..]);
  }

  /** vfs_get_path gives as much of the text as fits with its NUL. */
  lemma PathCut(fs: Fs, n: Id, bufLen: nat)
    requires Tree(fs) && n in fs.nodes && bufLen > 0
    ensures var (full, r) := (FullPath(fs, n), GetPath(fs, n, bufLen));
            |r| == (if |full| < bufLen then |full| else bufLen - 1) && r == full[..|r|]
  {
  }
}
