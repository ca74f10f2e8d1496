/** The in-memory filesystem: a tree of named nodes, path resolution, creation and file contents. */
module Vfs {
  import opened Words

  /** A node by the address of its vfs_node. */
  type Id = nat

  datatype Kind = File | Dir

  /** `children` in list order. `data` is None until something is written; its length is the size. */
  datatype Node = Node(name: string, kind: Kind, parent: Option<Id>, children: seq<Id>, data: Option<string>)

  datatype Fs = Fs(nodes: map<Id, Node>, root: Id)

  const MAX_TOKENS: nat := 64
  const PARENT_BUF: nat := 256

  // ---------------------------------------------------------------- lookup

  /** The first of `ids` with this name. */
  function FirstNamed(fs: Fs, ids: seq<Id>, name: string): Option<Id> {
    if ids == [] then None
    else if ids[0] in fs.nodes && fs.nodes[ids[0]].name == name then Some(ids[0])
    else FirstNamed(fs, ids[1..], name)
  }

  function FindChild(fs: Fs, dir: Id, name: string): Option<Id> {
    if dir !in fs.nodes || fs.nodes[dir].kind != Dir then None
    else FirstNamed(fs, fs.nodes[dir].children, name)
  }

  /** One token from `cur`. */
  function Follow(fs: Fs, cur: Id, tok: string): Option<Id> {
    if tok == "" || tok == "." then Some(cur)
    else if tok == ".." then
      if cur in fs.nodes && fs.nodes[cur].parent.Some? then fs.nodes[cur].parent else Some(cur)
    else FindChild(fs, cur, tok)
  }

  function ResolveTokens(fs: Fs, cur: Id, toks: seq<string>): Option<Id>
    decreases |toks|
  {
    if toks == [] then Some(cur)
    else
      var next := Follow(fs, cur, toks[0]);
      if next.None? then None else ResolveTokens(fs, next.value, toks[1..])
  }

  function SkipSlashes(p: string): (r: string)
    ensures |r| <= |p| && (r != "" ==> r[0] != '/')
  {
    if p != "" && p[0] == '/' then SkipSlashes(p[1..]) else p
  }

  function FirstName(p: string): (r: string)
    ensures |r| <= |p| && (p != "" && p[0] != '/' ==> r != "")
  {
    if p == "" || p[0] == '/' then "" else [p[0]] + FirstName(p[1..])
  }

  /** The slash-separated names of a path. */
  function Tokens(p: string): seq<string>
    decreases |p|
  {
    var q := SkipSlashes(p);
    if q == "" then [] else [FirstName(q)] + Tokens(q[|FirstName(q)|..])
  }

  /** The fixed-size token array keeps the first 64. */
  function Kept(toks: seq<string>): seq<string> {
    if |toks| > MAX_TOKENS then toks[..MAX_TOKENS] else toks
  }

  predicate Absolute(p: string) {
    p != "" && p[0] == '/'
  }

  /** "/" alone or followed by a newline means the root, whatever comes behind. */
  predicate MeansRoot(p: string) {
    Absolute(p) && (|p| == 1 || p[1] == '\n')
  }

  function From(fs: Fs, p: string, start: Id): Id {
    if Absolute(p) then fs.root else start
  }

  function Resolve(fs: Fs, p: string, start: Id): Option<Id> {
    if MeansRoot(p) then Some(fs.root)
    else ResolveTokens(fs, From(fs, p, start), Kept(Tokens(p)))
  }

  // ---------------------------------------------------------------- creation

  /** The length without trailing slashes, but at least 1. */
  function StrippedLen(p: string, len: nat): (r: nat)
    requires len <= |p|
    ensures r <= len
  {
    if len > 1 && p[len - 1] == '/' then StrippedLen(p, len - 1) else len
  }

  /** Where the last name starts. */
  function NameStart(p: string, pos: nat): (r: nat)
    requires pos <= |p|
    ensures r <= pos && (r == 0 || p[r - 1] == '/') && (forall i :: r <= i < pos ==> p[i] != '/')
  {
    if pos > 0 && p[pos - 1] != '/' then NameStart(p, pos - 1) else pos
  }

  function NamePos(p: string): (r: nat)
    ensures r <= |p|
  {
    NameStart(p, StrippedLen(p, |p|))
  }

  /** The name keeps the trailing slashes that the search for its start has skipped. */
  function LastName(p: string): string {
    p[NamePos(p)..]
  }

  function ParentPath(p: string): string {
    var pos := NamePos(p);
    if pos == 0 then if Absolute(p) then "/" else "."
    else p[..if pos >= PARENT_BUF then PARENT_BUF - 1 else pos]
  }

  function Insert(fs: Fs, parent: Id, name: string, kind: Kind, id: Id): Fs
    requires parent in fs.nodes
  {
    var dir := fs.nodes[parent];
    fs.(nodes := fs.nodes[parent := dir.(children := [id] + dir.children)][id := Node(name, kind, Some(parent), [], None)])
  }

  /** vfs_create; `id` is the address a new node gets. */
  function Create(fs: Fs, p: string, isDir: bool, start: Id, id: Id): (Fs, Option<Id>) {
    var parent := Resolve(fs, ParentPath(p), start);
    if parent.None? || parent.value !in fs.nodes || fs.nodes[parent.value].kind != Dir then (fs, None)
    else
      var existing := FindChild(fs, parent.value, LastName(p));
      if existing.Some? then (fs, existing)
      else (Insert(fs, parent.value, LastName(p), if isDir then Dir else File, id), Some(id))
  }

  function SetData(fs: Fs, n: Id, data: string): Fs
    requires n in fs.nodes
  {
    fs.(nodes := fs.nodes[n := fs.nodes[n].(data := Some(data))])
  }

  function WriteFile(fs: Fs, p: string, data: string, start: Id, id: Id): (Fs, int) {
    var (fs1, n) := Create(fs, p, false, start, id);
    if n.None? || n.value !in fs1.nodes || fs1.nodes[n.value].kind != File then (fs1, -1)
    else (SetData(fs1, n.value, data), 0)
  }

  function ReadFile(fs: Fs, p: string, start: Id): Option<string> {
    var n := Resolve(fs, p, start);
    if n.None? || n.value !in fs.nodes || fs.nodes[n.value].kind != File then None
    else fs.nodes[n.value].data
  }

  // ---------------------------------------------------------------- the tree

  /** A filesystem with nothing but its root directory. */
  function RootOnly(id: Id): Fs {
    var none: map<Id, Node> := map[];
    Fs(none[id := Node("", Dir, None, [], None)], id)
  }

  /** A parent is older than its children, so its address is smaller: the links cannot run in a circle. */
  ghost predicate Tree(fs: Fs) {
    && fs.root in fs.nodes && fs.nodes[fs.root].parent.None? && fs.nodes[fs.root].kind == Dir
    && (forall n :: n in fs.nodes ==> ParentOk(fs, n) && ChildrenOk(fs, n) && NamesDiffer(fs, fs.nodes[n].children))
  }

  predicate ParentOk(fs: Fs, n: Id)
    requires n in fs.nodes
  {
    var p := fs.nodes[n].parent;
    n != fs.root ==> p.Some? && p.value in fs.nodes && p.value < n && n in fs.nodes[p.value].children
  }

  predicate ChildrenOk(fs: Fs, n: Id)
    requires n in fs.nodes
  {
    forall c :: c in fs.nodes[n].children ==>
      c in fs.nodes && c != fs.root && fs.nodes[c].parent == Some(n) && fs.nodes[n].kind == Dir
  }

  function NameOf(fs: Fs, n: Id): string {
    if n in fs.nodes then fs.nodes[n].name else ""
  }

  predicate NamesDiffer(fs: Fs, ids: seq<Id>) {
    forall i, j :: 0 <= i < j < |ids| ==> NameOf(fs, ids[i]) != NameOf(fs, ids[j])
  }

  ghost predicate Fresh(fs: Fs, id: Id) {
    forall n :: n in fs.nodes ==> n < id
  }

  function DepthOf(fs: Fs, n: Id): nat
    requires Tree(fs) && n in fs.nodes
    decreases n
  {
    if n == fs.root then 0 else 1 + DepthOf(fs, fs.nodes[n].parent.value)
  }

  /** The names from below the root down to `n`. */
  function NamesTo(fs: Fs, n: Id): (names: seq<string>)
    requires Tree(fs) && n in fs.nodes
    ensures |names| == DepthOf(fs, n)
    decreases n
  {
    if n == fs.root then [] else NamesTo(fs, fs.nodes[n].parent.value) + [fs.nodes[n].name]
  }

  function Join(names: seq<string>): string {
    if names == [] then "" else Join(names[..|names| - 1]) + "/" + names[|names| - 1]
  }

  /** vfs_get_path's text before it is cut to the buffer: the nearest 64 names. */
  function FullPath(fs: Fs, n: Id): string
    requires Tree(fs) && n in fs.nodes
  {
    var names := NamesTo(fs, n);
    if n == fs.root then "/"
    else Join(if |names| > MAX_TOKENS then names[|names| - MAX_TOKENS..] else names)
  }

  function GetPath(fs: Fs, n: Id, bufLen: nat): string
    requires Tree(fs) && n in fs.nodes && bufLen > 0
  {
    var full := FullPath(fs, n);
    if n == fs.root && bufLen < 2 then ""
    else if |full| < bufLen then full else full[..bufLen - 1]
  }
}
