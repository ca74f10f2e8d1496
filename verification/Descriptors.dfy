/** File descriptors: open, read, lseek and close over a filesystem that does not change meanwhile. */
module Descriptors {
  import opened Words
  import opened Vfs
  import opened VfsLaws

  /** One slot of a process's table; `path` is the text before the NUL of its 128-byte field. */
  datatype Fd = Fd(used: bool, offset: nat, path: string)

  const MAX_FDS: nat := 16
  const FIRST_FILE: nat := 3
  const PATH_LEN: nat := 128

  type Table = seq<Fd>

  datatype Op =
    | Open(path: string)
    | Read(fd: Word, len: Word)
    | Lseek(fd: Word, off: Word)
    | Close(fd: Word)

  /** The value a call returns and the bytes it puts into the caller's buffer. */
  datatype Reply = Reply(code: int, bytes: string)

  const FAILED: Reply := Reply(MINUS_ONE, "")

  /** (int)w */
  function Int32(w: Word): (r: int)
    ensures w < 0x8000_0000 ==> r == w
  {
    var low := w % TWO32;
    if low < 0x8000_0000 then low else low - TWO32
  }

  predicate InUse(t: Table, fd: int) {
    0 <= fd < |t| && t[fd].used
  }

  function FreeFrom(t: Table, i: nat): (r: nat)
    requires i <= |t|
    ensures i <= r <= |t| && (r < |t| ==> !t[r].used) && (forall k :: i <= k < r ==> t[k].used)
    decreases |t| - i
  {
    if i < |t| && t[i].used then FreeFrom(t, i + 1) else i
  }

  /** A descriptor remembers at most 127 characters of the path. */
  function Clip(path: string): string {
    if |path| >= PATH_LEN then path[..PATH_LEN - 1] else path
  }

  function Contents(fs: Fs, path: string): Option<string> {
    ReadFile(fs, path, fs.root)
  }

  function DoOpen(fs: Fs, t: Table, path: string): (Table, Reply) {
    if path == "" || Contents(fs, path).None? || |t| < FIRST_FILE then (t, FAILED)
    else
      var i := FreeFrom(t, FIRST_FILE);
      if i == |t| then (t, FAILED) else (t[i := Fd(true, 0, Clip(path))], Reply(i, ""))
  }

  /** How many bytes a read of `len` at `offset` delivers. */
  function Count(data: string, offset: nat, len: nat): (k: nat)
    ensures k <= len && (k > 0 ==> offset + k <= |data|)
  {
    if offset >= |data| then 0 else if len < |data| - offset then len else |data| - offset
  }

  /** The bytes at the offset, and the offset behind them. */
  function ReadAt(t: Table, i: nat, data: string, len: nat): (Table, Reply)
    requires i < |t|
  {
    var o, k := t[i].offset, Count(data, t[i].offset, len);
    (t[i := t[i].(offset := o + k)], Reply(k, if k == 0 then "" else data[o..o + k]))
  }

  function DoRead(fs: Fs, t: Table, fd: Word, len: Word): (Table, Reply) {
    var i := Int32(fd);
    if len == 0 || fd == 0 then (t, Reply(0, ""))
    else if !InUse(t, i) then (t, FAILED)
    else
      match Contents(fs, t[i].path)
      case None => (t, FAILED)
      case Some(data) => ReadAt(t, i, data, len)
  }

  function DoLseek(t: Table, fd: Word, off: Word): (Table, Reply) {
    var i := Int32(fd);
    if !InUse(t, i) then (t, FAILED) else (t[i := t[i].(offset := off)], Reply(off, ""))
  }

  function DoClose(t: Table, fd: Word): (Table, Reply) {
    var i := Int32(fd);
    if i < FIRST_FILE || i >= |t| then (t, FAILED) else (t[i := Fd(false, 0, "")], Reply(0, ""))
  }

  function Step(fs: Fs, t: Table, op: Op): (Table, Reply) {
    match op
    case Open(path) => DoOpen(fs, t, path)
    case Read(fd, len) => DoRead(fs, t, fd, len)
    case Lseek(fd, off) => DoLseek(t, fd, off)
    case Close(fd) => DoClose(t, fd)
  }

  function Run(fs: Fs, t: Table, ops: seq<Op>): (Table, seq<Reply>)
    decreases |ops|
  {
    if ops == [] then (t, [])
    else
      var (t1, r) := Step(fs, t, ops[0]);
      var (t2, rs) := Run(fs, t1, ops[1..]);
      (t2, [r] + rs)
  }

  lemma {:induction false} RunLength(fs: Fs, t: Table, ops: seq<Op>)
    ensures |Run(fs, t, ops).1| == |ops| && |Run(fs, t, ops).0| == |t|
    decreases |ops|
  {
    if ops != [] { RunLength(fs, Step(fs, t, ops[0]).0, ops[1..]); }
  }

  // ---------------------------------------------------------------- descriptors do not disturb each other

  /** The operation names descriptor `fd`. */
  predicate Uses(op: Op, fd: nat) {
    match op
    case Open(_) => false
    case Read(w, _) => Int32(w) == fd
    case Lseek(w, _) => Int32(w) == fd
    case Close(w) => Int32(w) == fd
  }

  function Own(ops: seq<Op>, fd: nat): seq<Op> {
    if ops == [] then [] else (if Uses(ops[0], fd) then [ops[0]] else []) + Own(ops[1..], fd)
  }

  function OwnReplies(ops: seq<Op>, rs: seq<Reply>, fd: nat): seq<Reply>
    requires |rs| == |ops|
  {
    if ops == [] then [] else (if Uses(ops[0], fd) then [rs[0]] else []) + OwnReplies(ops[1..], rs[1..], fd)
  }

  predicate NeverCloses(ops: seq<Op>, fd: nat) {
    forall i :: 0 <= i < |ops| && ops[i].Close? ==> Int32(ops[i].fd) != fd
  }

  /** An operation on another descriptor, or an open, leaves an open descriptor alone. */
  lemma OthersStay(fs: Fs, t: Table, op: Op, fd: nat)
    requires InUse(t, fd) && !Uses(op, fd)
    ensures InUse(Step(fs, t, op).0, fd) && Step(fs, t, op).0[fd] == t[fd]
  {
  }

  /** What an operation on a descriptor does depends on that descriptor only. */
  lemma OwnStep(fs: Fs, t: Table, s: Table, op: Op, fd: nat)
    requires InUse(t, fd) && InUse(s, fd) && t[fd] == s[fd] && Uses(op, fd) && !op.Close?
    ensures var (t', r) := Step(fs, t, op);
            var (s', q) := Step(fs, s, op);
            r == q && InUse(t', fd) && InUse(s', fd) && t'[fd] == s'[fd]
  {
  }

  /**
   Whatever is done to other descriptors in between, an open descriptor answers as if it were alone:
   its replies, and its final state, are those of its own operations.
   */
  lemma {:induction false} Independence(fs: Fs, t: Table, s: Table, ops: seq<Op>, fd: nat)
    requires InUse(t, fd) && InUse(s, fd) && t[fd] == s[fd] && NeverCloses(ops, fd)
    ensures |Run(fs, t, ops).1| == |ops|
    ensures var (t', rs) := Run(fs, t, ops);
            var (s', qs) := Run(fs, s, Own(ops, fd));
            OwnReplies(ops, rs, fd) == qs && InUse(t', fd) && InUse(s', fd) && t'[fd] == s'[fd]
    decreases |ops|
  {
    RunLength(fs, t, ops);
    if ops != [] {
      var op, rest := ops[0], ops[1..];
      assert forall i :: 0 <= i < |rest| ==> rest[i] == ops[i + 1];
      var t1 := Step(fs, t, op).0;
      var (t2, rs) := Run(fs, t1, rest);
      RunLength(fs, t1, rest);
      assert Run(fs, t, ops).1[1..] == rs;
      if Uses(op, fd) {
        OwnStep(fs, t, s, op, fd);
        OwnRun(fs, s, op, Own(rest, fd));
        Independence(fs, t1, Step(fs, s, op).0, rest, fd);
      } else {
        OthersStay(fs, t, op, fd);
        Independence(fs, t1, s, rest, fd);
        assert Own(ops, fd) == Own(rest, fd);
      }
    }
  }

  lemma OwnRun(fs: Fs, s: Table, op: Op, rest: seq<Op>)
    ensures var (s1, q) := Step(fs, s, op);
            Run(fs, s, [op] + rest) == (Run(fs, s1, rest).0, [q] + Run(fs, s1, rest).1)
  {
    assert ([op] + rest)[1..] == rest;
  }

  // ---------------------------------------------------------------- sequential reads

  /** All bytes the reads through `fd` have delivered. */
  function Gathered(ops: seq<Op>, rs: seq<Reply>, fd: nat): string
    requires |rs| == |ops|
  {
    if ops == [] then "" else (if Uses(ops[0], fd) then rs[0].bytes else "") + Gathered(ops[1..], rs[1..], fd)
  }

  predicate OnlyReads(ops: seq<Op>, fd: nat) {
    forall i :: 0 <= i < |ops| && Uses(ops[i], fd) ==> ops[i].Read?
  }

  /** One read: the bytes at the offset, as many as asked for or as are left; past the end none. */
  lemma ReadIs(fs: Fs, t: Table, fd: nat, w: Word, len: Word, data: string)
    requires 0 < fd && InUse(t, fd) && Int32(w) == fd && Contents(fs, t[fd].path) == Some(data)
    ensures var (t', r) := DoRead(fs, t, w, len);
            var o := t[fd].offset;
            && 0 <= r.code <= len && |r.bytes| == r.code
            && (r.code > 0 ==> o + r.code <= |data| && r.bytes == data[o..o + r.code])
            && (r.code < len ==> o + r.code >= |data|)
            && t' == t[fd := t[fd].(offset := o + r.code)]
  {
  }

  /** The part of the data between two offsets, which may lie past the end. */
  function Between(data: string, from: nat, to: nat): string {
    if from <= to <= |data| then data[from..to] else ""
  }

  /**
   In any run in which `fd` is only read, interleaved with anything on other descriptors, the bytes read
   through `fd`, put together, are the file from the first offset to the last; from past the end there are
   none.
   */
  lemma {:induction false} ReadsReproduce(fs: Fs, t: Table, ops: seq<Op>, fd: nat, data: string)
    requires 0 < fd && InUse(t, fd) && OnlyReads(ops, fd) && Contents(fs, t[fd].path) == Some(data)
    ensures |Run(fs, t, ops).1| == |ops|
    ensures var (t', rs) := Run(fs, t, ops);
            && InUse(t', fd) && t'[fd].path == t[fd].path && t[fd].offset <= t'[fd].offset
            && (t[fd].offset <= |data| ==> t'[fd].offset <= |data|)
            && (t[fd].offset >= |data| ==> t'[fd].offset == t[fd].offset)
            && Gathered(ops, rs, fd) == Between(data, t[fd].offset, t'[fd].offset)
    decreases |ops|
  {
    hide Contents, Int32;
    RunLength(fs, t, ops);
    if ops != [] {
      var op, rest := ops[0], ops[1..];
      assert forall i :: 0 <= i < |rest| ==> rest[i] == ops[i + 1];
      var (t1, r) := Step(fs, t, op);
      RunLength(fs, t1, rest);
      assert Run(fs, t, ops).1[1..] == Run(fs, t1, rest).1;
      ReadStep(fs, t, op, fd, data);
      hide Step, Between, Uses;
      ReadsReproduce(fs, t1, rest, fd, data);
      Betweens(data, t[fd].offset, t1[fd].offset, Run(fs, t1, rest).0[fd].offset);
    }
  }

  lemma ReadStep(fs: Fs, t: Table, op: Op, fd: nat, data: string)
    requires 0 < fd && InUse(t, fd) && Contents(fs, t[fd].path) == Some(data) && (Uses(op, fd) ==> op.Read?)
    ensures var (t1, r) := Step(fs, t, op);
            && InUse(t1, fd) && t1[fd].path == t[fd].path && t[fd].offset <= t1[fd].offset
            && (t[fd].offset <= |data| ==> t1[fd].offset <= |data|)
            && (t[fd].offset >= |data| ==> t1[fd].offset == t[fd].offset)
            && (if Uses(op, fd) then r.bytes else "") == Between(data, t[fd].offset, t1[fd].offset)
  {
    hide Contents;
    if Uses(op, fd) {
      ReadIs(fs, t, fd, op.fd, op.len, data);
    } else {
      OthersStay(fs, t, op, fd);
    }
  }

  lemma Betweens(data: string, o: nat, m: nat, e: nat)
    requires o <= m <= e && (o >= |data| ==> m == o) && (o <= |data| ==> m <= |data|) && (m >= |data| ==> e == m) && (m <= |data| ==> e <= |data|)
    ensures Between(data, o, m) + Between(data, m, e) == Between(data, o, e)
  {
  }

  lemma NoRead(fs: Fs, t: Table, fd: Word, len: Word)
    requires len == 0 || fd == 0 || !InUse(t, Int32(fd))
    ensures DoRead(fs, t, fd, len) == (t, if len == 0 || fd == 0 then Reply(0, "") else FAILED)
  {
  }

  lemma ChunkRead(fs: Fs, t: Table, fd: Word, len: Word)
    requires len > 0 && fd > 0 && InUse(t, Int32(fd))
    ensures var i := Int32(fd);
            match Contents(fs, t[i].path)
            case None => DoRead(fs, t, fd, len) == (t, FAILED)
            case Some(data) => DoRead(fs, t, fd, len) == ReadAt(t, i, data, len)
  {
  }

  // ---------------------------------------------------------------- what open promises

  /** A successful open takes the lowest free descriptor from 3 on, at offset 0, and disturbs no other. */
  lemma OpenIs(fs: Fs, t: Table, path: string)
    requires |t| == MAX_FDS
    ensures var (t', r) := DoOpen(fs, t, path);
            if r.code == MINUS_ONE then
              && t' == t
              && (path == "" || Contents(fs, path).None? || forall k :: FIRST_FILE <= k < MAX_FDS ==> t[k].used)
            else
              && FIRST_FILE <= r.code < MAX_FDS && !t[r.code].used && (forall k :: FIRST_FILE <= k < r.code ==> t[k].used)
              && r.code == FreeFrom(t, FIRST_FILE) && t' == t[r.code := Fd(true, 0, Clip(path))] && path != "" && Contents(fs, path).Some?
  {
  }

  /** A seek moves where the next read starts, at or past the end too, and nothing else. */
  lemma SeekThenRead(fs: Fs, t: Table, w: Word, off: Word, len: Word, data: string)
    requires 0 < w && 0 < len && InUse(t, Int32(w)) && Contents(fs, t[Int32(w)].path) == Some(data)
    ensures var (t1, r1) := DoLseek(t, w, off);
            var (t2, r2) := DoRead(fs, t1, w, len);
            && r1.code == off
            && r2.bytes == (if off >= |data| then "" else data[off..if len < |data| - off then off + len else |data|])
            && t2 == t[Int32(w) := t[Int32(w)].(offset := off + |r2.bytes|)]
  {
  }

  /** A closed descriptor fails until an open reuses it. */
  lemma ClosedFails(fs: Fs, t: Table, w: Word, len: Word, off: Word)
    requires |t| == MAX_FDS && FIRST_FILE <= Int32(w) < MAX_FDS && 0 < w && 0 < len
    ensures var (t1, r) := DoClose(t, w);
            && r.code == 0 && DoRead(fs, t1, w, len) == (t1, FAILED) && DoLseek(t1, w, off) == (t1, FAILED)
            && forall i :: 0 <= i < MAX_FDS && i != Int32(w) ==> t1[i] == t[i]
  {
  }

  /** A descriptor argument is the int in the low 32 bits; what is remembered of a path is its first 127 characters. */
  lemma ArgumentsAre(w: Word, path: string)
    ensures exists high: nat :: w == high * TWO32 + if Int32(w) < 0 then Int32(w) + TWO32 else Int32(w)
    ensures -0x8000_0000 <= Int32(w) < 0x8000_0000
    ensures Clip(path) <= path && |Clip(path)| == if |path| <= 127 then |path| else 127
  {
    assert w == w / TWO32 * TWO32 + w % TWO32;
  }

  /** Close refuses the standard descriptors and numbers outside the table. */
  lemma CloseRefuses(t: Table, w: Word)
    requires |t| == MAX_FDS && (Int32(w) < 3 || Int32(w) >= 16)
    ensures DoClose(t, w) == (t, FAILED)
  {
  }

  /** Read and lseek fail on what is not an open descriptor; a read of nothing always succeeds. */
  lemma NotOpen(fs: Fs, t: Table, w: Word, len: Word, off: Word)
    requires |t| == MAX_FDS && (Int32(w) < 0 || Int32(w) >= 16 || !t[Int32(w)].used)
    ensures DoLseek(t, w, off) == (t, FAILED)
    ensures 0 < w && 0 < len ==> DoRead(fs, t, w, len) == (t, FAILED)
    ensures DoRead(fs, t, w, 0) == (t, Reply(0, ""))
  {
  }

  /** Opening, reading on and closing again frees the slot and leaves no trace elsewhere. */
  lemma OpenReadClose(fs: Fs, t: Table, path: string, o: nat)
    requires |t| == MAX_FDS && DoOpen(fs, t, path).1.code != MINUS_ONE
    ensures var (t1, r) := DoOpen(fs, t, path);
            && FIRST_FILE <= r.code < MAX_FDS && t1[r.code] == Fd(true, 0, Clip(path)) && r.code == FreeFrom(t, FIRST_FILE)
            && DoClose(t1[r.code := Fd(true, o, Clip(path))], r.code) == (t[r.code := Fd(false, 0, "")], Reply(0, ""))
  {
    OpenIs(fs, t, path);
    hide Contents, Clip, DoOpen, FreeFrom;
    var (t1, r) := DoOpen(fs, t, path);
    assert t1[r.code := Fd(true, o, Clip(path))][r.code := Fd(false, 0, "")] == t[r.code := Fd(false, 0, "")];
  }

  /** The descriptors a process starts with read nothing: 0 delivers no bytes, 1 and 2 fail. */
  lemma StandardDescriptors(fs: Fs, t: Table, fd: Word, len: Word)
    requires Tree(fs) && |t| == MAX_FDS && fd < FIRST_FILE && t[fd].used && t[fd].path == "" && len > 0
    ensures DoRead(fs, t, fd, len) == (t, if fd == 0 then Reply(0, "") else FAILED)
  {
    assert Tokens("") == [];
    assert Contents(fs, "") == None;
  }

  /**
   What was opened can be read if and only if its path is shorter than 128 characters or the first 127 name
   a file too.
   */
  lemma OpenedReads(fs: Fs, t: Table, path: string, w: Word, len: Word)
    requires |t| == MAX_FDS && DoOpen(fs, t, path).1.code == Int32(w) && FIRST_FILE <= Int32(w) < MAX_FDS
    requires 0 < w && 0 < len
    ensures DoRead(fs, DoOpen(fs, t, path).0, w, len).1 != FAILED
            <==> |path| < PATH_LEN || Contents(fs, path[..PATH_LEN - 1]).Some?
  {
    OpenIs(fs, t, path);
  }

  /** A single read of everything gives the file at the path if and only if the remembered path leads to the same contents. */
  lemma OpenedReadsPath(fs: Fs, t: Table, path: string, w: Word, data: string)
    requires |t| == MAX_FDS && DoOpen(fs, t, path).1.code == Int32(w) && FIRST_FILE <= Int32(w) < MAX_FDS && 0 < w
    requires Contents(fs, path) == Some(data) && |data| < MINUS_ONE
    requires var kept := Contents(fs, Clip(path)); kept.Some? ==> |kept.value| < MINUS_ONE
    ensures DoRead(fs, DoOpen(fs, t, path).0, w, MINUS_ONE).1 == Reply(|data|, data) <==> Contents(fs, Clip(path)) == Some(data)
  {
    OpenIs(fs, t, path);
    var (t', r) := DoOpen(fs, t, path);
    hide Contents, Clip, DoOpen;
    var kept := Contents(fs, Clip(path));
    if kept.Some? {
      ReadIs(fs, t', Int32(w), w, MINUS_ONE, kept.value);
      assert kept.value[..|kept.value|] == kept.value;
    }
  }

  /** Slashes alone lead to the root directory, which has no contents. */
  lemma SlashesHaveNoContents(fs: Fs, p: string)
    requires Tree(fs) && Slashes(p)
    ensures Contents(fs, p) == None
  {
    TokensOfSlashes(p);
  }

  /**
   A failing family: behind 127 slashes the file is there and opens, but every read through its descriptor
   fails.
   */
  lemma LongPathLost(fs: Fs, t: Table, pre: string, name: string, w: Word, len: Word)
    requires Tree(fs) && |t| == MAX_FDS && FreeFrom(t, FIRST_FILE) < MAX_FDS
    requires Slashes(pre) && |pre| == PATH_LEN - 1 && Contents(fs, pre + name).Some?
    requires Int32(w) == FreeFrom(t, FIRST_FILE) && len > 0
    ensures var (t', r) := DoOpen(fs, t, pre + name);
            r.code == Int32(w) && DoRead(fs, t', w, len) == (t', FAILED)
  {
    if name == "" { assert pre + name == pre; }
    SlashesHaveNoContents(fs, pre);
    assert Clip(pre + name) == pre;
    hide Contents;
  }
}
