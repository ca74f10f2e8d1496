/** The descriptor calls as they change a process's table and the caller's buffer in place. */
module DescriptorTable {
  import opened Words
  import opened Strings
  import opened Vfs
  import opened Descriptors
  import opened VfsTree

  class Process {
    const fds: array<Fd>

    /** The path fields are C strings. */
    ghost predicate Valid()
      reads fds
    {
      fds.Length == MAX_FDS && forall i :: 0 <= i < fds.Length ==> NUL !in fds[i].path
    }

    /** process_init_fds */
    constructor ()
      ensures Valid() && fresh(fds)
      ensures forall i :: 0 <= i < MAX_FDS ==> fds[i] == Fd(i < FIRST_FILE, 0, "")
    {
      fds := new Fd[MAX_FDS](i => Fd(i < FIRST_FILE, 0, ""));
    }

    method Open(files: Filesystem, path: CString) returns (r: int)
      requires Valid() && files.Valid()
      modifies fds
      ensures Valid() && (fds[..], Reply(r, "")) == DoOpen(files.model, old(fds[..]), path)
    {
      hide files.Valid, Contents, FreeFrom, Clip;
      if CharAt(path, 0) == NUL { return MINUS_ONE; }
      var data := Fetch(files, path);
      if data.None? { return MINUS_ONE; }
      var i := FirstFree();
      if i == fds.Length { return MINUS_ONE; }
      var copy := CopyPath(path);
      fds[i] := Fd(true, 0, copy);
      return i;
    }

    /** The search for a free slot behind the standard descriptors. */
    method FirstFree() returns (i: nat)
      requires Valid()
      ensures FIRST_FILE <= i <= fds.Length && i == FreeFrom(fds[..], FIRST_FILE)
    {
      i := FIRST_FILE;
      while i < fds.Length
        invariant FIRST_FILE <= i <= fds.Length && FreeFrom(fds[..], FIRST_FILE) == FreeFrom(fds[..], i)
      {
        if !fds[i].used { return; }
        i := i + 1;
      }
    }

    static method Fetch(files: Filesystem, path: CString) returns (r: Option<string>)
      requires files.Valid()
      ensures r == Contents(files.model, path)
    {
      files.RootHere();
      r := files.ReadFile(path, files.root);
    }

    /** The copy into the 128-byte field. */
    static method CopyPath(path: CString) returns (copy: CString)
      ensures copy == Clip(path)
    {
      var field := new char[PATH_LEN](_ => NUL);
      var j: nat := 0;
      while CharAt(path, j) != NUL && j < field.Length - 1
        invariant j <= |path| && j < field.Length && field[..j] == path[..j]
        decreases |path| - j
      {
        field[j] := path[j];
        j := j + 1;
      }
      field[j] := NUL;
      copy := field[..j];
    }

    lemma Undisturbed(code: int, buf: array<char>)
      ensures Delivered((fds[..], Reply(code, "")), code, buf, buf[..])
    {
    }

    method Read(files: Filesystem, fd: Word, buf: array<char>, len: Word) returns (r: int)
      requires Valid() && files.Valid() && len <= buf.Length
      modifies fds, buf
      ensures Valid()
      ensures Delivered(DoRead(files.model, old(fds[..]), fd, len), r, buf, old(buf[..]))
    {
      hide files.Valid, DoRead, Delivered;
      var i := Int32(fd);
      if len == 0 || fd == 0 {
        Undisturbed(0, buf);
        NoRead(files.model, fds[..], fd, len);
        return 0;
      }
      if !(0 <= i < fds.Length && fds[i].used) {
        Undisturbed(MINUS_ONE, buf);
        NoRead(files.model, fds[..], fd, len);
        return MINUS_ONE;
      }
      r := ReadFrom(files, fd, i, buf, len);
    }

    method ReadFrom(files: Filesystem, ghost fd: Word, i: nat, buf: array<char>, len: Word) returns (r: int)
      requires Valid() && files.Valid() && len <= buf.Length
      requires i == Int32(fd) && i < MAX_FDS && fds[i].used && 0 < fd && 0 < len
      modifies fds, buf
      ensures Valid()
      ensures Delivered(DoRead(files.model, old(fds[..]), fd, len), r, buf, old(buf[..]))
    {
      ChunkRead(files.model, fds[..], fd, len);
      hide files.Valid, DoRead, ReadAt, Contents, Delivered, Int32;
      var data := Fetch(files, fds[i].path);
      if data.None? {
        Undisturbed(MINUS_ONE, buf);
        return MINUS_ONE;
      }
      r := Transfer(i, data.value, buf, len);
    }

    /** The bytes at the offset go to the buffer and the offset moves past them. */
    method Transfer(i: nat, data: string, buf: array<char>, len: Word) returns (count: nat)
      requires Valid() && i < MAX_FDS && len <= buf.Length
      modifies fds, buf
      ensures Valid()
      ensures Delivered(ReadAt(old(fds[..]), i, data, len), count, buf, old(buf[..]))
    {
      var offset := fds[i].offset;
      if offset >= |data| { return 0; }
      var avail := |data| - offset;
      count := if len < avail then len else avail;
      CopyOut(data, offset, count, buf);
      fds[i] := fds[i].(offset := offset + count);
    }

    /** The table after a call, the value it returns, and what it leaves in the buffer. */
    ghost predicate Delivered(result: (Table, Reply), r: int, buf: array<char>, before: seq<char>)
      reads fds, buf
    {
      var (t, reply) := result;
      && fds[..] == t && r == reply.code && |reply.bytes| <= |before|
      && buf[..] == reply.bytes + before[|reply.bytes|..]
    }

    static method CopyOut(data: string, offset: nat, count: nat, buf: array<char>)
      requires offset + count <= |data| && count <= buf.Length
      modifies buf
      ensures buf[..] == data[offset..offset + count] + old(buf[count..])
    {
      for i := 0 to count
        invariant buf[..i] == data[offset..offset + i] && buf[i..] == old(buf[i..])
      {
        buf[i] := data[offset + i];
      }
    }

    method Lseek(fd: Word, off: Word) returns (r: int)
      requires Valid()
      modifies fds
      ensures Valid() && (fds[..], Reply(r, "")) == DoLseek(old(fds[..]), fd, off)
    {
      var i := Int32(fd);
      if !(0 <= i < fds.Length && fds[i].used) { return MINUS_ONE; }
      fds[i] := fds[i].(offset := off);
      return off;
    }

    method Close(fd: Word) returns (r: int)
      requires Valid()
      modifies fds
      ensures Valid() && (fds[..], Reply(r, "")) == DoClose(old(fds[..]), fd)
    {
      var i := Int32(fd);
      if i < FIRST_FILE || i >= fds.Length { return MINUS_ONE; }
      fds[i] := fds[i].(used := false);
      fds[i] := fds[i].(offset := 0);
      fds[i] := fds[i].(path := "");
      assert fds[..] == old(fds[..])[i := Fd(false, 0, "")];
      return 0;
    }

    /**
     The shell's cat: it emits the whole file the descriptor remembers, whatever the chunk size, and
     gives the descriptor back.
     */
    method Cat(files: Filesystem, path: CString, chunk: Word) returns (found: bool, out: string)
      requires Valid() && files.Valid() && 0 < chunk < 0x8000_0000
      modifies fds
      ensures Valid()
      ensures found <==> DoOpen(files.model, old(fds[..]), path).1 != FAILED
      ensures out == if found then Remembered(files.model, path) else ""
      ensures fds[..] == if !found then old(fds[..]) else old(fds[..])[FreeFrom(old(fds[..]), FIRST_FILE) := Fd(false, 0, "")]
    {
      ghost var fs, t := files.model, fds[..];
      OpenIs(fs, t, path);
      hide files.Valid, DoOpen, DoClose, Contents, Clip, FreeFrom;
      var fd := Open(files, path);
      if fd == MINUS_ONE { return false, ""; }
      found := true;
      OpenReadClose(fs, t, path, 0);
      out := Drain(files, fd, Clip(path), chunk);
      ghost var o :| fds[..] == DoOpen(fs, t, path).0[fd := Fd(true, o, Clip(path))];
      OpenReadClose(fs, t, path, o);
      var closed := Close(fd);
    }

    /** The loop of cat: read a chunk, emit it, until nothing comes. */
    method Drain(files: Filesystem, fd: Word, ghost path: string, chunk: Word) returns (out: string)
      requires Valid() && files.Valid() && 0 < chunk < 0x8000_0000
      requires FIRST_FILE <= fd < MAX_FDS && fds[fd] == Fd(true, 0, path)
      modifies fds
      ensures Valid() && out == Whole(files.model, path)
      ensures exists o :: fds[..] == old(fds[..])[fd := Fd(true, o, path)]
    {
      hide files.Valid, DoRead, Contents;
      ghost var t := fds[..];
      ghost var data := Contents(files.model, path);
      var buf := new char[chunk + 1](_ => NUL);
      ghost var o: nat := 0;
      out := "";
      while true
        invariant Valid() && buf.Length == chunk + 1 && fds[..] == t[fd := Fd(true, o, path)]
        invariant if data.None? then out == "" else o <= |data.value| && out == data.value[..o]
        decreases if data.None? then 0 else |data.value| - o
      {
        ChunkRead(files.model, fds[..], fd, chunk);
        var n := Read(files, fd, buf, chunk);
        if n == MINUS_ONE || n == 0 { break; }
        out := out + buf[..n];
        o := o + n;
      }
    }
  }

  function Whole(fs: Fs, path: string): string {
    match Contents(fs, path) case None => "" case Some(data) => data
  }

  function Remembered(fs: Fs, path: string): string {
    Whole(fs, Clip(path))
  }
}
