/** 8.3 names and full paths as they are put together in fixed arrays. */
module FatNames {
  import opened Bytes
  import opened Strings
  import opened Fat32
  import opened FatTree

  // ---------------------------------------------------------------- names and paths

  lemma TrimmedStep(bs: seq<byte>, i: nat)
    requires i < |bs|
    ensures Trimmed(bs[..i + 1]) == Trimmed(bs[..i]) + if bs[i] == SPACE then "" else [bs[i] as char]
  {
    assert bs[..i + 1][..i] == bs[..i];
  }

  /** The part of the name before the dot. */
  method DecodeStem(e: Ent, out: array<char>) returns (pos: nat)
    requires out.Length == 32
    modifies out
    ensures pos <= 8 && out[..pos] == Trimmed(e[..8])
  {
    pos := 0;
    var i: nat := 0;
    ghost var stem := e[..8];
    while i < 8 && pos + 2 < out.Length
      invariant i <= 8 && pos <= i && out[..pos] == Trimmed(stem[..i])
    {
      TrimmedStep(stem, i);
      if e[i] != SPACE {
        out[pos] := e[i] as char;
        pos := pos + 1;
      }
      i := i + 1;
    }
    assert stem[..8] == stem;
  }

  /** The three letters behind the dot. */
  method DecodeExtension(e: Ent, out: array<char>, start: nat) returns (pos: nat)
    requires out.Length == 32 && start <= 9
    modifies out
    ensures start <= pos <= start + 3 && out[..pos] == old(out[..start]) + Trimmed(e[8..11])
  {
    pos := start;
    var i: nat := 8;
    ghost var letters := e[8..11];
    while i < 11 && pos + 1 < out.Length
      invariant 8 <= i <= 11 && start <= pos <= start + i - 8
      invariant out[..pos] == old(out[..start]) + Trimmed(letters[..i - 8])
    {
      TrimmedStep(letters, i - 8);
      if e[i] != SPACE {
        out[pos] := e[i] as char;
        pos := pos + 1;
      }
      i := i + 1;
    }
    assert letters[..3] == letters;
  }

  /** decode_83_name into its 32-byte array. */
  method DecodeName(e: Ent, out: array<char>) returns (pos: nat)
    requires out.Length == 32
    modifies out
    ensures pos == |ShortName(e)| && out[..pos] == ShortName(e) && out[pos] == NUL
  {
    hide Trimmed;
    pos := DecodeStem(e, out);
    if e[8] != SPACE {
      out[pos] := '.';
      assert out[..pos + 1] == Trimmed(e[..8]) + ".";
      pos := DecodeExtension(e, out, pos + 1);
    }
    out[pos] := NUL;
  }

  /** The path in its 256-byte buffer, with room for the NUL. */
  method BuildPath(path: CString, name: array<char>, ghost text: CString) returns (full: CString)
    requires Holds32(name, text) && |path| + 1 + |text| < 256
    ensures full == FullName(path, text)
  {
    var buf := new char[256](_ => NUL);
    var n: nat := 0;
    while n < |path|
      invariant n <= |path| && buf[..n] == path[..n]
    {
      buf[n] := path[n];
      n := n + 1;
    }
    if n > 0 && buf[n - 1] != '/' {
      buf[n] := '/';
      n := n + 1;
    }
    ghost var dir := buf[..n];
    n := AppendName(buf, n, name, text);
    buf[n] := NUL;
    full := buf[..n];
  }

  predicate Holds32(name: array<char>, text: string)
    reads name
  {
    name.Length == 32 && |text| < 32 && name[..|text|] == text && name[|text|] == NUL
  }

  method AppendName(buf: array<char>, start: nat, name: array<char>, ghost text: CString) returns (n: nat)
    requires buf != name && Holds32(name, text) && start + |text| < buf.Length
    modifies buf
    ensures n == start + |text| && buf[..n] == old(buf[..start]) + text
  {
    n := start;
    var j: nat := 0;
    assert 0 < |text| ==> name[..|text|][0] == text[0] && text[0] in text;
    while j < name.Length && name[j] != NUL
      invariant j <= |text| && n == start + j && Holds32(name, text) && (j < |text| ==> name[j] != NUL)
      invariant buf[..n] == old(buf[..start]) + text[..j]
      decreases name.Length - j
    {
      assert j < |text| && name[j] == text[j];
      buf[n] := name[j];
      n, j := n + 1, j + 1;
      assert j < |text| ==> name[..|text|][j] == text[j] && text[j] in text;
    }
    assert j == |text|;
  }
}
