/** Little-endian numbers in byte sequences. */
module Bytes {
  type byte = b: nat | b < 256

  /** The number whose little-endian bytes are `bs`. */
  function Le(bs: seq<byte>): nat {
    if bs == [] then 0 else bs[0] + 256 * Le(bs[1..])
  }

  /** The `n` little-endian bytes of `v`. */
  function Enc(v: nat, n: nat): (bs: seq<byte>)
    ensures |bs| == n
    decreases n
  {
    if n == 0 then [] else [v % 256] + Enc(v / 256, n - 1)
  }

  function Limit(n: nat): (p: nat)
    ensures p > 0
  {
    if n == 0 then 1 else 256 * Limit(n - 1)
  }

  function U16(bs: seq<byte>, off: nat): (v: nat)
    requires off + 2 <= |bs|
  {
    Le(bs[off..off + 2])
  }

  function U32(bs: seq<byte>, off: nat): nat
    requires off + 4 <= |bs|
  {
    Le(bs[off..off + 4])
  }

  function U64(bs: seq<byte>, off: nat): nat
    requires off + 8 <= |bs|
  {
    Le(bs[off..off + 8])
  }

  lemma {:induction false} LeEnc(v: nat, n: nat)
    requires v < Limit(n)
    ensures Le(Enc(v, n)) == v
    decreases n
  {
    if n > 0 {
      LeEnc(v / 256, n - 1);
    }
  }

  lemma {:induction false} LeBound(bs: seq<byte>)
    ensures Le(bs) < Limit(|bs|)
  {
    if bs != [] {
      LeBound(bs[1..]);
    }
  }

  lemma Limits()
    ensures Limit(2) == 0x1_0000 && Limit(4) == 0x1_0000_0000 && Limit(8) == 0x1_0000_0000_0000_0000
  {
    assert Limit(3) == 0x100_0000;
    assert Limit(6) == 0x1_0000_0000_0000;
  }

  /** `part` lies in `bs` at offset `off`. */
  predicate At(bs: seq<byte>, off: nat, part: seq<byte>) {
    off + |part| <= |bs| && bs[off..off + |part|] == part
  }

  lemma AtSplit(bs: seq<byte>, off: nat, a: seq<byte>, b: seq<byte>)
    requires At(bs, off, a + b)
    ensures At(bs, off, a) && At(bs, off + |a|, b)
  {
    var w := bs[off..off + |a| + |b|];
    assert w[..|a|] == a && w[|a|..] == b;
    assert bs[off..off + |a|] == w[..|a|];
    assert bs[off + |a|..off + |a| + |b|] == w[|a|..];
  }

  /** A field read at its own offset gives the number that was written there. */
  lemma FieldAt(bs: seq<byte>, off: nat, v: nat, n: nat)
    requires At(bs, off, Enc(v, n)) && v < Limit(n)
    ensures off + n <= |bs| && Le(bs[off..off + n]) == v
  {
    LeEnc(v, n);
  }

  /** A field followed by more. */
  lemma FieldThen(bs: seq<byte>, off: nat, v: nat, n: nat, rest: seq<byte>)
    requires At(bs, off, Enc(v, n) + rest) && v < Limit(n)
    ensures off + n <= |bs| && Le(bs[off..off + n]) == v && At(bs, off + n, rest)
  {
    AtSplit(bs, off, Enc(v, n), rest);
    FieldAt(bs, off, v, n);
  }
}
