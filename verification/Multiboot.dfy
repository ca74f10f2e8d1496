/**
 The memory map walk over a Multiboot2 information block (Multiboot2 Specification, section 3.6.8),
 against an encoder of such blocks.
 */
module Multiboot {
  import opened Words
  import opened Bytes
  import opened FrameRuns

  const MMAP: nat := 6

  /** `pad` is what an entry carries beyond the 24 bytes the kernel knows. */
  datatype Tag =
    | Mmap(version: nat, entries: seq<Entry>, pad: seq<byte>)
    | Other(kind: nat, payload: seq<byte>)

  function EncEntry(e: Entry, pad: seq<byte>): (bs: seq<byte>)
    ensures |bs| == 24 + |pad|
  {
    Enc(e.addr, 8) + (Enc(e.len, 8) + (Enc(e.kind, 4) + (Enc(0, 4) + pad)))
  }

  lemma OneEntryMore(n: nat, size: nat)
    ensures (n + 1) * size == n * size + size
  {
  }

  function EncEntries(es: seq<Entry>, pad: seq<byte>): (bs: seq<byte>)
    ensures |bs| == |es| * (24 + |pad|)
  {
    if es == [] then []
    else
      OneEntryMore(|es| - 1, 24 + |pad|);
      EncEntry(es[0], pad) + EncEntries(es[1..], pad)
  }

  function TagSize(t: Tag): nat {
    match t
    case Mmap(_, es, pad) => 16 + |es| * (24 + |pad|)
    case Other(_, payload) => 8 + |payload|
  }

  function Round8(n: nat): (r: nat)
    ensures n <= r < n + 8 && r % 8 == 0
  {
    (n + 7) / 8 * 8
  }

  function EncTag(t: Tag): (bs: seq<byte>)
    ensures |bs| == TagSize(t)
  {
    match t
    case Mmap(version, es, pad) =>
      Enc(MMAP, 4) + (Enc(TagSize(t), 4) + (Enc(24 + |pad|, 4) + (Enc(version, 4) + EncEntries(es, pad))))
    case Other(kind, payload) =>
      Enc(kind, 4) + (Enc(TagSize(t), 4) + payload)
  }

  /** The padding after a tag. */
  function Fill(t: Tag): (bs: seq<byte>)
    ensures |bs| == Round8(TagSize(t)) - TagSize(t)
  {
    seq(Round8(TagSize(t)) - TagSize(t), _ => 0)
  }

  /** Tags are padded to 8 bytes and closed by the end tag, type 0 and size 8. */
  function EncTags(ts: seq<Tag>): (bs: seq<byte>)
    ensures |bs| >= 8
  {
    if ts == [] then Enc(0, 4) + Enc(8, 4)
    else EncTag(ts[0]) + (Fill(ts[0]) + EncTags(ts[1..]))
  }

  function EncInfo(ts: seq<Tag>): seq<byte> {
    Enc(8 + |EncTags(ts)|, 4) + (Enc(0, 4) + EncTags(ts))
  }

  predicate TagOk(t: Tag) {
    match t
    case Mmap(version, es, pad) =>
      version < TWO32 && |pad| < TWO32 - 24 && forall i :: 0 <= i < |es| ==> es[i].kind < TWO32
    case Other(kind, _) => 0 < kind < TWO32 && kind != MMAP
  }

  predicate WellFormed(ts: seq<Tag>) {
    8 + |EncTags(ts)| < TWO32 && forall i :: 0 <= i < |ts| ==> TagOk(ts[i])
  }

  /** All memory map entries, tag by tag. */
  function EntriesOf(ts: seq<Tag>): seq<Entry> {
    if ts == [] then []
    else (match ts[0] case Mmap(_, es, _) => es case Other(_, _) => []) + EntriesOf(ts[1..])
  }

  /** Those of one tag list and then those of the next; tags of other kinds have none. */
  lemma {:induction false} EntriesInOrder(a: seq<Tag>, b: seq<Tag>)
    ensures EntriesOf(a + b) == EntriesOf(a) + EntriesOf(b)
    decreases |a|
  {
    if a == [] {
      assert a + b == b;
    } else {
      FirstTag(a);
      FirstTag(a + b);
      assert (a + b)[1..] == a[1..] + b;
      hide EntriesOf;
      EntriesInOrder(a[1..], b);
    }
  }

  lemma FirstTag(ts: seq<Tag>)
    requires ts != []
    ensures EntriesOf(ts) == (if ts[0].Mmap? then ts[0].entries else []) + EntriesOf(ts[1..])
    ensures EntriesOf([]) == []
  {
  }

  lemma TagHeader(bs: seq<byte>, off: nat, t: Tag)
    requires TagOk(t) && TagSize(t) < TWO32 && At(bs, off, EncTag(t))
    ensures off + 8 <= |bs|
    ensures U32(bs, off) == (if t.Mmap? then MMAP else t.kind) && U32(bs, off + 4) == TagSize(t)
    ensures t.Mmap? ==> off + 12 <= |bs| && U32(bs, off + 8) == 24 + |t.pad| && At(bs, off + 16, EncEntries(t.entries, t.pad))
  {
    hide Enc, Le, EncEntries;
    Limits();
    match t
    case Mmap(version, es, pad) =>
      var body := Enc(version, 4) + EncEntries(es, pad);
      FieldThen(bs, off, MMAP, 4, Enc(TagSize(t), 4) + (Enc(24 + |pad|, 4) + body));
      FieldThen(bs, off + 4, TagSize(t), 4, Enc(24 + |pad|, 4) + body);
      FieldThen(bs, off + 8, 24 + |pad|, 4, body);
      AtSplit(bs, off + 12, Enc(version, 4), EncEntries(es, pad));
    case Other(kind, payload) =>
      FieldThen(bs, off, kind, 4, Enc(TagSize(t), 4) + payload);
      FieldThen(bs, off + 4, TagSize(t), 4, payload);
  }

  lemma EntryFields(bs: seq<byte>, off: nat, e: Entry, pad: seq<byte>)
    requires e.kind < TWO32 && At(bs, off, EncEntry(e, pad))
    ensures off + 20 <= |bs|
    ensures U64(bs, off) == e.addr && U64(bs, off + 8) == e.len && U32(bs, off + 16) == e.kind
  {
    hide Enc, Le;
    Limits();
    var last := Enc(0, 4) + pad;
    FieldThen(bs, off, e.addr, 8, Enc(e.len, 8) + (Enc(e.kind, 4) + last));
    FieldThen(bs, off + 8, e.len, 8, Enc(e.kind, 4) + last);
    FieldThen(bs, off + 16, e.kind, 4, last);
  }

  lemma FirstEntry(es: seq<Entry>, pad: seq<byte>)
    requires es != []
    ensures EncEntries(es, pad) == EncEntry(es[0], pad) + EncEntries(es[1..], pad)
  {
    hide EncEntry;
  }

  lemma EntriesSplit(bs: seq<byte>, off: nat, es: seq<Entry>, pad: seq<byte>)
    requires es != [] && At(bs, off, EncEntries(es, pad))
    ensures At(bs, off, EncEntry(es[0], pad)) && At(bs, off + 24 + |pad|, EncEntries(es[1..], pad))
  {
    hide At, EncEntries, EncEntry;
    FirstEntry(es, pad);
    EntryThen(bs, off, 24 + |pad|, EncEntry(es[0], pad), EncEntries(es[1..], pad), EncEntries(es, pad));
  }

  lemma EntryThen(bs: seq<byte>, off: nat, size: nat, a: seq<byte>, b: seq<byte>, all: seq<byte>)
    requires |a| == size && all == a + b && At(bs, off, all)
    ensures At(bs, off, a) && At(bs, off + size, b)
  {
    AtSplit(bs, off, a, b);
  }

  lemma TagsSplit(bs: seq<byte>, off: nat, ts: seq<Tag>)
    requires ts != [] && At(bs, off, EncTags(ts))
    ensures At(bs, off, EncTag(ts[0])) && At(bs, off + Round8(TagSize(ts[0])), EncTags(ts[1..]))
    ensures |EncTags(ts)| == Round8(TagSize(ts[0])) + |EncTags(ts[1..])|
  {
    hide Enc, EncTag;
    var t := ts[0];
    AtSplit(bs, off, EncTag(t), Fill(t) + EncTags(ts[1..]));
    AtSplit(bs, off + TagSize(t), Fill(t), EncTags(ts[1..]));
  }

  lemma EndTag(bs: seq<byte>, off: nat)
    requires At(bs, off, EncTags([]))
    ensures off + 8 <= |bs| && U32(bs, off) == 0 && U32(bs, off + 4) == 8 && |EncTags([])| == 8
  {
    hide Enc, Le;
    Limits();
    FieldThen(bs, off, 0, 4, Enc(8, 4));
    FieldAt(bs, off + 4, 8, 4);
  }

  lemma InfoHeader(ts: seq<Tag>)
    requires WellFormed(ts)
    ensures var info := EncInfo(ts); 16 <= |info| == 8 + |EncTags(ts)| < TWO32 && U32(info, 0) == |info| && At(info, 8, EncTags(ts))
  {
    hide Enc, Le, EncTags;
    SomeBytes(ts);
    Limits();
    var info := EncInfo(ts);
    assert info[0..|info|] == info;
    assert At(info, 0, info);
    FieldThen(info, 0, |info|, 4, Enc(0, 4) + EncTags(ts));
    AtSplit(info, 4, Enc(0, 4), EncTags(ts));
  }

  /** The inner loop: every entry of one memory map tag once, in order. */
  method VisitEntries(info: seq<byte>, first: nat, end: nat, entrySize: nat, ghost es: seq<Entry>, ghost pad: seq<byte>)
    returns (visited: seq<Entry>)
    requires At(info, first, EncEntries(es, pad))
    requires entrySize == 24 + |pad| && end == first + |EncEntries(es, pad)|
    requires forall i :: 0 <= i < |es| ==> es[i].kind < TWO32
    ensures visited == es
  {
    hide Enc, Le, EncEntry;
    visited := [];
    var ent: nat := first;
    ghost var left := es;
    while ent + entrySize <= end
      invariant visited + left == es && forall i :: 0 <= i < |left| ==> left[i].kind < TWO32
      invariant At(info, ent, EncEntries(left, pad)) && end == ent + |EncEntries(left, pad)|
      decreases |left|
    {
      assert left != [];
      EntriesSplit(info, ent, left, pad);
      EntryFields(info, ent, left[0], pad);
      visited := visited + [Entry(U64(info, ent), U64(info, ent + 8), U32(info, ent + 16))];
      left := left[1..];
      ent := ent + entrySize;
    }
    NoRoomNoEntries(left, pad);
  }

  lemma NoRoomNoEntries(es: seq<Entry>, pad: seq<byte>)
    ensures es != [] ==> |EncEntries(es, pad)| >= 24 + |pad|
  {
  }

  /**
   memory_parse_mmap on a well-formed block: it stops at the end tag and reports each entry of each
   memory map tag once and in order. The callback is the caller's loop over the result.
   */
  method ParseMmap(info: seq<byte>, ghost ts: seq<Tag>) returns (visited: seq<Entry>)
    requires WellFormed(ts) && info == EncInfo(ts)
    ensures visited == EntriesOf(ts)
  {
    hide Enc, Le, EncTag, EncTags, EncEntries, EncInfo, EntriesOf, TagOk, TagSize, Round8, At, U32;
    visited := [];
    TagsOk(ts);
    InfoHeader(ts);
    var ptr: nat, end := 8, U32(info, 0);
    ghost var left := ts;
    while ptr < end
      invariant visited + EntriesOf(left) == EntriesOf(ts)
      invariant ptr < end && At(info, ptr, EncTags(left)) && end == ptr + |EncTags(left)| == |info|
      invariant forall i :: 0 <= i < |left| ==> TagOk(left[i])
      decreases |left|
    {
      HeaderHere(info, ptr, left);
      var kind, size := U32(info, ptr), U32(info, ptr + 4);
      if kind == 0 && size == 8 { break; }
      if kind == MMAP {
        var entries := VisitEntries(info, ptr + 16, ptr + size, U32(info, ptr + 8), left[0].entries, left[0].pad);
        visited := visited + entries;
      }
      ptr := ptr + (size + 7) / 8 * 8;
      left := left[1..];
    }
  }

  lemma TagsOk(ts: seq<Tag>)
    requires WellFormed(ts)
    ensures forall i :: 0 <= i < |ts| ==> TagOk(ts[i])
  {
  }

  /** What the loop finds at the next tag. */
  lemma HeaderHere(info: seq<byte>, ptr: nat, left: seq<Tag>)
    requires At(info, ptr, EncTags(left)) && ptr + |EncTags(left)| == |info| < TWO32 && (left != [] ==> TagOk(left[0]))
    ensures ptr + 8 <= |info|
    ensures left == [] ==> U32(info, ptr) == 0 && U32(info, ptr + 4) == 8 && EntriesOf(left) == []
    ensures left != [] ==>
              var t := left[0];
              && U32(info, ptr) == (if t.Mmap? then MMAP else t.kind) && U32(info, ptr + 4) == TagSize(t) && (U32(info, ptr) == MMAP <==> t.Mmap?)
              && U32(info, ptr) != 0
              && EntriesOf(left) == (if t.Mmap? then t.entries else []) + EntriesOf(left[1..])
              && (t.Mmap? ==> ptr + 12 <= |info| && U32(info, ptr + 8) == 24 + |t.pad| && At(info, ptr + 16, EncEntries(t.entries, t.pad))
                              && TagSize(t) == 16 + |EncEntries(t.entries, t.pad)| && forall i :: 0 <= i < |t.entries| ==> t.entries[i].kind < TWO32)
              && var next := ptr + (TagSize(t) + 7) / 8 * 8;
                 At(info, next, EncTags(left[1..])) && next + |EncTags(left[1..])| == |info| && next < |info|
  {
    hide Enc, Le, EncTag, EncEntries, U32, At;
    if left == [] {
      EndTag(info, ptr);
    } else {
      TagsSplit(info, ptr, left);
      TagHeader(info, ptr, left[0]);
      SomeBytes(left[1..]);
    }
  }

  lemma SomeBytes(ts: seq<Tag>)
    ensures |EncTags(ts)| >= 8
  {
    hide Enc;
  }
}
