/**
  Building a node slot by slot (src/B_tree.rs:125-140): a node under
  construction is Ready when its first slots hold a sequence of entries and
  the offset slot after them records where the next entry goes. Appending an
  entry at that slot keeps it Ready, one entry longer.
*/
module Append {
  import opened Bytes
  import opened Codec
  import opened Layout

  /** The empty node: set_header on a zeroed buffer with room for the pointer and offset slots. */
  lemma {:induction false} FreshReady(size: nat, btype: nat, n: nat)
    requires HEADER <= size <= 2 * PAGE_SIZE && btype < U16_LIMIT && n < U16_LIMIT
    requires HEADER + 10 * n <= size
    ensures var d := SetHeader(Zeros(size), btype, n);
      IsBuffer(d) && BType(d) == btype && NKeys(d) == n && Ready(d, [])
  {
    var z := Zeros(size);
    var d := SetHeader(z, btype, n);
    HeaderRoundTrip(z, btype, n);
    if n > 0 {
      var p := OffsetPos(n, 0);
      SubSlice(d, z, HEADER, size, p, p + 2);
      assert z[p..p + 2] == U16Bytes(0);
      U16Decode(z, p, 0);
      U16Same(d, z, p, p);
    }
  }

  /** Setting the pointer of the next slot keeps the laid entries and the next offset. */
  lemma {:induction false} ReadyPointer(d: seq<byte>, es: seq<Entry>, v: nat)
    requires IsBuffer(d) && Ready(d, es) && |es| < NKeys(d) && v < U64_LIMIT
    ensures PointerOk(d, |es|)
    ensures var r := SetPointer(d, |es|, v);
      Ready(r, es) && PointerOk(r, |es|) && GetPointer(r, |es|) == v
  {
    var i := |es|;
    ReadyOpen(d, es);
    PointerRoundTrip(d, i, v);
    SetPointerIs(d, i, v);
    LaidWrite(d, es, PointerPos(i), U64Bytes(v));
    OffsetWrite(d, PointerPos(i), U64Bytes(v), i);
    ReadyClose(SetPointer(d, i, v), es);
  }

  /** Slot i of d has pointer e.ptr and offset off, and e fits at that offset of the blob. */
  predicate SlotSet(d: seq<byte>, i: nat, e: Entry, off: nat)
  {
    && IsBuffer(d) && i < NKeys(d)
    && PointerOk(d, i) && GetPointer(d, i) == e.ptr
    && OffsetOk(d, i) && GetOffset(d, i) == off
    && BlobAt(d) + off + Width(e) <= |d|
  }

  /** Slot |es| of d is set up for entry e right after the laid entries es. */
  predicate SlotReady(d: seq<byte>, es: seq<Entry>, e: Entry)
  {
    IsBuffer(d) && Laid(d, es) && SlotSet(d, |es|, e, Span(es))
  }

  /** Writing the next entry at position p, the end of the laid blob, lays one more entry. */
  lemma {:induction false} ReadyEntry(d: seq<byte>, es: seq<Entry>, e: Entry, p: nat)
    requires SlotReady(d, es, e) && p == BlobAt(d) + Span(es)
    ensures HEADER <= p && p + Width(e) <= |d|
    ensures var r := PutEntry(d, p, e.key, e.val);
      IsBuffer(r) && BType(r) == BType(d) && NKeys(r) == NKeys(d) && Laid(r, es + [e])
  {
    var w := EntryBytes(e.key, e.val);
    var q := p + |w|;
    var r := Write(d, p, w);
    WriteAgrees(d, p, w);
    WriteInside(d, p, w);
    EntryDecode(r, p, q, e.key, e.val);
    EntryExtends(d, r, es, e, p, q);
  }

  /**
    A buffer that agrees with d but for the bytes [p, q) after the laid
    entries, where it holds e's encoding, lays one more entry.
  */
  lemma {:induction false} EntryExtends(d: seq<byte>, r: seq<byte>, es: seq<Entry>, e: Entry, p: nat, q: nat)
    requires SlotReady(d, es, e) && p == BlobAt(d) + Span(es) && q == p + Width(e)
    requires Agrees(d, r, p, q) && EntryIs(r, p, e.key, e.val)
    ensures IsBuffer(r) && BType(r) == BType(d) && NKeys(r) == NKeys(d) && Laid(r, es + [e])
  {
    NewSlot(d, r, |es|, e, Span(es), p, q);
    LaidAgree(d, r, es, p, q);
    LaidSnoc(r, es, e);
  }

  /** A slot set up for e, in a buffer whose entry at the slot's offset decodes as e, holds e. */
  lemma {:induction false} NewSlot(d: seq<byte>, r: seq<byte>, i: nat, e: Entry, off: nat, p: nat, q: nat)
    requires SlotSet(d, i, e, off) && p == BlobAt(d) + off && q == p + Width(e)
    requires Agrees(d, r, p, q) && EntryIs(r, p, e.key, e.val)
    ensures IsBuffer(r) && NKeys(r) == NKeys(d) && SlotHolds(r, i, e, off)
  {
    AgreesSlice(d, r, p, q, 0, BlobAt(d));
    FrontSame(d, r, i);
    EntryAt(r, i, p, e.key, e.val);
  }

  /** Recording the next offset after the laid entries: set_offset(|es|, Span(es)). */
  lemma {:induction false} ReadyOffset(d: seq<byte>, es: seq<Entry>)
    requires IsBuffer(d) && Laid(d, es) && Span(es) < U16_LIMIT
    ensures |es| < NKeys(d) ==> OffsetOk(d, |es|)
    ensures Ready(SetOffset(d, |es|, Span(es)), es)
  {
    var i, n := |es|, NKeys(d);
    OffsetRoundTrip(d, i, Span(es));
    SetOffsetIs(d, i, Span(es));
    if i < n {
      LaidWrite(d, es, OffsetPos(n, i), U16Bytes(Span(es)));
    }
  }

  /**
    The writes of node_append_kv_pair at the next slot of a node under
    construction: the node holds one more entry and is ready for the next.
  */
  lemma {:induction false} AppendKVWriteReady(d: seq<byte>, es: seq<Entry>, e: Entry)
    requires IsBuffer(d) && Ready(d, es) && |es| < NKeys(d)
    requires BlobAt(d) + Span(es) + Width(e) <= |d|
    ensures PointerOk(d, |es|) && OffsetOk(d, |es|) && KvPos(d, |es|) == BlobAt(d) + Span(es)
    ensures GetOffset(d, |es|) + Width(e) < U16_LIMIT
    ensures var r := AppendKVWrite(d, e.ptr, |es|, e.key, e.val);
      BType(r) == BType(d) && NKeys(r) == NKeys(d) && Ready(r, es + [e])
  {
    var d2, v := WritesReady(d, es, e);
    AppendKVWriteIs(d, e.ptr, |es|, e.key, e.val, d2, v);
    ReadySame(SetOffset(d2, |es| + 1, v), AppendKVWrite(d, e.ptr, |es|, e.key, e.val), es + [e]);
  }

  /**
    The pointer and the entry written at the next slot (d2), then the offset
    after it (v): the node lays one more entry and is ready for the next.
  */
  lemma {:induction false} WritesReady(d: seq<byte>, es: seq<Entry>, e: Entry) returns (d2: seq<byte>, v: nat)
    requires IsBuffer(d) && Ready(d, es) && |es| < NKeys(d)
    requires BlobAt(d) + Span(es) + Width(e) <= |d|
    ensures PointerOk(d, |es|) && OffsetOk(d, |es|) && KvPos(d, |es|) == BlobAt(d) + Span(es)
    ensures d2 == PutEntry(SetPointer(d, |es|, e.ptr), KvPos(d, |es|), e.key, e.val)
    ensures v == GetOffset(d, |es|) + HEADER + |e.key| + |e.val| && v < U16_LIMIT
    ensures IsBuffer(d2) && BType(d2) == BType(d) && NKeys(d2) == NKeys(d)
    ensures Ready(SetOffset(d2, |es| + 1, v), es + [e])
  {
    PointerReady(d, es, e);
    var d1 := SetPointer(d, |es|, e.ptr);
    var p := KvPos(d, |es|);
    ReadyEntry(d1, es, e, p);
    d2 := PutEntry(d1, p, e.key, e.val);
    v := GetOffset(d, |es|) + HEADER + |e.key| + |e.val|;
    SpanSnoc(es, e);
    ReadyNext(d2, es, e, v);
  }

  /** The first write of node_append_kv_pair at the next slot: the slot is set up for the entry. */
  lemma {:induction false} PointerReady(d: seq<byte>, es: seq<Entry>, e: Entry)
    requires IsBuffer(d) && Ready(d, es) && |es| < NKeys(d)
    requires BlobAt(d) + Span(es) + Width(e) <= |d|
    ensures PointerOk(d, |es|) && OffsetOk(d, |es|) && KvPos(d, |es|) == BlobAt(d) + Span(es)
    ensures GetOffset(d, |es|) == Span(es)
    ensures SlotReady(SetPointer(d, |es|, e.ptr), es, e)
  {
    ReadyOpen(d, es);
    ReadyPointer(d, es, e.ptr);
    ReadyOpen(SetPointer(d, |es|, e.ptr), es);
  }

  /** Equal buffers hold the same entries. */
  lemma {:induction false} ReadySame(a: seq<byte>, b: seq<byte>, es: seq<Entry>)
    requires IsBuffer(a) && a == b && Ready(a, es)
    ensures IsBuffer(b) && Ready(b, es)
  {
  }

  /**
    node_append_kv_pair at the next slot of a node under construction: it
    succeeds when the entry fits, and the node holds one more entry.
  */
  lemma {:induction false} AppendKVReady(d: seq<byte>, es: seq<Entry>, e: Entry)
    requires IsBuffer(d) && Ready(d, es) && |es| < NKeys(d)
    requires BlobAt(d) + Span(es) + Width(e) <= |d|
    ensures AppendKV(d, e.ptr, |es|, e.key, e.val).Some?
    ensures var r := AppendKV(d, e.ptr, |es|, e.key, e.val).value;
      IsBuffer(r) && |r| == |d| && BType(r) == BType(d) && NKeys(r) == NKeys(d) && Ready(r, es + [e])
  {
    AppendKVWriteReady(d, es, e);
  }

  /** The offset after the new entry, once it is laid. */
  lemma {:induction false} ReadyNext(d: seq<byte>, es: seq<Entry>, e: Entry, v: nat)
    requires IsBuffer(d) && Laid(d, es + [e]) && v == Span(es + [e])
    ensures OffsetOk(d, |es|) && v < U16_LIMIT
    ensures Ready(SetOffset(d, |es| + 1, v), es + [e])
  {
    var t := es + [e];
    assert t[..|t| - 1] == es;
    LaidFits(d, t);
    ReadyOffset(d, t);
  }
}
