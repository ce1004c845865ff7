/**
  What a node's bytes mean: the entries (child pointer, key, value) that the
  accessors of src/B_tree.rs read back, and the layout the builders
  maintain, with entry k starting Span(es[..k]) bytes into the blob.

  Laid is defined slot by slot, so that a proof about a node sees the facts
  of one slot at a time and reaches the others through LaidSlot.
*/
module Layout {
  import opened Bytes
  import opened Order
  import opened Codec

  /** One slot of a node as the accessors read it: child pointer, key and value. */
  datatype Slot = Slot(ptr: nat, key: seq<byte>, val: seq<byte>)

  /** A slot whose pointer fits a u64 and whose lengths fit their u16 length fields. */
  type Entry = e: Slot | e.ptr < U64_LIMIT && |e.key| < U16_LIMIT && |e.val| < U16_LIMIT
    witness Slot(0, [], [])

  /** Bytes one entry takes in the blob: both length fields, key and value. */
  function Width(e: Entry): nat
  {
    HEADER + |e.key| + |e.val|
  }

  /** Bytes the entries take in the blob. */
  function Span(es: seq<Entry>): nat
  {
    if es == [] then 0 else Span(es[..|es| - 1]) + Width(es[|es| - 1])
  }

  /** Bytes a node holding es occupies: header, pointers, offsets and blob. */
  function EncodedSize(es: seq<Entry>): nat
  {
    HEADER + 10 * |es| + Span(es)
  }

  /** Absolute position of the blob: past the header, the pointers and the offsets. */
  function BlobAt(d: seq<byte>): nat
    requires IsBuffer(d)
  {
    HEADER + 10 * NKeys(d)
  }

  /**
    Slot i of d reads back as e, with its entry at offset off of the blob.
    Kept behind `depth` unfoldings like EntryIs; SlotOpen expands it.
  */
  predicate SlotHolds(d: seq<byte>, i: nat, e: Entry, off: nat, depth: nat := 2)
    requires IsBuffer(d)
    decreases |d|, depth
  {
    if depth > 0 then SlotHolds(d, i, e, off, depth - 1)
    else
      && PointerOk(d, i) && GetPointer(d, i) == e.ptr
      && OffsetOk(d, i) && GetOffset(d, i) == off
      && ValueOk(d, i) && GetKey(d, i) == e.key && GetValue(d, i) == e.val
  }

  lemma {:induction false} SlotOpen(d: seq<byte>, i: nat, e: Entry, off: nat)
    requires IsBuffer(d) && SlotHolds(d, i, e, off)
    ensures PointerOk(d, i) && GetPointer(d, i) == e.ptr
    ensures OffsetOk(d, i) && GetOffset(d, i) == off
    ensures ValueOk(d, i) && GetKey(d, i) == e.key && GetValue(d, i) == e.val
  {
    assert SlotHolds(d, i, e, off, 0);
  }

  /** The first |es| slots of d hold es, back to back in the blob. */
  predicate Laid(d: seq<byte>, es: seq<Entry>)
    requires IsBuffer(d)
    decreases |es|
  {
    && |es| <= NKeys(d) && BlobAt(d) <= |d|
    && (es != [] ==>
          Laid(d, es[..|es| - 1]) && SlotHolds(d, |es| - 1, es[|es| - 1], Span(es[..|es| - 1])))
  }

  /** Offset slot k, when it exists, holds v. */
  predicate NextOffset(d: seq<byte>, k: nat, v: nat)
    requires IsBuffer(d)
  {
    k < NKeys(d) ==> OffsetOk(d, k) && GetOffset(d, k) == v
  }

  /** es is laid out and the offset of the next slot is recorded: ready for the next append. */
  predicate Ready(d: seq<byte>, es: seq<Entry>, depth: nat := 2)
    requires IsBuffer(d)
    decreases |d|, depth
  {
    if depth > 0 then Ready(d, es, depth - 1) else Laid(d, es) && NextOffset(d, |es|, Span(es))
  }

  /** Ready is kept behind `depth` unfoldings; ReadyOpen and ReadyClose expand it. */
  lemma {:induction false} ReadyOpen(d: seq<byte>, es: seq<Entry>)
    requires IsBuffer(d) && Ready(d, es)
    ensures Laid(d, es) && NextOffset(d, |es|, Span(es))
  {
    assert Ready(d, es, 0);
  }

  lemma {:induction false} ReadyClose(d: seq<byte>, es: seq<Entry>)
    requires IsBuffer(d) && Laid(d, es) && NextOffset(d, |es|, Span(es))
    ensures Ready(d, es)
  {
    assert Ready(d, es, 0);
  }

  /** d is a well-formed node holding exactly es. */
  predicate Holds(d: seq<byte>, es: seq<Entry>, depth: nat := 2)
    requires IsBuffer(d)
    decreases |d|, depth
  {
    if depth > 0 then Holds(d, es, depth - 1) else NKeys(d) == |es| && Laid(d, es)
  }

  /** Holds is kept behind `depth` unfoldings; HoldsOpen and HoldsClose expand it. */
  lemma {:induction false} HoldsOpen(d: seq<byte>, es: seq<Entry>)
    requires IsBuffer(d) && Holds(d, es)
    ensures NKeys(d) == |es| && Laid(d, es)
  {
    assert Holds(d, es, 0);
  }

  /** A node holding es has |es| keys. */
  lemma {:induction false} HoldsCount(d: seq<byte>, es: seq<Entry>)
    requires IsBuffer(d) && Holds(d, es)
    ensures NKeys(d) == |es|
  {
    assert Holds(d, es, 0);
  }

  lemma {:induction false} HoldsClose(d: seq<byte>, es: seq<Entry>)
    requires IsBuffer(d) && NKeys(d) == |es| && Laid(d, es)
    ensures Holds(d, es)
  {
    assert Holds(d, es, 0);
  }

  /** Every slot of d reads back as the corresponding entry of es. */
  predicate Reads(d: seq<byte>, es: seq<Entry>)
    requires IsBuffer(d)
  {
    && NKeys(d) == |es|
    && (forall k :: 0 <= k < |es| ==> PointerOk(d, k) && GetPointer(d, k) == es[k].ptr)
    && (forall k :: 0 <= k < |es| ==> ValueOk(d, k) && GetKey(d, k) == es[k].key && GetValue(d, k) == es[k].val)
  }

  /** Keys from slot 1 on are non-empty and strictly increasing (slot 0 is the sentinel). */
  predicate SortedKeys(es: seq<Entry>)
  {
    && (forall j :: 1 <= j < |es| ==> es[j].key != [])
    && (forall i, j :: 1 <= i < j < |es| ==> Less(es[i].key, es[j].key))
  }

  // ---------------------------------------------------------------------------
  // Spans
  // ---------------------------------------------------------------------------

  /** The entries before the last of es + [x] are es. */
  lemma {:induction false} SnocPrefix(es: seq<Entry>, x: Entry)
    ensures (es + [x])[..|es|] == es && (es + [x])[|es|] == x
  {
  }

  lemma {:induction false} SpanSnoc(es: seq<Entry>, e: Entry)
    ensures Span(es + [e]) == Span(es) + Width(e)
  {
    SnocPrefix(es, e);
  }

  lemma {:induction false} SpanAppend(a: seq<Entry>, b: seq<Entry>)
    ensures Span(a + b) == Span(a) + Span(b)
    decreases |b|
  {
    if b != [] {
      assert (a + b)[..|a + b| - 1] == a + b[..|b| - 1];
      SpanAppend(a, b[..|b| - 1]);
    } else {
      assert a + b == a;
    }
  }

  /** Span of a prefix and the slice after it. */
  lemma {:induction false} SpanSplit(es: seq<Entry>, i: nat, j: nat)
    requires i <= j <= |es|
    ensures Span(es[..j]) == Span(es[..i]) + Span(es[i..j])
  {
    assert es[..j] == es[..i] + es[i..j];
    SpanAppend(es[..i], es[i..j]);
  }

  /** A prefix spans no more than the whole. */
  lemma {:induction false} SpanPrefix(es: seq<Entry>, j: nat)
    requires j <= |es|
    ensures Span(es[..j]) <= Span(es)
  {
    SpanSplit(es, j, |es|);
    assert es[..|es|] == es;
  }

  /** Span of a prefix one entry longer. */
  lemma {:induction false} SpanStep(es: seq<Entry>, j: nat)
    requires j < |es|
    ensures Span(es[..j + 1]) == Span(es[..j]) + Width(es[j])
  {
    assert es[..j + 1][..j] == es[..j];
  }

  // ---------------------------------------------------------------------------
  // Laid, slot by slot
  // ---------------------------------------------------------------------------

  /** The entries of a laid-out node fit in the buffer. */
  lemma {:induction false} LaidFits(d: seq<byte>, es: seq<Entry>)
    requires IsBuffer(d) && Laid(d, es)
    ensures BlobAt(d) + Span(es) <= |d|
  {
    if es != [] {
      SlotEnd(d, |es| - 1, es[|es| - 1], Span(es[..|es| - 1]));
    }
  }

  /** One more slot laid after the others. */
  lemma {:induction false} LaidSnoc(d: seq<byte>, es: seq<Entry>, e: Entry)
    requires IsBuffer(d) && Laid(d, es) && |es| < NKeys(d) && SlotHolds(d, |es|, e, Span(es))
    ensures Laid(d, es + [e])
  {
    SnocPrefix(es, e);
  }

  /** Every slot of a laid-out node holds its entry. */
  lemma {:induction false} LaidSlot(d: seq<byte>, es: seq<Entry>, j: nat)
    requires IsBuffer(d) && Laid(d, es) && j < |es|
    ensures SlotHolds(d, j, es[j], Span(es[..j]))
    decreases |es|
  {
    var init := es[..|es| - 1];
    if j < |es| - 1 {
      LaidSlot(d, init, j);
      assert init[j] == es[j] && init[..j] == es[..j];
    }
  }

  /** A slot's entry ends Width bytes after its position in the blob. */
  lemma {:induction false} SlotEnd(d: seq<byte>, j: nat, e: Entry, off: nat)
    requires IsBuffer(d) && SlotHolds(d, j, e, off)
    ensures OffsetOk(d, j) && ValueOk(d, j)
    ensures KvPos(d, j) == BlobAt(d) + off && EntryEnd(d, KvPos(d, j)) == KvPos(d, j) + Width(e)
    ensures BlobAt(d) + off + Width(e) <= |d|
  {
    SlotOpen(d, j, e, off);
  }

  /** A slot that holds e has e's encoding at its position in the blob. */
  lemma {:induction false} SlotEntry(d: seq<byte>, j: nat, e: Entry, off: nat)
    requires IsBuffer(d) && SlotHolds(d, j, e, off)
    ensures EntryIs(d, BlobAt(d) + off, e.key, e.val) && BlobAt(d) + off + Width(e) <= |d|
  {
    SlotOpen(d, j, e, off);
    assert EntryIs(d, KvPos(d, j), e.key, e.val, 0);
  }

  /** Offset j of a laid-out node is the span of the entries before it. */
  lemma {:induction false} LaidOffset(d: seq<byte>, es: seq<Entry>, j: nat)
    requires IsBuffer(d) && Laid(d, es) && j < |es|
    ensures OffsetOk(d, j) && GetOffset(d, j) == Span(es[..j])
  {
    LaidSlot(d, es, j);
    SlotOpen(d, j, es[j], Span(es[..j]));
  }

  /** Slot j of a laid-out node reads back as es[j]. */
  lemma {:induction false} LaidReads(d: seq<byte>, es: seq<Entry>, j: nat)
    requires IsBuffer(d) && Laid(d, es) && j < |es|
    ensures PointerOk(d, j) && GetPointer(d, j) == es[j].ptr
    ensures ValueOk(d, j) && KvPos(d, j) == BlobAt(d) + Span(es[..j])
    ensures GetKey(d, j) == es[j].key && GetValue(d, j) == es[j].val
  {
    LaidSlot(d, es, j);
    SlotOpen(d, j, es[j], Span(es[..j]));
    SlotEnd(d, j, es[j], Span(es[..j]));
  }

  /** Slot j of a node holding es reads back the pointer es[j].ptr. */
  lemma {:induction false} HoldsPointer(d: seq<byte>, es: seq<Entry>, j: nat)
    requires IsBuffer(d) && Holds(d, es) && j < |es|
    ensures PointerOk(d, j) && GetPointer(d, j) == es[j].ptr
  {
    HoldsOpen(d, es);
    LaidReads(d, es, j);
  }

  lemma {:induction false} HoldsReads(d: seq<byte>, es: seq<Entry>)
    requires IsBuffer(d) && Holds(d, es)
    ensures Reads(d, es)
  {
    HoldsOpen(d, es);
    forall k | 0 <= k < |es|
      ensures PointerOk(d, k) && GetPointer(d, k) == es[k].ptr
      ensures ValueOk(d, k) && GetKey(d, k) == es[k].key && GetValue(d, k) == es[k].val
    {
      LaidReads(d, es, k);
    }
  }

  /**
    size() of a well-formed node is its encoded size less four: it adds the
    last entry's key and value lengths but not its two length fields.
  */
  lemma {:induction false} SizeOfHolds(d: seq<byte>, es: seq<Entry>)
    requires IsBuffer(d) && Holds(d, es) && |es| >= 1
    ensures SizeOk(d) && Size(d) == EncodedSize(es) - HEADER
  {
    HoldsOpen(d, es);
    var last := |es| - 1;
    LaidReads(d, es, last);
  }

  /**
    r equals d except possibly on the bytes [lo, hi). Like EntryIs, the fact
    is kept behind `depth` unfoldings, all but the bounds; AgreesOpen expands it.
  */
  predicate Agrees(d: seq<byte>, r: seq<byte>, lo: nat, hi: nat, depth: nat := 2)
    decreases |d|, depth
  {
    && |r| == |d| && lo <= hi <= |d|
    && if depth > 0 then Agrees(d, r, lo, hi, depth - 1)
       else r[0..lo] == d[0..lo] && r[hi..|d|] == d[hi..|d|]
  }

  lemma {:induction false} AgreesOpen(d: seq<byte>, r: seq<byte>, lo: nat, hi: nat)
    requires Agrees(d, r, lo, hi)
    ensures |r| == |d| && lo <= hi <= |d|
    ensures r[0..lo] == d[0..lo] && r[hi..|d|] == d[hi..|d|]
  {
    assert Agrees(d, r, lo, hi, 0);
  }

  /** A write changes only the bytes it covers. */
  lemma {:induction false} WriteAgrees(d: seq<byte>, p: nat, s: seq<byte>)
    requires p + |s| <= |d|
    ensures Agrees(d, Write(d, p, s), p, p + |s|)
  {
    SliceWrite(d, p, s, 0, p);
    SliceWrite(d, p, s, p + |s|, |d|);
    assert Agrees(d, Write(d, p, s), p, p + |s|, 0);
  }

  /** Agrees restated on the same range written with other terms. */
  lemma {:induction false} AgreesMove(d: seq<byte>, r: seq<byte>, lo: nat, hi: nat, lo': nat, hi': nat)
    requires Agrees(d, r, lo, hi) && lo' == lo && hi' == hi
    ensures Agrees(d, r, lo', hi')
  {
  }

  /** Two changes on adjacent ranges make one change across both. */
  lemma {:induction false} AgreesJoin(a: seq<byte>, b: seq<byte>, c: seq<byte>, lo: nat, mid: nat, hi: nat)
    requires Agrees(a, b, lo, mid) && Agrees(b, c, mid, hi)
    ensures Agrees(a, c, lo, hi)
  {
    AgreesOpen(a, b, lo, mid);
    AgreesOpen(b, c, mid, hi);
    SubSlice(c, b, 0, mid, 0, lo);
    SubSlice(b, a, mid, |a|, hi, |a|);
    assert Agrees(a, c, lo, hi, 0);
  }

  /** Where r agrees with d, the slice [a, b) outside [lo, hi) is the same in both. */
  lemma {:induction false} AgreesSlice(d: seq<byte>, r: seq<byte>, lo: nat, hi: nat, a: nat, b: nat)
    requires Agrees(d, r, lo, hi) && a <= b && (b <= lo || (hi <= a && b <= |d|))
    ensures |r| == |d| && r[a..b] == d[a..b]
  {
    AgreesOpen(d, r, lo, hi);
    if b <= lo {
      SubSlice(r, d, 0, lo, a, b);
    } else {
      SubSlice(r, d, hi, |d|, a, b);
    }
  }

  /**
    The bytes [lo, hi) miss the slots of es: they lie among the free pointer
    slots, among the free offset slots, or past the laid blob.
  */
  predicate Misses(d: seq<byte>, es: seq<Entry>, lo: nat, hi: nat)
    requires IsBuffer(d)
  {
    && HEADER <= lo <= hi <= |d|
    && (|| (PointerPos(|es|) <= lo && hi <= OffsetPos(NKeys(d), 0))
        || (OffsetPos(NKeys(d), |es|) <= lo && hi <= BlobAt(d))
        || BlobAt(d) + Span(es) <= lo)
  }

  /** A slot whose pointer, offset and entry bytes lie outside [lo, hi) is held the same in r. */
  lemma {:induction false} SlotAgree(d: seq<byte>, r: seq<byte>, i: nat, e: Entry, off: nat, lo: nat, hi: nat)
    requires IsBuffer(d) && SlotHolds(d, i, e, off) && Agrees(d, r, lo, hi) && HEADER <= lo
    requires PointerPos(i) + 8 <= lo || hi <= PointerPos(i)
    requires OffsetPos(NKeys(d), i) + 2 <= lo || hi <= OffsetPos(NKeys(d), i)
    requires BlobAt(d) + off + Width(e) <= lo || hi <= BlobAt(d) + off
    ensures IsBuffer(r) && BType(r) == BType(d) && NKeys(r) == NKeys(d) && SlotHolds(r, i, e, off)
  {
    SlotOpen(d, i, e, off);
    SlotEnd(d, i, e, off);
    AgreesSlice(d, r, lo, hi, 0, HEADER);
    HeaderSame(d, r, HEADER);
    AgreesSlice(d, r, lo, hi, PointerPos(i), PointerPos(i) + 8);
    PointerSame(d, r, i);
    AgreesSlice(d, r, lo, hi, OffsetPos(NKeys(d), i), OffsetPos(NKeys(d), i) + 2);
    AgreesSlice(d, r, lo, hi, KvPos(d, i), EntryEnd(d, KvPos(d, i)));
    EntrySame(d, r, i);
  }

  /** A change that misses pointer slot i keeps the header and that pointer. */
  lemma {:induction false} PointerKept(d: seq<byte>, r: seq<byte>, lo: nat, hi: nat, i: nat)
    requires IsBuffer(d) && PointerOk(d, i) && Agrees(d, r, lo, hi) && HEADER <= lo
    requires PointerPos(i) + 8 <= lo || hi <= PointerPos(i)
    ensures IsBuffer(r) && BType(r) == BType(d) && NKeys(r) == NKeys(d)
    ensures PointerOk(r, i) && GetPointer(r, i) == GetPointer(d, i)
  {
    AgreesSlice(d, r, lo, hi, 0, HEADER);
    HeaderSame(d, r, HEADER);
    AgreesSlice(d, r, lo, hi, PointerPos(i), PointerPos(i) + 8);
    PointerSame(d, r, i);
  }

  /** A change that misses offset slot i keeps the header and that offset. */
  lemma {:induction false} OffsetKept(d: seq<byte>, r: seq<byte>, lo: nat, hi: nat, i: nat)
    requires IsBuffer(d) && OffsetOk(d, i) && Agrees(d, r, lo, hi) && HEADER <= lo
    requires OffsetPos(NKeys(d), i) + 2 <= lo || hi <= OffsetPos(NKeys(d), i)
    ensures IsBuffer(r) && BType(r) == BType(d) && NKeys(r) == NKeys(d)
    ensures OffsetOk(r, i) && GetOffset(r, i) == GetOffset(d, i)
  {
    AgreesSlice(d, r, lo, hi, 0, HEADER);
    HeaderSame(d, r, HEADER);
    AgreesSlice(d, r, lo, hi, OffsetPos(NKeys(d), i), OffsetPos(NKeys(d), i) + 2);
    OffsetSame(d, r, i);
  }

  /** A slot holds e when its pointer, its offset and the entry at that offset say so. */
  lemma {:induction false} SlotMake(d: seq<byte>, i: nat, e: Entry, off: nat)
    requires IsBuffer(d) && PointerOk(d, i) && GetPointer(d, i) == e.ptr
    requires OffsetOk(d, i) && GetOffset(d, i) == off && EntryIs(d, BlobAt(d) + off, e.key, e.val)
    ensures SlotHolds(d, i, e, off)
  {
    EntryAt(d, i, BlobAt(d) + off, e.key, e.val);
    assert SlotHolds(d, i, e, off, 0);
  }

  /** A change confined to bytes that miss the laid slots keeps them laid. */
  lemma {:induction false} LaidAgree(d: seq<byte>, r: seq<byte>, es: seq<Entry>, lo: nat, hi: nat)
    requires IsBuffer(d) && Laid(d, es) && Misses(d, es, lo, hi) && Agrees(d, r, lo, hi)
    ensures IsBuffer(r) && BType(r) == BType(d) && NKeys(r) == NKeys(d) && Laid(r, es)
    decreases |es|
  {
    AgreesSlice(d, r, lo, hi, 0, HEADER);
    HeaderSame(d, r, HEADER);
    if es != [] {
      var i := |es| - 1;
      var init, e := es[..i], es[i];
      assert Span(es) == Span(init) + Width(e);
      LaidAgree(d, r, init, lo, hi);
      SlotAgree(d, r, i, e, Span(init), lo, hi);
    }
  }

  /** A write that misses the laid slots keeps them laid. */
  lemma {:induction false} LaidWrite(d: seq<byte>, es: seq<Entry>, p: nat, s: seq<byte>)
    requires IsBuffer(d) && Laid(d, es) && Misses(d, es, p, p + |s|)
    ensures IsBuffer(Write(d, p, s)) && NKeys(Write(d, p, s)) == NKeys(d) && BType(Write(d, p, s)) == BType(d)
    ensures Laid(Write(d, p, s), es)
  {
    WriteAgrees(d, p, s);
    LaidAgree(d, Write(d, p, s), es, p, p + |s|);
  }

  // ---------------------------------------------------------------------------
  // The first bytes of a node
  // ---------------------------------------------------------------------------

  /** The first n bytes of d, when they cover the header, read the same header. */
  lemma {:induction false} PrefixHeader(d: seq<byte>, n: nat)
    requires IsBuffer(d) && HEADER <= n <= |d|
    ensures IsBuffer(d[..n]) && BType(d[..n]) == BType(d) && NKeys(d[..n]) == NKeys(d)
  {
    PrefixSlice(d, n, 0, 2);
    PrefixSlice(d, n, 2, 4);
    U16Same(d[..n], d, 0, 0);
    U16Same(d[..n], d, 2, 2);
  }

  /** An entry inside the first n bytes decodes the same in the prefix. */
  lemma {:induction false} EntryPrefix(d: seq<byte>, a: nat, key: seq<byte>, val: seq<byte>, n: nat)
    requires EntryIs(d, a, key, val) && a + 4 + |key| + |val| <= n <= |d|
    ensures EntryIs(d[..n], a, key, val)
  {
    EntryIsOpen(d, a, key, val);
    var r := d[..n];
    PrefixSlice(d, n, a, a + 2);
    PrefixSlice(d, n, a + 2, a + 4);
    U16Same(r, d, a, a);
    U16Same(r, d, a + 2, a + 2);
    PrefixSlice(d, n, a + 4, a + 4 + |key|);
    PrefixSlice(d, n, a + 4 + |key|, a + 4 + |key| + |val|);
    assert EntryIs(r, a, key, val, 0);
  }

  /** A slot whose entry ends within the first n bytes is held the same in the prefix. */
  lemma {:induction false} SlotPrefix(d: seq<byte>, i: nat, e: Entry, off: nat, n: nat)
    requires IsBuffer(d) && SlotHolds(d, i, e, off) && HEADER <= n <= |d| && BlobAt(d) + off + Width(e) <= n
    ensures IsBuffer(d[..n]) && SlotHolds(d[..n], i, e, off)
  {
    var r := d[..n];
    SlotOpen(d, i, e, off);
    SlotEntry(d, i, e, off);
    PrefixHeader(d, n);
    var p, q := PointerPos(i), OffsetPos(NKeys(d), i);
    PrefixSlice(d, n, p, p + 8);
    U64Same(r, d, p, p);
    PrefixSlice(d, n, q, q + 2);
    U16Same(r, d, q, q);
    EntryPrefix(d, BlobAt(d) + off, e.key, e.val, n);
    SlotMake(r, i, e, off);
  }

  /** Laid slots whose entries end within the first n bytes stay laid in the prefix. */
  lemma {:induction false} LaidPrefix(d: seq<byte>, es: seq<Entry>, n: nat)
    requires IsBuffer(d) && Laid(d, es) && HEADER <= n <= |d| && BlobAt(d) + Span(es) <= n
    ensures IsBuffer(d[..n]) && NKeys(d[..n]) == NKeys(d) && Laid(d[..n], es)
    decreases |es|
  {
    PrefixHeader(d, n);
    if es != [] {
      var i := |es| - 1;
      var init, e := es[..i], es[i];
      assert Span(es) == Span(init) + Width(e);
      LaidPrefix(d, init, n);
      SlotPrefix(d, i, e, Span(init), n);
    }
  }

  /** A node whose encoding fits in its first n bytes holds the same entries in them. */
  lemma {:induction false} HoldsPrefix(d: seq<byte>, es: seq<Entry>, n: nat)
    requires IsBuffer(d) && Holds(d, es) && EncodedSize(es) <= n <= |d|
    ensures IsBuffer(d[..n]) && BType(d[..n]) == BType(d) && Holds(d[..n], es)
  {
    HoldsOpen(d, es);
    PrefixHeader(d, n);
    LaidPrefix(d, es, n);
    HoldsClose(d[..n], es);
  }

  // ---------------------------------------------------------------------------
  // lookup_key on a well-formed node
  // ---------------------------------------------------------------------------

  /** The keys of a node holding es, as get_key reads them. */
  lemma {:induction false} HoldsKeys(d: seq<byte>, es: seq<Entry>)
    requires IsBuffer(d) && Holds(d, es)
    ensures |Keys(d)| == |es| && forall j :: 0 <= j < |es| ==> Keys(d)[j] == Some(es[j].key)
  {
    HoldsOpen(d, es);
    forall j | 0 <= j < |es|
      ensures Keys(d)[j] == Some(es[j].key)
    {
      LaidReads(d, es, j);
    }
  }

  /** The scan from slot 1 over readable keys that are non-empty and increasing finds the floor of key. */
  lemma {:induction false} ScanFloor(ks: seq<Option<seq<byte>>>, key: seq<byte>)
    requires |ks| >= 1 && forall j :: 0 <= j < |ks| ==> ks[j].Some?
    requires forall j :: 1 <= j < |ks| ==> ks[j].value != []
    requires forall i, j :: 1 <= i < j < |ks| ==> Less(ks[i].value, ks[j].value)
    ensures Scan(ks, key, 1, 0).Some?
    ensures var r := Scan(ks, key, 1, 0).value;
      && r < |ks|
      && (r >= 1 ==> LessEq(ks[r].value, key))
      && (forall j :: r < j < |ks| ==> Less(key, ks[j].value))
  {
    ScanSome(ks, key, 1);
    ScanBounds(ks, key, 1);
    ScanPasses(ks, key, 1);
    ScanStops(ks, key, 1);
    var r := Scan(ks, key, 1, 0).value;
    if r + 1 < |ks| {
      var stop := ks[r + 1].value;
      forall j | r + 1 < j < |ks|
        ensures Less(key, ks[j].value)
      {
        LessTransitive(key, stop, ks[j].value);
      }
    }
  }

  /**
    On a node whose keys from slot 1 on are sorted, lookup_key returns the
    last slot whose key is at most key, or the sentinel slot 0.
  */
  lemma {:induction false} LookupFloor(d: seq<byte>, es: seq<Entry>, key: seq<byte>)
    requires IsBuffer(d) && Holds(d, es) && SortedKeys(es) && |es| >= 1
    ensures Lookup(d, key).Some?
    ensures var r := Lookup(d, key).value;
      && r < |es|
      && (r >= 1 ==> LessEq(es[r].key, key))
      && (forall j :: r < j < |es| ==> Less(key, es[j].key))
  {
    HoldsOpen(d, es);
    HoldsKeys(d, es);
    ScanFloor(Keys(d), key);
  }
}
