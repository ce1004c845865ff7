/**
  node_append_range (src/B_tree.rs:185-251): copy n slots of a node `from`,
  starting at slot src, into the node `into` under construction at slot dst. The copy
  runs in stages, each a function here: the pointer loop, the offset loop
  (each offset rebased from the blob of `from` onto that of `into`), the copy of the
  entries' bytes, and the set_offset that records where the next entry goes.
  A panic of the source is None.
*/
module Range {
  import opened Bytes
  import opened Codec
  import opened Layout
  import opened Append

  /** The pointer loop after k rounds: slot dst+i of `into` takes pointer src+i of `from`, for i < k. */
  function CopyPointers(from: seq<byte>, into: seq<byte>, dst: nat, src: nat, k: nat): (r: seq<byte>)
    requires IsBuffer(from) && IsBuffer(into)
    requires k > 0 ==> PointerOk(from, src + k - 1) && PointerOk(into, dst + k - 1)
    ensures IsBuffer(r) && |r| == |into| && BType(r) == BType(into) && NKeys(r) == NKeys(into)
    decreases k
  {
    if k == 0 then into
    else SetPointer(CopyPointers(from, into, dst, src, k - 1), dst + k - 1, GetPointer(from, src + k - 1))
  }

  /**
    The offset loop after k rounds: slot dst+i of `into` records
    ns + offset(src+i) - os, where ns and os are the offsets of slot dst of
    `into` and of slot src of `from`. The u16 addition and subtraction panic on
    overflow and underflow.
  */
  function RebaseOffsets(from: seq<byte>, into: seq<byte>, dst: nat, src: nat, ns: nat, os: nat, k: nat): (r: Option<seq<byte>>)
    requires IsBuffer(from) && IsBuffer(into)
    requires k > 0 ==> OffsetOk(from, src + k - 1) && dst + k - 1 < NKeys(into) && OffsetOk(into, dst + k - 1)
    ensures r.Some? ==> IsBuffer(r.value) && |r.value| == |into| && BType(r.value) == BType(into) && NKeys(r.value) == NKeys(into)
    decreases k
  {
    if k == 0 then Some(into)
    else match RebaseOffsets(from, into, dst, src, ns, os, k - 1)
      case None => None
      case Some(r) =>
        var v := ns + GetOffset(from, src + k - 1);
        if v >= U16_LIMIT || v < os then None
        else Some(SetOffset(r, dst + k - 1, v - os))
  }

  /**
    Where the copied bytes end in `from`, with index = src + n: past the last
    entry, length fields included, when the range runs to the end of `from`;
    otherwise at kvpos(index).
  */
  function RangeEnd(from: seq<byte>, index: nat): Option<nat>
    requires IsBuffer(from) && 1 <= index <= NKeys(from)
  {
    if index == NKeys(from) then
      if ValueOk(from, index - 1) then
        Some(KvPos(from, index - 1) + HEADER + |GetKey(from, index - 1)| + |GetValue(from, index - 1)|)
      else None
    else if OffsetOk(from, index) then Some(KvPos(from, index))
    else None
  }

  /**
    The byte copy: the bytes of `from` between kvpos(src) and RangeEnd go to `into` at
    kvpos(dst). The source computes the destination end as a usize
    (begin' + end - begin) and slices both buffers.
  */
  function CopyBlob(from: seq<byte>, into: seq<byte>, dst: nat, src: nat, index: nat): Option<seq<byte>>
    requires IsBuffer(from) && IsBuffer(into) && src < index <= NKeys(from)
    requires OffsetOk(from, src) && OffsetOk(into, dst)
  {
    match RangeEnd(from, index)
    case None => None
    case Some(end) =>
      var begin, at := KvPos(from, src), KvPos(into, dst);
      if at + end < begin || end < begin || |from| < end || |into| < at + end - begin then None
      else Some(Write(into, at, from[begin..end]))
  }

  /**
    The closing set_offset(k, offset(k-1) + 4 + |key(k-1)| + |value(k-1)|),
    read from the node under construction, with k = dst + n.
  */
  function CloseRange(into: seq<byte>, k: nat): Option<seq<byte>>
    requires IsBuffer(into) && 1 <= k
  {
    if !ValueOk(into, k - 1) then None
    else
      var v := GetOffset(into, k - 1) + HEADER + |GetKey(into, k - 1)| + |GetValue(into, k - 1)|;
      if v >= U16_LIMIT || (k < NKeys(into) && !OffsetOk(into, k)) then None
      else Some(SetOffset(into, k, v))
  }

  /**
    node_append_range(from, into, dst, src, n). It asserts dst + n <= nkeys of
    `into`, returns `into` unchanged when src + n passes the nkeys of `from` or n is 0, and
    otherwise runs the four stages.
  */
  function AppendRange(from: seq<byte>, into: seq<byte>, dst: nat, src: nat, n: nat, depth: nat := 2): (r: Option<seq<byte>>)
    requires IsBuffer(from) && IsBuffer(into)
    ensures r.Some? ==> IsBuffer(r.value) && |r.value| == |into|
    decreases |from|, depth
  {
    if depth > 0 then AppendRange(from, into, dst, src, n, depth - 1)
    else
    if dst + n >= U16_LIMIT || dst + n > NKeys(into) || src + n >= U16_LIMIT then None
    else if src + n > NKeys(from) || n == 0 then Some(into)
    else if !PointerOk(from, src + n - 1) || !PointerOk(into, dst + n - 1) then None
    else
      var r1 := CopyPointers(from, into, dst, src, n);
      if !OffsetOk(r1, dst + n - 1) || !OffsetOk(from, src + n - 1) then None
      else
        match RebaseOffsets(from, r1, dst, src, GetOffset(r1, dst), GetOffset(from, src), n)
        case None => None
        case Some(r2) =>
          match CopyBlob(from, r2, dst, src, src + n)
          case None => None
          case Some(r3) => CloseRange(r3, dst + n)
  }

  /** AppendRange is kept behind `depth` unfoldings; RangeOpen expands it. */
  lemma {:induction false} RangeOpen(from: seq<byte>, into: seq<byte>, dst: nat, src: nat, n: nat)
    requires IsBuffer(from) && IsBuffer(into)
    ensures AppendRange(from, into, dst, src, n) == AppendRange(from, into, dst, src, n, 0)
  {
    assert AppendRange(from, into, dst, src, n, 1) == AppendRange(from, into, dst, src, n, 0);
  }

  // ---------------------------------------------------------------------------
  // The pointer loop
  // ---------------------------------------------------------------------------

  /** The pointer loop changes only the pointer slots dst .. dst+k-1. */
  lemma {:induction false} CopyAgrees(from: seq<byte>, into: seq<byte>, dst: nat, src: nat, k: nat)
    requires IsBuffer(from) && IsBuffer(into) && k >= 1
    requires PointerOk(from, src + k - 1) && PointerOk(into, dst + k - 1)
    ensures Agrees(into, CopyPointers(from, into, dst, src, k), PointerPos(dst), PointerPos(dst + k))
    decreases k
  {
    var r := CopyPointers(from, into, dst, src, k - 1);
    var c := CopyPointers(from, into, dst, src, k);
    var v := GetPointer(from, src + k - 1);
    var p := PointerPos(dst + k - 1);
    SetPointerIs(r, dst + k - 1, v);
    WriteAgrees(r, p, U64Bytes(v));
    AgreesMove(r, c, p, p + |U64Bytes(v)|, p, PointerPos(dst + k));
    if k > 1 {
      CopyAgrees(from, into, dst, src, k - 1);
      AgreesJoin(into, r, c, PointerPos(dst), p, PointerPos(dst + k));
    }
  }

  /**
    After k rounds of the pointer loop, pointer slot a = dst+j holds pointer
    b = src+j of `from`, for j < k.
  */
  lemma {:induction false} CopyReads(from: seq<byte>, into: seq<byte>, dst: nat, src: nat, k: nat, a: nat, b: nat)
    requires IsBuffer(from) && IsBuffer(into) && k >= 1
    requires PointerOk(from, src + k - 1) && PointerOk(into, dst + k - 1)
    requires dst <= a < dst + k && a + src == b + dst
    ensures PointerOk(from, b)
    ensures var r := CopyPointers(from, into, dst, src, k);
      PointerOk(r, a) && GetPointer(r, a) == GetPointer(from, b)
    decreases k
  {
    var r := CopyPointers(from, into, dst, src, k - 1);
    var v := GetPointer(from, src + k - 1);
    if a == dst + k - 1 {
      assert b == src + k - 1;
      PointerRoundTrip(r, dst + k - 1, v);
    } else {
      CopyReads(from, into, dst, src, k - 1, a, b);
      SetPointerIs(r, dst + k - 1, v);
      PointerWrite(r, PointerPos(dst + k - 1), U64Bytes(v), a);
    }
  }

  // ---------------------------------------------------------------------------
  // The offset loop
  // ---------------------------------------------------------------------------

  /** The first k rebased offsets are at least os and fit a u16: the offset loop does not panic. */
  predicate RebaseFits(from: seq<byte>, src: nat, ns: nat, os: nat, k: nat)
    requires IsBuffer(from) && (k > 0 ==> OffsetOk(from, src + k - 1))
    decreases k
  {
    k == 0 || (RebaseFits(from, src, ns, os, k - 1) && os <= ns + GetOffset(from, src + k - 1) < U16_LIMIT)
  }

  /** On a `from` laid out with es, the rebased offsets fit when the last one does; os is the offset of entry src. */
  lemma {:induction false} LaidRebaseFits(from: seq<byte>, src: nat, ns: nat, os: nat, k: nat, es: seq<Entry>)
    requires IsBuffer(from) && Laid(from, es) && src + k <= |es| && os == Span(es[..src])
    requires ns + Span(es[..src + k]) < U16_LIMIT
    ensures k > 0 ==> OffsetOk(from, src + k - 1)
    ensures RebaseFits(from, src, ns, os, k)
    decreases k
  {
    if k > 0 {
      var i := src + k - 1;
      FitsNumbers(es, src, i, k, ns);
      LaidRebaseFits(from, src, ns, os, k - 1, es);
      LaidOffset(from, es, i);
      FitsStep(from, src, ns, os, k, i, Span(es[..i]));
    }
  }

  /** The offset of entry i = src+k-1, rebased by ns, is at least that of entry src and fits a u16. */
  lemma {:induction false} FitsNumbers(es: seq<Entry>, src: nat, i: nat, k: nat, ns: nat)
    requires src <= i && i + 1 == src + k <= |es| && ns + Span(es[..src + k]) < U16_LIMIT
    ensures src + k - 1 < |es| && Span(es[..src]) <= ns + Span(es[..i]) < U16_LIMIT
    ensures ns + Span(es[..src + k - 1]) < U16_LIMIT
  {
    SpanSplit(es, src, i);
    SpanStep(es, i);
  }

  /** One more rebased offset that fits. */
  lemma {:induction false} FitsStep(from: seq<byte>, src: nat, ns: nat, os: nat, k: nat, i: nat, g: nat)
    requires IsBuffer(from) && k > 0 && i == src + k - 1 && OffsetOk(from, i) && RebaseFits(from, src, ns, os, k - 1)
    requires GetOffset(from, i) == g && os <= ns + g < U16_LIMIT
    ensures RebaseFits(from, src, ns, os, k)
  {
  }

  /** When the rebased offsets fit, the offset loop changes only the offset slots dst .. dst+k-1. */
  lemma {:induction false} RebaseAgrees(from: seq<byte>, into: seq<byte>, dst: nat, src: nat, ns: nat, os: nat, k: nat)
    requires IsBuffer(from) && IsBuffer(into) && k >= 1
    requires OffsetOk(from, src + k - 1) && dst + k - 1 < NKeys(into) && OffsetOk(into, dst + k - 1)
    requires RebaseFits(from, src, ns, os, k)
    ensures var r := RebaseOffsets(from, into, dst, src, ns, os, k);
      r.Some? && Agrees(into, r.value, OffsetPos(NKeys(into), dst), OffsetPos(NKeys(into), dst + k))
    decreases k
  {
    if k > 1 {
      RebaseAgrees(from, into, dst, src, ns, os, k - 1);
    }
    var r := RebaseOffsets(from, into, dst, src, ns, os, k - 1).value;
    var c := RebaseOffsets(from, into, dst, src, ns, os, k).value;
    var v := ns + GetOffset(from, src + k - 1) - os;
    var p := OffsetPos(NKeys(into), dst + k - 1);
    SetOffsetIs(r, dst + k - 1, v);
    WriteAgrees(r, p, U16Bytes(v));
    AgreesMove(r, c, p, p + |U16Bytes(v)|, p, OffsetPos(NKeys(into), dst + k));
    if k > 1 {
      AgreesJoin(into, r, c, OffsetPos(NKeys(into), dst), p, OffsetPos(NKeys(into), dst + k));
    }
  }

  /**
    After k rounds of the offset loop, offset slot a = dst+j records
    ns + offset(b) - os with b = src+j, for j < k.
  */
  lemma {:induction false} RebaseReads(from: seq<byte>, into: seq<byte>, dst: nat, src: nat, ns: nat, os: nat, k: nat, a: nat, b: nat)
    requires IsBuffer(from) && IsBuffer(into) && k >= 1
    requires OffsetOk(from, src + k - 1) && dst + k - 1 < NKeys(into) && OffsetOk(into, dst + k - 1)
    requires RebaseOffsets(from, into, dst, src, ns, os, k).Some?
    requires dst <= a < dst + k && a + src == b + dst
    ensures OffsetOk(from, b)
    ensures var r := RebaseOffsets(from, into, dst, src, ns, os, k).value;
      OffsetOk(r, a) && GetOffset(r, a) + os == ns + GetOffset(from, b)
    decreases k
  {
    var r := RebaseOffsets(from, into, dst, src, ns, os, k - 1).value;
    var v := ns + GetOffset(from, src + k - 1) - os;
    if a == dst + k - 1 {
      assert b == src + k - 1;
      OffsetRoundTrip(r, dst + k - 1, v);
    } else {
      RebaseReads(from, into, dst, src, ns, os, k - 1, a, b);
      SetOffsetIs(r, dst + k - 1, v);
      OffsetWrite(r, OffsetPos(NKeys(into), dst + k - 1), U16Bytes(v), a);
    }
  }

  // ---------------------------------------------------------------------------
  // node_append_range on well-formed nodes
  // ---------------------------------------------------------------------------

  /**
    The setting of a copy: `from` holds es, `into` is a node under
    construction holding ps and ready at slot dst = |ps|, and the n >= 1
    entries es[src..src+n] fit in its free slots and its blob.
  */
  predicate RangeFits(from: seq<byte>, into: seq<byte>, es: seq<Entry>, ps: seq<Entry>, dst: nat, src: nat, n: nat)
  {
    && IsBuffer(from) && IsBuffer(into) && NKeys(from) == |es|
    && dst == |ps| && 1 <= n && src + n <= |es| && dst + n <= NKeys(into)
    && Stocked(from, into, es, ps, src, n)
  }

  /** The byte-level part of RangeFits, kept behind `depth` unfoldings. */
  predicate Stocked(from: seq<byte>, into: seq<byte>, es: seq<Entry>, ps: seq<Entry>, src: nat, n: nat, depth: nat := 2)
    requires IsBuffer(from) && IsBuffer(into) && src + n <= |es|
    decreases |from|, depth
  {
    if depth > 0 then Stocked(from, into, es, ps, src, n, depth - 1)
    else Laid(from, es) && Ready(into, ps) && BlobAt(into) + Span(ps) + Span(es[src..src + n]) <= |into|
  }

  /** FitsOpen expands RangeFits. */
  lemma {:induction false} FitsOpen(from: seq<byte>, into: seq<byte>, es: seq<Entry>, ps: seq<Entry>, dst: nat, src: nat, n: nat)
    requires RangeFits(from, into, es, ps, dst, src, n)
    ensures IsBuffer(from) && IsBuffer(into) && Holds(from, es) && Laid(from, es) && Ready(into, ps)
    ensures dst == |ps| && 1 <= n && src + n <= |es| && dst + n <= NKeys(into)
    ensures BlobAt(into) + Span(ps) + Span(es[src..src + n]) <= |into|
  {
    assert Stocked(from, into, es, ps, src, n, 1);
    assert Stocked(from, into, es, ps, src, n, 0);
    HoldsClose(from, es);
  }

  /** The setting of a copy, from its parts. */
  lemma {:induction false} FitsClose(from: seq<byte>, into: seq<byte>, es: seq<Entry>, ps: seq<Entry>, dst: nat, src: nat, n: nat)
    requires IsBuffer(from) && IsBuffer(into) && Holds(from, es) && Ready(into, ps)
    requires dst == |ps| && 1 <= n && src + n <= |es| && dst + n <= NKeys(into)
    requires BlobAt(into) + Span(ps) + Span(es[src..src + n]) <= |into|
    ensures RangeFits(from, into, es, ps, dst, src, n)
  {
    HoldsOpen(from, es);
    assert Stocked(from, into, es, ps, src, n, 0);
  }

  /** The slots and offsets the copy reads and writes exist. */
  lemma {:induction false} FitsSlots(from: seq<byte>, into: seq<byte>, es: seq<Entry>, ps: seq<Entry>, dst: nat, src: nat, n: nat)
    requires RangeFits(from, into, es, ps, dst, src, n)
    ensures PointerOk(from, src + n - 1) && PointerOk(into, dst + n - 1)
    ensures OffsetOk(from, src) && GetOffset(from, src) == Span(es[..src])
    ensures OffsetOk(into, dst) && GetOffset(into, dst) == Span(ps)
    ensures OffsetOk(from, src + n - 1) && OffsetOk(into, dst + n - 1)
    ensures BlobAt(from) + Span(es) <= |from| && BlobAt(into) <= |into|
  {
    FitsOpen(from, into, es, ps, dst, src, n);
    ReadyOpen(into, ps);
    LaidFits(from, es);
    LaidOffset(from, es, src);
  }

  /** r is `into` with the same header and length, still holding ps and ready for the next slot. */
  predicate Prepared(into: seq<byte>, r: seq<byte>, ps: seq<Entry>)
  {
    && IsBuffer(into) && IsBuffer(r) && |r| == |into| && BType(r) == BType(into) && NKeys(r) == NKeys(into)
    && Laid(r, ps) && OffsetOk(r, |ps|) && GetOffset(r, |ps|) == Span(ps)
  }

  /** The pointer loop: it changes only the pointer slots it copies. */
  lemma {:induction false} PointerStage(from: seq<byte>, into: seq<byte>, es: seq<Entry>, ps: seq<Entry>, dst: nat, src: nat, n: nat)
    returns (r1: seq<byte>)
    requires RangeFits(from, into, es, ps, dst, src, n)
    ensures PointerOk(from, src + n - 1) && PointerOk(into, dst + n - 1)
    ensures r1 == CopyPointers(from, into, dst, src, n)
    ensures Agrees(into, r1, PointerPos(dst), PointerPos(dst + n)) && Prepared(into, r1, ps)
  {
    FitsOpen(from, into, es, ps, dst, src, n);
    FitsSlots(from, into, es, ps, dst, src, n);
    ReadyOpen(into, ps);
    r1 := CopyPointers(from, into, dst, src, n);
    CopyAgrees(from, into, dst, src, n);
    LaidAgree(into, r1, ps, PointerPos(dst), PointerPos(dst + n));
    OffsetKept(into, r1, PointerPos(dst), PointerPos(dst + n), dst);
  }

  /** In the setting of a copy, the offset loop does not panic. */
  lemma {:induction false} RangeRebaseFits(from: seq<byte>, into: seq<byte>, es: seq<Entry>, ps: seq<Entry>, dst: nat, src: nat, n: nat)
    requires RangeFits(from, into, es, ps, dst, src, n)
    ensures OffsetOk(from, src + n - 1) && RebaseFits(from, src, Span(ps), Span(es[..src]), n)
  {
    FitsOpen(from, into, es, ps, dst, src, n);
    LaidFits(from, es);
    SpanPrefix(es, src + n);
    LaidRebaseFits(from, src, Span(ps), Span(es[..src]), n, es);
  }

  /** The offset loop: it succeeds, changes only the offset slots it copies, and keeps offset dst. */
  lemma {:induction false} OffsetStage(from: seq<byte>, into: seq<byte>, es: seq<Entry>, ps: seq<Entry>, dst: nat, src: nat, n: nat, r1: seq<byte>)
    returns (r2: seq<byte>)
    requires RangeFits(from, into, es, ps, dst, src, n) && Prepared(into, r1, ps)
    ensures OffsetOk(r1, dst + n - 1) && OffsetOk(from, src + n - 1)
    ensures OffsetOk(from, src) && GetOffset(from, src) == Span(es[..src])
    ensures RebaseOffsets(from, r1, dst, src, Span(ps), Span(es[..src]), n) == Some(r2)
    ensures Agrees(r1, r2, OffsetPos(NKeys(into), dst), OffsetPos(NKeys(into), dst + n)) && Prepared(into, r2, ps)
  {
    FitsOpen(from, into, es, ps, dst, src, n);
    FitsSlots(from, into, es, ps, dst, src, n);
    var ns, os, m := Span(ps), Span(es[..src]), NKeys(into);
    RangeRebaseFits(from, into, es, ps, dst, src, n);
    RebaseAgrees(from, r1, dst, src, ns, os, n);
    r2 := RebaseOffsets(from, r1, dst, src, ns, os, n).value;
    LaidAgree(r1, r2, ps, OffsetPos(m, dst), OffsetPos(m, dst + n));
    RebaseReads(from, r1, dst, src, ns, os, n, dst, src);
  }

  /** The copied bytes end past the last entry, in a node holding es whose last entry is copied. */
  lemma {:induction false} RangeEndLast(from: seq<byte>, es: seq<Entry>, index: nat)
    requires IsBuffer(from) && Holds(from, es) && NKeys(from) == |es| && 1 <= index == |es|
    ensures RangeEnd(from, index) == Some(BlobAt(from) + Span(es[..index]))
  {
    HoldsOpen(from, es);
    LaidReads(from, es, |es| - 1);
    SpanStep(es, |es| - 1);
  }

  /** The copied bytes end at the entry after them, when there is one. */
  lemma {:induction false} RangeEndInner(from: seq<byte>, es: seq<Entry>, index: nat)
    requires IsBuffer(from) && Holds(from, es) && NKeys(from) == |es| && 1 <= index < |es|
    ensures RangeEnd(from, index) == Some(BlobAt(from) + Span(es[..index]))
  {
    HoldsOpen(from, es);
    LaidOffset(from, es, index);
  }

  /** Where the byte copy of es[src..src+n] ends in `from`. */
  lemma {:induction false} FromEnd(from: seq<byte>, es: seq<Entry>, index: nat)
    requires IsBuffer(from) && Holds(from, es) && 1 <= index <= |es|
    ensures index <= NKeys(from) && RangeEnd(from, index) == Some(BlobAt(from) + Span(es[..index]))
  {
    HoldsOpen(from, es);
    if index == |es| {
      RangeEndLast(from, es, index);
    } else {
      RangeEndInner(from, es, index);
    }
  }

  /** The positions in `from` of the byte copy of es[src..src+n]. */
  lemma {:induction false} FromNumbers(from: seq<byte>, es: seq<Entry>, src: nat, n: nat)
    requires IsBuffer(from) && Holds(from, es) && 1 <= n && src + n <= |es|
    ensures src + n <= NKeys(from) && OffsetOk(from, src) && KvPos(from, src) == BlobAt(from) + Span(es[..src])
    ensures RangeEnd(from, src + n) == Some(BlobAt(from) + Span(es[..src + n]))
    ensures Span(es[..src + n]) == Span(es[..src]) + Span(es[src..src + n])
    ensures BlobAt(from) + Span(es[..src + n]) <= |from|
  {
    HoldsOpen(from, es);
    FromEnd(from, es, src + n);
    LaidOffset(from, es, src);
    SpanSplit(es, src, src + n);
    PrefixFits(from, es, src + n);
  }

  /** The entries of a prefix of es fit in a node holding es. */
  lemma {:induction false} PrefixFits(from: seq<byte>, es: seq<Entry>, j: nat)
    requires IsBuffer(from) && Holds(from, es) && j <= |es|
    ensures BlobAt(from) + Span(es[..j]) <= |from|
  {
    HoldsOpen(from, es);
    LaidFits(from, es);
    SpanPrefix(es, j);
  }

  /**
    The byte copy, once its positions are known: `into` gets the bytes [begin, end) of `from`
    at `at`, past its laid blob and its offset slot dst, so these stay as they were.
  */
  lemma {:induction false} CopyBlobIs(from: seq<byte>, into: seq<byte>, ps: seq<Entry>, dst: nat, src: nat, index: nat,
                                      at: nat, begin: nat, end: nat)
    requires IsBuffer(from) && IsBuffer(into) && src < index <= NKeys(from) && OffsetOk(from, src) && OffsetOk(into, dst)
    requires KvPos(into, dst) == at && KvPos(from, src) == begin && RangeEnd(from, index) == Some(end)
    requires begin <= end <= |from| && at + (end - begin) <= |into|
    requires Laid(into, ps) && BlobAt(into) + Span(ps) <= at && OffsetPos(NKeys(into), dst) + 2 <= at
    ensures CopyBlob(from, into, dst, src, index) == Some(Write(into, at, from[begin..end]))
    ensures Agrees(into, Write(into, at, from[begin..end]), at, at + (end - begin))
    ensures var r := Write(into, at, from[begin..end]);
      && IsBuffer(r) && BType(r) == BType(into) && NKeys(r) == NKeys(into) && Laid(r, ps)
      && OffsetOk(r, dst) && GetOffset(r, dst) == GetOffset(into, dst)
  {
    var r := Write(into, at, from[begin..end]);
    WriteAgrees(into, at, from[begin..end]);
    LaidAgree(into, r, ps, at, at + (end - begin));
    OffsetKept(into, r, at, at + (end - begin), dst);
  }

  /** The byte copy: the entries' bytes of `from` go right after the laid blob, and nothing laid changes. */
  lemma {:induction false} BlobStage(from: seq<byte>, into: seq<byte>, es: seq<Entry>, ps: seq<Entry>, dst: nat, src: nat, n: nat, r2: seq<byte>)
    returns (r3: seq<byte>)
    requires RangeFits(from, into, es, ps, dst, src, n) && Prepared(into, r2, ps)
    ensures src + n <= NKeys(from) && OffsetOk(from, src) && OffsetOk(r2, dst)
    ensures var at, begin, end := BlobAt(into) + Span(ps), BlobAt(from) + Span(es[..src]), BlobAt(from) + Span(es[..src + n]);
      && begin <= end <= |from| && end - begin == Span(es[src..src + n]) && at + (end - begin) <= |r2|
      && CopyBlob(from, r2, dst, src, src + n) == Some(r3) && r3 == Write(r2, at, from[begin..end])
      && Agrees(r2, r3, at, at + (end - begin))
    ensures Prepared(into, r3, ps)
  {
    FitsOpen(from, into, es, ps, dst, src, n);
    var at, begin, end := BlobAt(into) + Span(ps), BlobAt(from) + Span(es[..src]), BlobAt(from) + Span(es[..src + n]);
    FromNumbers(from, es, src, n);
    CopyBlobIs(from, r2, ps, dst, src, src + n, at, begin, end);
    r3 := Write(r2, at, from[begin..end]);
  }

  /**
    The three stages of a copy, with what each one left. Kept behind `depth`
    unfoldings: the lemmas after it give what the slot proofs need.
  */
  predicate Copied(from: seq<byte>, into: seq<byte>, es: seq<Entry>, ps: seq<Entry>, dst: nat, src: nat, n: nat,
                   r1: seq<byte>, r2: seq<byte>, r3: seq<byte>, depth: nat := 2)
    decreases |from|, depth
  {
    if depth > 0 then Copied(from, into, es, ps, dst, src, n, r1, r2, r3, depth - 1)
    else
    && RangeFits(from, into, es, ps, dst, src, n)
    && PointerOk(from, src + n - 1) && PointerOk(into, dst + n - 1)
    && r1 == CopyPointers(from, into, dst, src, n)
    && Agrees(into, r1, PointerPos(dst), PointerPos(dst + n)) && Prepared(into, r1, ps)
    && OffsetOk(r1, dst + n - 1) && OffsetOk(from, src + n - 1)
    && OffsetOk(from, src) && GetOffset(from, src) == Span(es[..src])
    && RebaseOffsets(from, r1, dst, src, Span(ps), Span(es[..src]), n) == Some(r2)
    && Agrees(r1, r2, OffsetPos(NKeys(into), dst), OffsetPos(NKeys(into), dst + n)) && Prepared(into, r2, ps)
    && src + n <= NKeys(from) && OffsetOk(r2, dst)
    && var at, begin, end := BlobAt(into) + Span(ps), BlobAt(from) + Span(es[..src]), BlobAt(from) + Span(es[..src + n]);
    && begin <= end <= |from| && end - begin == Span(es[src..src + n]) && at + (end - begin) <= |r2|
    && CopyBlob(from, r2, dst, src, src + n) == Some(r3) && r3 == Write(r2, at, from[begin..end])
    && Agrees(r2, r3, at, at + (end - begin)) && Prepared(into, r3, ps)
  }

  /** What the pointer slots of a copy depend on. */
  lemma {:induction false} CopiedPointers(from: seq<byte>, into: seq<byte>, es: seq<Entry>, ps: seq<Entry>, dst: nat, src: nat, n: nat,
                                          r1: seq<byte>, r2: seq<byte>, r3: seq<byte>)
    requires Copied(from, into, es, ps, dst, src, n, r1, r2, r3)
    ensures IsBuffer(from) && IsBuffer(into) && Holds(from, es) && 1 <= n && src + n <= |es| && dst + n <= NKeys(into)
    ensures PointerOk(from, src + n - 1) && PointerOk(into, dst + n - 1)
    ensures Agrees(CopyPointers(from, into, dst, src, n), r2, OffsetPos(NKeys(into), dst), OffsetPos(NKeys(into), dst + n))
    ensures Agrees(r2, r3, BlobAt(into) + Span(ps), BlobAt(into) + Span(ps) + Span(es[src..src + n]))
  {
    assert Copied(from, into, es, ps, dst, src, n, r1, r2, r3, 0);
    FitsOpen(from, into, es, ps, dst, src, n);
  }

  /** What the offset slots of a copy depend on. */
  lemma {:induction false} CopiedOffsets(from: seq<byte>, into: seq<byte>, es: seq<Entry>, ps: seq<Entry>, dst: nat, src: nat, n: nat,
                                         r1: seq<byte>, r2: seq<byte>, r3: seq<byte>)
    requires Copied(from, into, es, ps, dst, src, n, r1, r2, r3)
    ensures IsBuffer(from) && IsBuffer(into) && Holds(from, es) && 1 <= n && src + n <= |es| && dst + n <= NKeys(into)
    ensures IsBuffer(r1) && NKeys(r1) == NKeys(into) && OffsetOk(from, src + n - 1) && OffsetOk(r1, dst + n - 1)
    ensures RebaseOffsets(from, r1, dst, src, Span(ps), Span(es[..src]), n) == Some(r2)
    ensures Agrees(r2, r3, BlobAt(into) + Span(ps), BlobAt(into) + Span(ps) + Span(es[src..src + n]))
  {
    assert Copied(from, into, es, ps, dst, src, n, r1, r2, r3, 0);
    FitsOpen(from, into, es, ps, dst, src, n);
  }

  /** What the entries of a copy depend on. */
  lemma {:induction false} CopiedBytes(from: seq<byte>, into: seq<byte>, es: seq<Entry>, ps: seq<Entry>, dst: nat, src: nat, n: nat,
                                       r1: seq<byte>, r2: seq<byte>, r3: seq<byte>)
    requires Copied(from, into, es, ps, dst, src, n, r1, r2, r3)
    ensures IsBuffer(from) && IsBuffer(into) && Holds(from, es) && 1 <= n && src + n <= |es|
    ensures IsBuffer(r3) && NKeys(r3) == NKeys(into)
    ensures var at, begin, end := BlobAt(into) + Span(ps), BlobAt(from) + Span(es[..src]), BlobAt(from) + Span(es[..src + n]);
      && begin <= end <= |from| && at + (end - begin) <= |r2| && r3 == Write(r2, at, from[begin..end])
  {
    assert Copied(from, into, es, ps, dst, src, n, r1, r2, r3, 0);
    FitsOpen(from, into, es, ps, dst, src, n);
  }

  /** What the slots of a copy are laid after. */
  lemma {:induction false} CopiedAfter(from: seq<byte>, into: seq<byte>, es: seq<Entry>, ps: seq<Entry>, dst: nat, src: nat, n: nat,
                                       r1: seq<byte>, r2: seq<byte>, r3: seq<byte>)
    requires Copied(from, into, es, ps, dst, src, n, r1, r2, r3)
    ensures IsBuffer(r3) && Laid(r3, ps) && dst == |ps| && |ps| + n <= NKeys(r3) && src + n <= |es|
  {
    assert Copied(from, into, es, ps, dst, src, n, r1, r2, r3, 0);
  }

  /** Where each stage of a copy writes: the pointer slots, then the offset slots, then the blob it fills. */
  lemma {:induction false} CopiedFrames(from: seq<byte>, into: seq<byte>, es: seq<Entry>, ps: seq<Entry>, dst: nat, src: nat, n: nat,
                                        r1: seq<byte>, r2: seq<byte>, r3: seq<byte>)
    requires Copied(from, into, es, ps, dst, src, n, r1, r2, r3)
    ensures IsBuffer(into) && Ready(into, ps) && dst == |ps| && src + n <= |es|
    ensures Agrees(into, r1, PointerPos(dst), PointerPos(dst + n))
    ensures Agrees(r1, r2, OffsetPos(NKeys(into), dst), OffsetPos(NKeys(into), dst + n))
    ensures Agrees(r2, r3, BlobAt(into) + Span(ps), BlobAt(into) + Span(ps) + Span(es[src..src + n]))
  {
    assert Copied(from, into, es, ps, dst, src, n, r1, r2, r3, 0);
    FitsOpen(from, into, es, ps, dst, src, n);
  }

  /** The copy keeps the header and the length of `into`. */
  lemma {:induction false} CopiedKeeps(from: seq<byte>, into: seq<byte>, es: seq<Entry>, ps: seq<Entry>, dst: nat, src: nat, n: nat,
                                       r1: seq<byte>, r2: seq<byte>, r3: seq<byte>)
    requires Copied(from, into, es, ps, dst, src, n, r1, r2, r3)
    ensures IsBuffer(into) && IsBuffer(r3) && |r3| == |into| && BType(r3) == BType(into) && NKeys(r3) == NKeys(into)
  {
    assert Copied(from, into, es, ps, dst, src, n, r1, r2, r3, 0);
  }

  /** The three stages run without a panic. */
  lemma {:induction false} CopyStages(from: seq<byte>, into: seq<byte>, es: seq<Entry>, ps: seq<Entry>, dst: nat, src: nat, n: nat)
    returns (r1: seq<byte>, r2: seq<byte>, r3: seq<byte>)
    requires RangeFits(from, into, es, ps, dst, src, n)
    ensures Copied(from, into, es, ps, dst, src, n, r1, r2, r3)
  {
    r1 := PointerStage(from, into, es, ps, dst, src, n);
    r2 := OffsetStage(from, into, es, ps, dst, src, n, r1);
    r3 := BlobStage(from, into, es, ps, dst, src, n, r2);
    assert Copied(from, into, es, ps, dst, src, n, r1, r2, r3, 0);
  }

  /** Pointer slot a of the copy holds the pointer of es[b], for a = dst+j and b = src+j. */
  lemma {:induction false} CopiedPointer(from: seq<byte>, into: seq<byte>, es: seq<Entry>, dst: nat, src: nat, n: nat,
                                         r2: seq<byte>, r3: seq<byte>, lo2: nat, hi2: nat, lo3: nat, hi3: nat, a: nat, b: nat)
    requires IsBuffer(from) && IsBuffer(into) && Holds(from, es) && 1 <= n && src + n <= |es|
    requires PointerOk(from, src + n - 1) && PointerOk(into, dst + n - 1)
    requires dst <= a < dst + n && a + src == b + dst
    requires Agrees(CopyPointers(from, into, dst, src, n), r2, lo2, hi2) && Agrees(r2, r3, lo3, hi3)
    requires HEADER <= lo2 && PointerPos(a) + 8 <= lo2 && HEADER <= lo3 && PointerPos(a) + 8 <= lo3
    ensures IsBuffer(r3) && PointerOk(r3, a) && GetPointer(r3, a) == es[b].ptr
  {
    HoldsOpen(from, es);
    var r1 := CopyPointers(from, into, dst, src, n);
    CopyReads(from, into, dst, src, n, a, b);
    LaidReads(from, es, b);
    PointerKept(r1, r2, lo2, hi2, a);
    PointerKept(r2, r3, lo3, hi3, a);
  }

  /** Offset slot a of the copy records where es[b] goes: ns plus the span of es[src..b]. */
  lemma {:induction false} CopiedOffset(from: seq<byte>, es: seq<Entry>, r1: seq<byte>, dst: nat, src: nat, n: nat, ns: nat,
                                        r2: seq<byte>, r3: seq<byte>, lo3: nat, hi3: nat, a: nat, b: nat)
    requires IsBuffer(from) && IsBuffer(r1) && Holds(from, es) && 1 <= n && src + n <= |es|
    requires OffsetOk(from, src + n - 1) && dst + n - 1 < NKeys(r1) && OffsetOk(r1, dst + n - 1)
    requires RebaseOffsets(from, r1, dst, src, ns, Span(es[..src]), n) == Some(r2)
    requires dst <= a < dst + n && a + src == b + dst
    requires Agrees(r2, r3, lo3, hi3) && HEADER <= lo3 && OffsetPos(NKeys(r1), a) + 2 <= lo3
    ensures IsBuffer(r3) && OffsetOk(r3, a) && GetOffset(r3, a) == ns + Span(es[src..b])
  {
    HoldsOpen(from, es);
    RebaseReads(from, r1, dst, src, ns, Span(es[..src]), n, a, b);
    LaidOffset(from, es, b);
    SpanSplit(es, src, b);
    OffsetKept(r2, r3, lo3, hi3, a);
  }

  /** An entry at p inside the bytes [begin, end) of x, written at `at`, decodes at the same distance from `at`. */
  lemma {:induction false} WriteCarries(x: seq<byte>, d: seq<byte>, at: nat, begin: nat, end: nat, p: nat, key: seq<byte>, val: seq<byte>)
    requires EntryIs(x, p, key, val) && begin <= p && p + HEADER + |key| + |val| <= end <= |x| && at + (end - begin) <= |d|
    ensures EntryIs(Write(d, at, x[begin..end]), at + (p - begin), key, val)
  {
    var r, len, w := Write(d, at, x[begin..end]), end - begin, HEADER + |key| + |val|;
    WriteInside(d, at, x[begin..end]);
    SliceOfSlice(r, at, len, p - begin, p - begin + w);
    SliceOfSlice(x, begin, len, p - begin, p - begin + w);
    EntryShift(x, r, p, at + (p - begin), key, val);
  }

  /** Where es[b] lies among the copied bytes of es[src..index]. */
  lemma {:induction false} EntryInRange(from: seq<byte>, es: seq<Entry>, src: nat, index: nat, b: nat)
    requires IsBuffer(from) && Holds(from, es) && src <= b < index <= |es|
    ensures EntryIs(from, BlobAt(from) + Span(es[..b]), es[b].key, es[b].val)
    ensures Span(es[..b]) == Span(es[..src]) + Span(es[src..b])
    ensures Span(es[..b]) + Width(es[b]) <= Span(es[..index])
  {
    HoldsOpen(from, es);
    LaidSlot(from, es, b);
    SlotEntry(from, b, es[b], Span(es[..b]));
    SpanSplit(es, src, b);
    SpanStep(es, b);
    SpanSplit(es, b + 1, index);
  }

  /**
    The entry es[b] of `from`, inside the bytes [begin, end) copied to position
    `at`, decodes in the copy at `at` plus the span of es[src..b].
  */
  lemma {:induction false} CopiedEntry(from: seq<byte>, es: seq<Entry>, src: nat, index: nat, b: nat,
                                       r2: seq<byte>, at: nat, begin: nat, end: nat)
    requires IsBuffer(from) && Holds(from, es) && src <= b < index <= |es|
    requires begin == BlobAt(from) + Span(es[..src]) && end == BlobAt(from) + Span(es[..index])
    requires begin <= end <= |from| && at + (end - begin) <= |r2|
    ensures EntryIs(Write(r2, at, from[begin..end]), at + Span(es[src..b]), es[b].key, es[b].val)
  {
    HoldsOpen(from, es);
    EntryInRange(from, es, src, index, b);
    WriteCarries(from, r2, at, begin, end, BlobAt(from) + Span(es[..b]), es[b].key, es[b].val);
  }

  /** The pointer slot a = dst+j of a copy, b = src+j. */
  lemma {:induction false} CopiedPointerAt(from: seq<byte>, into: seq<byte>, es: seq<Entry>, ps: seq<Entry>, dst: nat, src: nat, n: nat,
                                           r1: seq<byte>, r2: seq<byte>, r3: seq<byte>, a: nat, b: nat)
    requires Copied(from, into, es, ps, dst, src, n, r1, r2, r3)
    requires dst <= a < dst + n && a + src == b + dst
    ensures IsBuffer(r3) && b < |es| && PointerOk(r3, a) && GetPointer(r3, a) == es[b].ptr
  {
    CopiedPointers(from, into, es, ps, dst, src, n, r1, r2, r3);
    var m, at := NKeys(into), BlobAt(into) + Span(ps);
    CopiedPointer(from, into, es, dst, src, n, r2, r3, OffsetPos(m, dst), OffsetPos(m, dst + n), at, at + Span(es[src..src + n]), a, b);
  }

  /** The offset slot a = dst+j of a copy, b = src+j. */
  lemma {:induction false} CopiedOffsetAt(from: seq<byte>, into: seq<byte>, es: seq<Entry>, ps: seq<Entry>, dst: nat, src: nat, n: nat,
                                          r1: seq<byte>, r2: seq<byte>, r3: seq<byte>, a: nat, b: nat)
    requires Copied(from, into, es, ps, dst, src, n, r1, r2, r3)
    requires dst <= a < dst + n && a + src == b + dst
    ensures IsBuffer(r3) && b <= |es| && OffsetOk(r3, a) && GetOffset(r3, a) == Span(ps) + Span(es[src..b])
  {
    CopiedOffsets(from, into, es, ps, dst, src, n, r1, r2, r3);
    var at := BlobAt(into) + Span(ps);
    CopiedOffset(from, es, r1, dst, src, n, Span(ps), r2, r3, at, at + Span(es[src..src + n]), a, b);
  }

  /** The entry of slot a = dst+j of a copy, b = src+j. */
  lemma {:induction false} CopiedEntryAt(from: seq<byte>, into: seq<byte>, es: seq<Entry>, ps: seq<Entry>, dst: nat, src: nat, n: nat,
                                         r1: seq<byte>, r2: seq<byte>, r3: seq<byte>, a: nat, b: nat)
    requires Copied(from, into, es, ps, dst, src, n, r1, r2, r3)
    requires dst <= a < dst + n && a + src == b + dst
    ensures IsBuffer(r3) && b < |es| && EntryIs(r3, BlobAt(r3) + (Span(ps) + Span(es[src..b])), es[b].key, es[b].val)
  {
    CopiedBytes(from, into, es, ps, dst, src, n, r1, r2, r3);
    var at, begin, end := BlobAt(into) + Span(ps), BlobAt(from) + Span(es[..src]), BlobAt(from) + Span(es[..src + n]);
    CopiedEntry(from, es, src, src + n, b, r2, at, begin, end);
    EntryIsAt(r3, Write(r2, at, from[begin..end]), at + Span(es[src..b]), BlobAt(r3) + (Span(ps) + Span(es[src..b])), es[b].key, es[b].val);
  }

  /** EntryIs restated for an equal buffer and an equal position. */
  lemma {:induction false} EntryIsAt(d: seq<byte>, e: seq<byte>, p: nat, q: nat, key: seq<byte>, val: seq<byte>)
    requires EntryIs(e, p, key, val) && d == e && p == q
    ensures EntryIs(d, q, key, val)
  {
  }

  /** Slot a = dst+j of the copy holds es[b], b = src+j, right after ps and es[src..b]. */
  lemma {:induction false} CopiedSlot(from: seq<byte>, into: seq<byte>, es: seq<Entry>, ps: seq<Entry>, dst: nat, src: nat, n: nat,
                                      r1: seq<byte>, r2: seq<byte>, r3: seq<byte>, a: nat, b: nat)
    requires Copied(from, into, es, ps, dst, src, n, r1, r2, r3)
    requires dst <= a < dst + n && a + src == b + dst
    ensures IsBuffer(r3) && b < |es| && SlotHolds(r3, a, es[b], Span(ps) + Span(es[src..b]))
  {
    CopiedPointerAt(from, into, es, ps, dst, src, n, r1, r2, r3, a, b);
    CopiedOffsetAt(from, into, es, ps, dst, src, n, r1, r2, r3, a, b);
    CopiedEntryAt(from, into, es, ps, dst, src, n, r1, r2, r3, a, b);
    SlotMake(r3, a, es[b], Span(ps) + Span(es[src..b]));
  }

  /** After the three stages, the copy holds ps followed by the first j copied entries. */
  lemma {:induction false} CopiedLaid(from: seq<byte>, into: seq<byte>, es: seq<Entry>, ps: seq<Entry>, dst: nat, src: nat, n: nat,
                                      r1: seq<byte>, r2: seq<byte>, r3: seq<byte>, j: nat)
    requires Copied(from, into, es, ps, dst, src, n, r1, r2, r3) && j <= n && src + n <= |es|
    ensures IsBuffer(r3) && Laid(r3, ps + es[src..src + j])
    decreases j
  {
    CopiedAfter(from, into, es, ps, dst, src, n, r1, r2, r3);
    if j == 0 {
      LaidNone(r3, ps, es, src);
    } else {
      CopiedLaid(from, into, es, ps, dst, src, n, r1, r2, r3, j - 1);
      CopiedSlot(from, into, es, ps, dst, src, n, r1, r2, r3, dst + j - 1, src + j - 1);
      LaidExtend(r3, ps, es, src, j);
    }
  }

  lemma {:induction false} LaidNone(d: seq<byte>, ps: seq<Entry>, es: seq<Entry>, src: nat)
    requires IsBuffer(d) && Laid(d, ps) && src <= |es|
    ensures Laid(d, ps + es[src..src])
  {
    assert ps + es[src..src] == ps;
  }

  /** ps and es[src..src+j-1] laid, and es[src+j-1] in the slot after them: ps and es[src..src+j] are laid. */
  lemma {:induction false} LaidExtend(d: seq<byte>, ps: seq<Entry>, es: seq<Entry>, src: nat, j: nat)
    requires IsBuffer(d) && 1 <= j && src + j <= |es| && |ps| + j <= NKeys(d)
    requires Laid(d, ps + es[src..src + j - 1])
    requires SlotHolds(d, |ps| + j - 1, es[src + j - 1], Span(ps) + Span(es[src..src + j - 1]))
    ensures Laid(d, ps + es[src..src + j])
  {
    var init, e := ps + es[src..src + j - 1], es[src + j - 1];
    SpanAppend(ps, es[src..src + j - 1]);
    LaidSnoc(d, init, e);
    SliceSnoc(ps, es, src, j);
  }

  /** ps followed by es[src..src+j] is ps followed by es[src..src+j-1], then es[src+j-1]. */
  lemma {:induction false} SliceSnoc(ps: seq<Entry>, es: seq<Entry>, src: nat, j: nat)
    requires 1 <= j && src + j <= |es|
    ensures (ps + es[src..src + j - 1]) + [es[src + j - 1]] == ps + es[src..src + j]
  {
    assert es[src..src + j] == es[src..src + j - 1] + [es[src + j - 1]];
  }

  // ---------------------------------------------------------------------------
  // The closing set_offset, and the whole copy
  // ---------------------------------------------------------------------------

  /** The closing set_offset after the laid entries ps' records their span: the node is ready for the next slot. */
  lemma {:induction false} CloseReady(d: seq<byte>, ps': seq<Entry>, k: nat)
    requires IsBuffer(d) && Laid(d, ps') && 1 <= k == |ps'|
    ensures Span(ps') < U16_LIMIT && (k < NKeys(d) ==> OffsetOk(d, k))
    ensures CloseRange(d, k) == Some(SetOffset(d, k, Span(ps')))
    ensures var r := SetOffset(d, k, Span(ps')); |r| == |d| && BType(r) == BType(d) && NKeys(r) == NKeys(d) && Ready(r, ps')
  {
    LaidReads(d, ps', k - 1);
    LaidOffset(d, ps', k - 1);
    SpanStep(ps', k - 1);
    assert ps'[..k] == ps';
    LaidFits(d, ps');
    ReadyOffset(d, ps');
  }

  /** After the three stages, node_append_range is the closing set_offset. */
  lemma {:induction false} CopiedRuns(from: seq<byte>, into: seq<byte>, es: seq<Entry>, ps: seq<Entry>, dst: nat, src: nat, n: nat,
                                      r1: seq<byte>, r2: seq<byte>, r3: seq<byte>)
    requires Copied(from, into, es, ps, dst, src, n, r1, r2, r3)
    ensures IsBuffer(from) && IsBuffer(into) && IsBuffer(r3) && 1 <= dst + n
    ensures AppendRange(from, into, dst, src, n) == CloseRange(r3, dst + n)
  {
    assert Copied(from, into, es, ps, dst, src, n, r1, r2, r3, 0);
    RangeOpen(from, into, dst, src, n);
  }

  /**
    node_append_range from a node holding es, into a node under construction
    holding ps and ready at slot dst = |ps|: when the n >= 1 entries es[src..src+n]
    fit, it succeeds and the node holds ps followed by them, ready for the next slot.
  */
  lemma {:induction false} RangeReady(from: seq<byte>, into: seq<byte>, es: seq<Entry>, ps: seq<Entry>, dst: nat, src: nat, n: nat)
    returns (r: seq<byte>)
    requires RangeFits(from, into, es, ps, dst, src, n)
    ensures AppendRange(from, into, dst, src, n) == Some(r)
    ensures IsBuffer(r) && |r| == |into| && BType(r) == BType(into) && NKeys(r) == NKeys(into) && Ready(r, ps + es[src..src + n])
  {
    var r1, r2, r3 := CopyStages(from, into, es, ps, dst, src, n);
    CopiedLaid(from, into, es, ps, dst, src, n, r1, r2, r3, n);
    CopiedKeeps(from, into, es, ps, dst, src, n, r1, r2, r3);
    CopiedRuns(from, into, es, ps, dst, src, n, r1, r2, r3);
    CloseReady(r3, ps + es[src..src + n], dst + n);
    r := SetOffset(r3, dst + n, Span(ps + es[src..src + n]));
  }

  /** The assert of node_append_range: a copy that would pass the slots of `into` panics. */
  lemma {:induction false} RangeOverflows(from: seq<byte>, into: seq<byte>, dst: nat, src: nat, n: nat)
    requires IsBuffer(from) && IsBuffer(into) && dst + n > NKeys(into)
    ensures AppendRange(from, into, dst, src, n) == None
  {
    RangeOpen(from, into, dst, src, n);
  }

  /**
    The early return of node_append_range: with no entry to copy, or a range
    that runs past the nkeys of `from`, `into` comes back unchanged.
  */
  lemma {:induction false} RangeSkips(from: seq<byte>, into: seq<byte>, dst: nat, src: nat, n: nat)
    requires IsBuffer(from) && IsBuffer(into) && dst + n <= NKeys(into) && src + n < U16_LIMIT
    requires n == 0 || src + n > NKeys(from)
    ensures AppendRange(from, into, dst, src, n) == Some(into)
  {
    RangeOpen(from, into, dst, src, n);
  }
}
