/**
  The parts of a fresh zeroed buffer that a builder never writes. leaf_update
  claims one slot more than it fills and stops after the new entry, so the
  pointer slots after it, the offset slots after the next one and the blob
  past the new entry keep the zeros of the scratch buffer; this module carries
  that fact through each write and reads off what those slots then decode to.
*/
module Scratch {
  import opened Bytes
  import opened Codec
  import opened Layout
  import opened Range

  /**
    Every byte of d in [lo, hi) is zero. Like Agrees, the fact is kept behind
    `depth` unfoldings, all but the bounds; ZeroOpen expands it.
  */
  predicate ZeroOn(d: seq<byte>, lo: nat, hi: nat, depth: nat := 2)
    decreases |d|, depth
  {
    && lo <= hi <= |d|
    && if depth > 0 then ZeroOn(d, lo, hi, depth - 1) else forall k :: lo <= k < hi ==> d[k] == 0
  }

  lemma {:induction false} ZeroOpen(d: seq<byte>, lo: nat, hi: nat)
    requires ZeroOn(d, lo, hi)
    ensures forall k :: lo <= k < hi ==> d[k] == 0
  {
    assert ZeroOn(d, lo, hi, 0);
  }

  lemma {:induction false} ZeroClose(d: seq<byte>, lo: nat, hi: nat)
    requires lo <= hi <= |d| && forall k :: lo <= k < hi ==> d[k] == 0
    ensures ZeroOn(d, lo, hi)
  {
    assert ZeroOn(d, lo, hi, 0);
  }

  /** A zero range holds zero on every range inside it. */
  lemma {:induction false} ZeroInside(d: seq<byte>, lo: nat, hi: nat, lo': nat, hi': nat)
    requires ZeroOn(d, lo, hi) && lo <= lo' <= hi' <= hi
    ensures ZeroOn(d, lo', hi')
  {
    ZeroOpen(d, lo, hi);
    ZeroClose(d, lo', hi');
  }

  /**
    In a buffer laid out for n slots: pointer slots i .. n-1, offset slots
    j .. n-1, and every byte from at on are zero.
  */
  predicate Blank(d: seq<byte>, n: nat, i: nat, j: nat, at: nat)
  {
    && i <= n && j <= n && OffsetPos(n, n) <= at
    && ZeroOn(d, PointerPos(i), PointerPos(n))
    && ZeroOn(d, OffsetPos(n, j), OffsetPos(n, n))
    && ZeroOn(d, at, |d|)
  }

  /** The bytes [a, b) lie outside the three regions of Blank(_, n, i, j, at). */
  predicate Misses(n: nat, i: nat, j: nat, at: nat, a: nat, b: nat)
  {
    && a <= b
    && (|| b <= PointerPos(i)
        || (PointerPos(n) <= a && b <= OffsetPos(n, j))
        || (OffsetPos(n, n) <= a && b <= at))
  }

  /** A change confined to [a, b) keeps zero the bytes of [lo, hi) it does not meet. */
  lemma {:induction false} ZeroKept(d: seq<byte>, r: seq<byte>, lo: nat, hi: nat, a: nat, b: nat)
    requires ZeroOn(d, lo, hi) && Agrees(d, r, a, b) && (b <= lo || hi <= a)
    ensures ZeroOn(r, lo, hi)
  {
    AgreesOpen(d, r, a, b);
    ZeroOpen(d, lo, hi);
    forall k | lo <= k < hi
      ensures r[k] == 0
    {
      if b <= lo {
        assert r[k] == r[b..|d|][k - b] == d[b..|d|][k - b];
      } else {
        assert r[k] == r[0..a][k] == d[0..a][k];
      }
    }
    ZeroClose(r, lo, hi);
  }

  /** A change confined to bytes outside the three regions keeps them zero. */
  lemma {:induction false} BlankKept(d: seq<byte>, r: seq<byte>, n: nat, i: nat, j: nat, at: nat, a: nat, b: nat)
    requires Blank(d, n, i, j, at) && Agrees(d, r, a, b) && Misses(n, i, j, at, a, b)
    ensures Blank(r, n, i, j, at)
  {
    ZeroKept(d, r, PointerPos(i), PointerPos(n), a, b);
    ZeroKept(d, r, OffsetPos(n, j), OffsetPos(n, n), a, b);
    ZeroKept(d, r, at, |d|, a, b);
  }

  /** A write outside the three regions keeps them zero. */
  lemma {:induction false} BlankWrite(d: seq<byte>, n: nat, i: nat, j: nat, at: nat, p: nat, s: seq<byte>)
    requires Blank(d, n, i, j, at) && p + |s| <= |d| && Misses(n, i, j, at, p, p + |s|)
    ensures Blank(Write(d, p, s), n, i, j, at)
  {
    WriteAgrees(d, p, s);
    BlankKept(d, Write(d, p, s), n, i, j, at, p, p + |s|);
  }

  /** A fresh zeroed buffer with its header written: the three regions are zero. */
  lemma {:induction false} FreshBlank(size: nat, btype: nat, n: nat, i: nat, j: nat, at: nat)
    requires btype < U16_LIMIT && n < U16_LIMIT && HEADER <= size <= 2 * PAGE_SIZE
    requires i <= n && j <= n && OffsetPos(n, n) <= at <= size
    ensures Blank(SetHeader(Zeros(size), btype, n), n, i, j, at)
  {
    var z := Zeros(size);
    ZeroClose(z, PointerPos(i), PointerPos(n));
    ZeroClose(z, OffsetPos(n, j), OffsetPos(n, n));
    ZeroClose(z, at, |z|);
    BlankWrite(z, n, i, j, at, 0, U16Bytes(btype));
    BlankWrite(Write(z, 0, U16Bytes(btype)), n, i, j, at, 2, U16Bytes(n));
  }

  /** node_append_range writes its pointers, its offsets and its blob outside the three regions. */
  lemma {:induction false} RangeBlank(from: seq<byte>, into: seq<byte>, es: seq<Entry>, ps: seq<Entry>, dst: nat, src: nat, n: nat,
                                      i: nat, j: nat, at: nat)
    returns (r: seq<byte>)
    requires RangeFits(from, into, es, ps, dst, src, n) && Blank(into, NKeys(into), i, j, at)
    requires dst + n <= i && dst + n + 1 <= j && BlobAt(into) + Span(ps) + Span(es[src..src + n]) <= at
    ensures AppendRange(from, into, dst, src, n) == Some(r) && Blank(r, NKeys(into), i, j, at)
  {
    var nk := NKeys(into);
    var r1, r2, r3 := CopyStages(from, into, es, ps, dst, src, n);
    CopiedFrames(from, into, es, ps, dst, src, n, r1, r2, r3);
    BlankKept(into, r1, nk, i, j, at, PointerPos(dst), PointerPos(dst + n));
    BlankKept(r1, r2, nk, i, j, at, OffsetPos(nk, dst), OffsetPos(nk, dst + n));
    var lo := BlobAt(into) + Span(ps);
    BlankKept(r2, r3, nk, i, j, at, lo, lo + Span(es[src..src + n]));
    CopiedLaid(from, into, es, ps, dst, src, n, r1, r2, r3, n);
    CopiedKeeps(from, into, es, ps, dst, src, n, r1, r2, r3);
    CopiedRuns(from, into, es, ps, dst, src, n, r1, r2, r3);
    var qs := ps + es[src..src + n];
    CloseReady(r3, qs, dst + n);
    r := SetOffset(r3, dst + n, Span(qs));
    SetOffsetIs(r3, dst + n, Span(qs));
    if dst + n < nk {
      BlankWrite(r3, nk, i, j, at, OffsetPos(nk, dst + n), U16Bytes(Span(qs)));
    }
  }

  /** node_append_range of n >= 0 entries into a ready node, outside the three regions. */
  lemma {:induction false} RangeStepBlank(from: seq<byte>, into: seq<byte>, es: seq<Entry>, ps: seq<Entry>, dst: nat, src: nat, n: nat,
                                          qs: seq<Entry>, i: nat, j: nat, at: nat)
    requires IsBuffer(from) && IsBuffer(into) && Holds(from, es) && Ready(into, ps)
    requires dst == |ps| && src + n <= |es| && dst + n <= NKeys(into)
    requires qs == ps + es[src..src + n] && BlobAt(into) + Span(qs) <= at && Blank(into, NKeys(into), i, j, at)
    requires dst + n <= i && dst + n + 1 <= j
    ensures AppendRange(from, into, dst, src, n).Some?
    ensures Blank(AppendRange(from, into, dst, src, n).value, NKeys(into), i, j, at)
  {
    HoldsCount(from, es);
    if n == 0 {
      RangeSkips(from, into, dst, src, n);
    } else {
      SpanAppend(ps, es[src..src + n]);
      ReadyOpen(into, ps);
      FitsClose(from, into, es, ps, dst, src, n);
      var r := RangeBlank(from, into, es, ps, dst, src, n, i, j, at);
    }
  }

  /** node_append_kv_pair at slot i writes pointer i, the entry and offset i+1, outside the three regions. */
  lemma {:induction false} AppendKVBlank(d: seq<byte>, ptr: nat, i: nat, key: seq<byte>, val: seq<byte>, at: nat)
    requires IsBuffer(d) && ptr < U64_LIMIT && AppendKV(d, ptr, i, key, val).Some?
    requires Blank(d, NKeys(d), i + 1, i + 2, at)
    requires OffsetOk(d, i) && KvPos(d, i) + HEADER + |key| + |val| <= at
    ensures Blank(AppendKV(d, ptr, i, key, val).value, NKeys(d), i + 1, i + 2, at)
  {
    var nk := NKeys(d);
    AppendKVShape(d, ptr, i, key, val);
    var v := GetOffset(d, i) + HEADER + |key| + |val|;
    var p := KvPos(d, i);
    SetPointerIs(d, i, ptr);
    var d1 := SetPointer(d, i, ptr);
    BlankWrite(d, nk, i + 1, i + 2, at, PointerPos(i), U64Bytes(ptr));
    var d2 := PutEntry(d1, p, key, val);
    EntryBytesParts(key, val);
    BlankWrite(d1, nk, i + 1, i + 2, at, p, EntryBytes(key, val));
    AppendKVWriteIs(d, ptr, i, key, val, d2, v);
    SetOffsetIs(d2, i + 1, v);
    if i + 1 < nk {
      BlankWrite(d2, nk, i + 1, i + 2, at, OffsetPos(nk, i + 1), U16Bytes(v));
    }
  }

  // ---------------------------------------------------------------------------
  // What zero bytes decode to
  // ---------------------------------------------------------------------------

  /** Zero bytes read as the little-endian number 0. */
  lemma {:induction false} LEZero(s: seq<byte>)
    requires forall k :: 0 <= k < |s| ==> s[k] == 0
    ensures LE(s) == 0
    decreases |s|
  {
    if s != [] {
      assert forall k :: 0 <= k < |s[1..]| ==> s[1..][k] == s[k + 1];
      LEZero(s[1..]);
    }
  }

  lemma {:induction false} U16Zero(d: seq<byte>, p: nat)
    requires ZeroOn(d, p, p + 2)
    ensures U16At(d, p) == 0
  {
    ZeroOpen(d, p, p + 2);
    U16Open(d, p);
    LEZero(d[p..p + 2]);
  }

  lemma {:induction false} U64Zero(d: seq<byte>, p: nat)
    requires ZeroOn(d, p, p + 8)
    ensures U64At(d, p) == 0
  {
    ZeroOpen(d, p, p + 8);
    U64Open(d, p);
    LEZero(d[p..p + 8]);
  }

  /**
    A node ready after es, counting more slots than es fills, whose regions
    past the next slot are zero: every later pointer reads 0, the next slot
    reads an empty key and value where its 4 length bytes fit, and each slot
    after it reads offset 0, so the same entry as slot 0.
  */
  lemma {:induction false} BlankReads(d: seq<byte>, es: seq<Entry>, at: nat)
    requires IsBuffer(d) && Ready(d, es) && 1 <= |es| && |es| < NKeys(d)
    requires at == BlobAt(d) + Span(es) && Blank(d, NKeys(d), |es|, |es| + 1, at)
    ensures forall k :: |es| <= k < NKeys(d) ==> PointerOk(d, k) && GetPointer(d, k) == 0
    ensures at + 4 <= |d| ==> ValueOk(d, |es|) && GetKey(d, |es|) == [] && GetValue(d, |es|) == []
    ensures forall k :: |es| < k < NKeys(d) ==>
              ValueOk(d, k) && GetKey(d, k) == es[0].key && GetValue(d, k) == es[0].val
  {
    var nk := NKeys(d);
    ReadyOpen(d, es);
    LaidReads(d, es, 0);
    LaidOffset(d, es, 0);
    forall k | |es| <= k < nk
      ensures PointerOk(d, k) && GetPointer(d, k) == 0
    {
      ZeroInside(d, PointerPos(|es|), PointerPos(nk), PointerPos(k), PointerPos(k) + 8);
      U64Zero(d, PointerPos(k));
    }
    if at + 4 <= |d| {
      ZeroInside(d, at, |d|, at, at + 2);
      ZeroInside(d, at, |d|, at + 2, at + 4);
      U16Zero(d, at);
      U16Zero(d, at + 2);
    }
    forall k | |es| < k < nk
      ensures ValueOk(d, k) && GetKey(d, k) == es[0].key && GetValue(d, k) == es[0].val
    {
      ZeroInside(d, OffsetPos(nk, |es| + 1), OffsetPos(nk, nk), OffsetPos(nk, k), OffsetPos(nk, k) + 2);
      U16Zero(d, OffsetPos(nk, k));
      assert KvPos(d, k) == KvPos(d, 0);
    }
  }
}
