/**
  The node builders of src/B_tree.rs: each fills a fresh buffer with
  set_header, node_append_range and node_append_kv_pair. As functions they
  return None where the source panics (an assert, a slice past the end, a u16
  overflow or underflow). Each has a shape lemma that gives the exact entries
  of the node built from a well-formed node, in terms of Holds.
*/
module Builders {
  import opened Bytes
  import opened Codec
  import opened Layout
  import opened Append
  import opened Range
  import opened Scratch
  import Seqs

  // ---------------------------------------------------------------------------
  // The builders
  // ---------------------------------------------------------------------------

  /**
    leaf_insert(leaf, into, index, key, val): header (LEAF, nkeys + 1), slots
    before index copied, the new entry at index, then the slots from index on.
  */
  function LeafInsert(leaf: seq<byte>, into: seq<byte>, index: nat, key: seq<byte>, val: seq<byte>): (r: Option<seq<byte>>)
    requires IsBuffer(leaf) && IsBuffer(into)
    ensures r.Some? ==> IsBuffer(r.value) && |r.value| == |into|
  {
    var nk := NKeys(leaf);
    if nk + 1 >= U16_LIMIT || index + 1 >= U16_LIMIT || index > nk then None
    else
      match AppendRange(leaf, SetHeader(into, LEAF, nk + 1), 0, 0, index)
      case None => None
      case Some(d1) =>
        match AppendKV(d1, 0, index, key, val)
        case None => None
        case Some(d2) => AppendRange(leaf, d2, index + 1, index, nk - index)
  }

  /**
    leaf_update(leaf, into, index, key, val) as written: the header claims
    nkeys + 1 slots, and the tail copy asks for slots index+1 .. nkeys+1 of
    leaf, one past its end, which node_append_range skips.
  */
  function LeafUpdate(leaf: seq<byte>, into: seq<byte>, index: nat, key: seq<byte>, val: seq<byte>): (r: Option<seq<byte>>)
    requires IsBuffer(leaf) && IsBuffer(into)
    ensures r.Some? ==> IsBuffer(r.value) && |r.value| == |into|
  {
    var nk := NKeys(leaf);
    if nk + 1 >= U16_LIMIT || index + 1 >= U16_LIMIT || index > nk then None
    else
      match AppendRange(leaf, SetHeader(into, LEAF, nk + 1), 0, 0, index)
      case None => None
      case Some(d1) =>
        match AppendKV(d1, 0, index, key, val)
        case None => None
        case Some(d2) => AppendRange(leaf, d2, index + 1, index + 1, nk - index)
  }

  /** leaf_delete(into, leaf, index): header (btype, nkeys - 1), every slot but index copied. */
  function LeafDelete(into: seq<byte>, leaf: seq<byte>, index: nat): (r: Option<seq<byte>>)
    requires IsBuffer(leaf) && IsBuffer(into)
    ensures r.Some? ==> IsBuffer(r.value) && |r.value| == |into|
  {
    var nk := NKeys(leaf);
    if nk == 0 || index + 1 > nk then None
    else
      match AppendRange(leaf, SetHeader(into, BType(leaf), nk - 1), 0, 0, index)
      case None => None
      case Some(d1) => AppendRange(leaf, d1, index, index + 1, nk - index - 1)
  }

  /** node_merge(left, right, into): header (btype of left, both counts), left's slots, then right's. */
  function NodeMerge(left: seq<byte>, right: seq<byte>, into: seq<byte>): (r: Option<seq<byte>>)
    requires IsBuffer(left) && IsBuffer(right) && IsBuffer(into)
    ensures r.Some? ==> IsBuffer(r.value) && |r.value| == |into|
  {
    var ln, rn := NKeys(left), NKeys(right);
    if ln + rn >= U16_LIMIT then None
    else
      match AppendRange(left, SetHeader(into, BType(left), ln + rn), 0, 0, ln)
      case None => None
      case Some(d1) => AppendRange(right, d1, ln, 0, rn)
  }

  /** node_replace_kid2(into, node, index, ptr, key): slots index and index+1 of node become one slot (ptr, key). */
  function ReplaceKid2(into: seq<byte>, node: seq<byte>, index: nat, ptr: nat, key: seq<byte>): (r: Option<seq<byte>>)
    requires IsBuffer(node) && IsBuffer(into) && ptr < U64_LIMIT
    ensures r.Some? ==> IsBuffer(r.value) && |r.value| == |into|
  {
    var nk := NKeys(node);
    if nk == 0 || index + 2 >= U16_LIMIT || index + 2 > nk then None
    else
      match AppendRange(node, SetHeader(into, BType(node), nk - 1), 0, 0, index)
      case None => None
      case Some(d1) =>
        match AppendKV(d1, ptr, index, key, [])
        case None => None
        case Some(d2) => AppendRange(node, d2, index + 1, index + 2, nk - index - 2)
  }

  /** The two halves node_split2 builds: the first nkeys/2 slots on the left, the rest on the right. */
  function Split2(node: seq<byte>, left: seq<byte>, right: seq<byte>): (r: Option<(seq<byte>, seq<byte>)>)
    requires IsBuffer(node) && IsBuffer(left) && IsBuffer(right)
    ensures r.Some? ==> IsBuffer(r.value.0) && |r.value.0| == |left| && IsBuffer(r.value.1) && |r.value.1| == |right|
  {
    var nk := NKeys(node);
    var half := nk / 2;
    match AppendRange(node, SetHeader(left, BType(node), half), 0, 0, half)
    case None => None
    case Some(l) =>
      match AppendRange(node, SetHeader(right, BType(node), nk - half), 0, half, nk - half)
      case None => None
      case Some(r) => Some((l, r))
  }

  /**
    node_split3: a node whose size() is under a page comes back alone, cut to
    one page; otherwise node_split2 halves it into an 8192-byte left and a
    page-sized right buffer, and a left half still too big is halved again.
    Every node returned is one page long.
  */
  function Split3(node: seq<byte>): (r: Option<seq<seq<byte>>>)
    requires IsBuffer(node)
    ensures r.Some? ==> 1 <= |r.value| <= 3 && forall j :: 0 <= j < |r.value| ==> |r.value[j]| == PAGE_SIZE
    ensures r.Some? ==> SizeOk(node) && (|r.value| == 1 <==> Size(node) < PAGE_SIZE)
  {
    if !SizeOk(node) then None
    else if Size(node) < PAGE_SIZE then
      if |node| < PAGE_SIZE then None else Some([node[..PAGE_SIZE]])
    else
      match Split2(node, Zeros(2 * PAGE_SIZE), Zeros(PAGE_SIZE))
      case None => None
      case Some((l, r)) =>
        if !SizeOk(l) then None
        else if Size(l) < PAGE_SIZE then Some([l[..PAGE_SIZE], r])
        else
          match Split2(l, Zeros(PAGE_SIZE), Zeros(PAGE_SIZE))
          case None => None
          case Some((a, b)) => Some([a, b, r])
  }

  /** The kids' buffers and the pointers they are stored under, as node_replace_kidN takes them. */
  predicate KidsOk(kids: seq<seq<byte>>, ptrs: seq<nat>)
  {
    |ptrs| == |kids| && forall j :: 0 <= j < |kids| ==> IsBuffer(kids[j]) && ptrs[j] < U64_LIMIT
  }

  /**
    The loop of node_replace_kidN: slot at + j takes pointer ptrs[j], the
    first key of kids[j] and an empty value, for each kid in turn.
  */
  function AppendKids(d: seq<byte>, at: nat, kids: seq<seq<byte>>, ptrs: seq<nat>): (r: Option<seq<byte>>)
    requires IsBuffer(d) && KidsOk(kids, ptrs)
    ensures r.Some? ==> IsBuffer(r.value) && |r.value| == |d|
    decreases |kids|
  {
    if kids == [] then Some(d)
    else
      var k := |kids| - 1;
      match AppendKids(d, at, kids[..k], ptrs[..k])
      case None => None
      case Some(d1) =>
        if at + k >= U16_LIMIT || !KeyOk(kids[k], 0) then None
        else AppendKV(d1, ptrs[k], at + k, GetKey(kids[k], 0), [])
  }

  /**
    node_replace_kidN(into, index, node, kids) with the kids stored under
    ptrs: header (NODE, nkeys + |kids| - 1), the slots before index, one slot
    per kid, then the slots after index.
  */
  function ReplaceKidN(into: seq<byte>, index: nat, node: seq<byte>, kids: seq<seq<byte>>, ptrs: seq<nat>): (r: Option<seq<byte>>)
    requires IsBuffer(node) && IsBuffer(into) && KidsOk(kids, ptrs) && |kids| < U16_LIMIT
    ensures r.Some? ==> IsBuffer(r.value) && |r.value| == |into|
  {
    var nk, inc := NKeys(node), |kids|;
    if nk + inc >= U16_LIMIT || nk + inc == 0 then None
    else
      match AppendRange(node, SetHeader(into, NODE, nk + inc - 1), 0, 0, index)
      case None => None
      case Some(d1) =>
        match AppendKids(d1, index, kids, ptrs)
        case None => None
        case Some(d2) =>
          if index + inc >= U16_LIMIT || index + 1 >= U16_LIMIT || index + 1 > nk then None
          else AppendRange(node, d2, index + inc, index + 1, nk - index - 1)
  }

  /** The page a slot of node points to, as get() reads it from the store, or None. */
  function Sibling(node: seq<byte>, i: nat, pages: map<nat, seq<byte>>): (r: Option<seq<byte>>)
    requires IsBuffer(node)
    ensures r.Some? ==> IsBuffer(r.value)
  {
    if !PointerOk(node, i) || GetPointer(node, i) !in pages || !IsBuffer(pages[GetPointer(node, i)]) then None
    else Some(pages[GetPointer(node, i)])
  }

  /** The u16 sibling.size() + updated.size() - HEADER of should_merge, or None where it panics. */
  function Combined(sibling: seq<byte>, updated: seq<byte>): Option<nat>
    requires IsBuffer(sibling) && IsBuffer(updated) && SizeOk(updated)
  {
    if !SizeOk(sibling) then None
    else
      var s := Size(sibling) + Size(updated);
      if s >= U16_LIMIT || s < HEADER then None else Some(s - HEADER)
  }

  /** The right-hand half of should_merge: the sibling at index + 1, when there is one and the two fit a page. */
  function MergeRight(updated: seq<byte>, node: seq<byte>, index: nat, pages: map<nat, seq<byte>>): Option<(int, seq<byte>)>
    requires IsBuffer(updated) && IsBuffer(node) && SizeOk(updated)
  {
    if index + 1 >= U16_LIMIT then None
    else if index + 1 < NKeys(node) then
      match Sibling(node, index + 1, pages)
      case None => None
      case Some(sib) =>
        match Combined(sib, updated)
        case None => None
        case Some(s) => if s <= PAGE_SIZE then Some((1, sib)) else Some((0, Zeros(PAGE_SIZE)))
    else Some((0, Zeros(PAGE_SIZE)))
  }

  /**
    should_merge(updated, node, index): no merge (0) when the updated child's
    size() is over a quarter page; otherwise the left sibling (-1) when the
    two fit a page, else the right sibling (+1) when they do, else no merge.
  */
  function ShouldMerge(updated: seq<byte>, node: seq<byte>, index: nat, pages: map<nat, seq<byte>>): Option<(int, seq<byte>)>
    requires IsBuffer(updated) && IsBuffer(node)
  {
    if !SizeOk(updated) then None
    else if PAGE_SIZE / 4 < Size(updated) then Some((0, Zeros(PAGE_SIZE)))
    else if index > 0 then
      match Sibling(node, index - 1, pages)
      case None => None
      case Some(sib) =>
        match Combined(sib, updated)
        case None => None
        case Some(s) => if s <= PAGE_SIZE then Some((-1, sib)) else MergeRight(updated, node, index, pages)
    else MergeRight(updated, node, index, pages)
  }

  /** Slot i of node points to a page that, merged with updated, fits one page. */
  predicate FitsWith(updated: seq<byte>, node: seq<byte>, i: nat, pages: map<nat, seq<byte>>)
    requires IsBuffer(updated) && IsBuffer(node) && SizeOk(updated)
  {
    match Sibling(node, i, pages)
    case None => false
    case Some(sib) =>
      match Combined(sib, updated)
      case None => false
      case Some(s) => s <= PAGE_SIZE
  }

  /**
    The merge policy of should_merge, where it does not panic: a child over a
    quarter page is never merged; otherwise the left sibling is taken exactly
    when it fits, the right sibling exactly when the left does not and the
    right does, and the sibling returned is the page the slot points to.
  */
  lemma {:induction false} ShouldMergePolicy(updated: seq<byte>, node: seq<byte>, index: nat, pages: map<nat, seq<byte>>)
    requires IsBuffer(updated) && IsBuffer(node) && ShouldMerge(updated, node, index, pages).Some?
    ensures SizeOk(updated)
    ensures var (dir, sib) := ShouldMerge(updated, node, index, pages).value;
      && (dir == -1 || dir == 0 || dir == 1)
      && (PAGE_SIZE / 4 < Size(updated) ==> dir == 0)
      && (dir == -1 <==> Size(updated) <= PAGE_SIZE / 4 && index > 0 && FitsWith(updated, node, index - 1, pages))
      && (dir == 1 <==>
            && Size(updated) <= PAGE_SIZE / 4 && !(index > 0 && FitsWith(updated, node, index - 1, pages))
            && index + 1 < NKeys(node) && FitsWith(updated, node, index + 1, pages))
      && (dir == -1 ==> index > 0 && Sibling(node, index - 1, pages) == Some(sib))
      && (dir == 1 ==> Sibling(node, index + 1, pages) == Some(sib))
      && (dir == 0 ==> sib == Zeros(PAGE_SIZE))
  {
  }

  /**
    The size test of should_merge undercounts: size() leaves out a node's
    header, and the sum takes off one header more, so the node that
    node_merge builds from the two is 2 * HEADER bytes larger than the
    figure compared with the page size.
  */
  lemma {:induction false} CombinedUndercounts(sibling: seq<byte>, ls: seq<Entry>, updated: seq<byte>, us: seq<Entry>)
    requires IsBuffer(sibling) && IsBuffer(updated) && Holds(sibling, ls) && Holds(updated, us)
    requires |ls| >= 1 && |us| >= 1 && EncodedSize(ls) + EncodedSize(us) < U16_LIMIT + 2 * HEADER
    ensures SizeOk(updated) && Combined(sibling, updated) == Some(EncodedSize(ls + us) - 2 * HEADER)
  {
    SizeOfHolds(sibling, ls);
    SizeOfHolds(updated, us);
    SpanAppend(ls, us);
  }

  // ---------------------------------------------------------------------------
  // One range copy into a node under construction
  // ---------------------------------------------------------------------------

  /**
    node_append_range of n entries of a well-formed node at the next free slot
    of a node under construction: it succeeds, and the node then holds those
    entries after its own.
  */
  lemma {:induction false} RangeStep(from: seq<byte>, into: seq<byte>, es: seq<Entry>, ps: seq<Entry>, dst: nat, src: nat, n: nat,
                                     qs: seq<Entry>)
    returns (r: seq<byte>)
    requires IsBuffer(from) && IsBuffer(into) && Holds(from, es) && Ready(into, ps)
    requires dst == |ps| && src + n <= |es| && dst + n <= NKeys(into)
    requires qs == ps + es[src..src + n] && BlobAt(into) + Span(qs) <= |into|
    ensures AppendRange(from, into, dst, src, n) == Some(r)
    ensures IsBuffer(r) && |r| == |into| && BType(r) == BType(into) && NKeys(r) == NKeys(into)
    ensures Ready(r, qs)
  {
    HoldsCount(from, es);
    if n == 0 {
      assert qs == ps;
      RangeSkips(from, into, dst, src, n);
      r := into;
    } else {
      SpanAppend(ps, es[src..src + n]);
      FitsClose(from, into, es, ps, dst, src, n);
      r := RangeReady(from, into, es, ps, dst, src, n);
    }
  }

  /** A fresh zeroed buffer with a header: ready, with no entry yet. */
  lemma {:induction false} FreshStart(size: nat, btype: nat, n: nat) returns (d: seq<byte>)
    requires HEADER <= size <= 2 * PAGE_SIZE && btype < U16_LIMIT && n < U16_LIMIT
    requires HEADER + 10 * n <= size
    ensures d == SetHeader(Zeros(size), btype, n)
    ensures IsBuffer(d) && |d| == size && BType(d) == btype && NKeys(d) == n && Ready(d, [])
  {
    FreshReady(size, btype, n);
    d := SetHeader(Zeros(size), btype, n);
  }

  /** A node under construction whose slots are all filled holds its entries. */
  lemma {:induction false} ReadyHolds(d: seq<byte>, es: seq<Entry>)
    requires IsBuffer(d) && Ready(d, es) && NKeys(d) == |es|
    ensures Holds(d, es)
  {
    ReadyOpen(d, es);
    HoldsClose(d, es);
  }

  /** The entries of a prefix, one entry more, or a slice in the middle span no more than the whole. */
  lemma {:induction false} SpanUpTo(fs: seq<Entry>, ps: seq<Entry>, k: nat)
    requires k <= |fs| && ps == fs[..k]
    ensures Span(ps) <= Span(fs)
  {
    SpanPrefix(fs, k);
  }

  // ---------------------------------------------------------------------------
  // Each builder from the results of its steps
  // ---------------------------------------------------------------------------

  lemma {:induction false} LeafInsertIs(leaf: seq<byte>, into: seq<byte>, index: nat, key: seq<byte>, val: seq<byte>,
                                        d0: seq<byte>, d1: seq<byte>, d2: seq<byte>)
    requires IsBuffer(leaf) && IsBuffer(into) && NKeys(leaf) + 1 < U16_LIMIT && index + 1 < U16_LIMIT && index <= NKeys(leaf)
    requires d0 == SetHeader(into, LEAF, NKeys(leaf) + 1)
    requires AppendRange(leaf, d0, 0, 0, index) == Some(d1) && IsBuffer(d1)
    requires AppendKV(d1, 0, index, key, val) == Some(d2) && IsBuffer(d2)
    ensures LeafInsert(leaf, into, index, key, val) == AppendRange(leaf, d2, index + 1, index, NKeys(leaf) - index)
  {
  }

  lemma {:induction false} LeafUpdateIs(leaf: seq<byte>, into: seq<byte>, index: nat, key: seq<byte>, val: seq<byte>,
                                        d0: seq<byte>, d1: seq<byte>, d2: seq<byte>)
    requires IsBuffer(leaf) && IsBuffer(into) && NKeys(leaf) + 1 < U16_LIMIT && index + 1 < U16_LIMIT && index <= NKeys(leaf)
    requires d0 == SetHeader(into, LEAF, NKeys(leaf) + 1)
    requires AppendRange(leaf, d0, 0, 0, index) == Some(d1) && IsBuffer(d1)
    requires AppendKV(d1, 0, index, key, val) == Some(d2) && IsBuffer(d2) && NKeys(d2) == NKeys(leaf) + 1
    ensures LeafUpdate(leaf, into, index, key, val) == Some(d2)
  {
    RangeSkips(leaf, d2, index + 1, index + 1, NKeys(leaf) - index);
  }

  lemma {:induction false} LeafDeleteIs(into: seq<byte>, leaf: seq<byte>, index: nat, d0: seq<byte>, d1: seq<byte>)
    requires IsBuffer(leaf) && IsBuffer(into) && index < NKeys(leaf)
    requires d0 == SetHeader(into, BType(leaf), NKeys(leaf) - 1)
    requires AppendRange(leaf, d0, 0, 0, index) == Some(d1) && IsBuffer(d1)
    ensures LeafDelete(into, leaf, index) == AppendRange(leaf, d1, index, index + 1, NKeys(leaf) - index - 1)
  {
  }

  lemma {:induction false} NodeMergeIs(left: seq<byte>, right: seq<byte>, into: seq<byte>, d0: seq<byte>, d1: seq<byte>)
    requires IsBuffer(left) && IsBuffer(right) && IsBuffer(into) && NKeys(left) + NKeys(right) < U16_LIMIT
    requires d0 == SetHeader(into, BType(left), NKeys(left) + NKeys(right))
    requires AppendRange(left, d0, 0, 0, NKeys(left)) == Some(d1) && IsBuffer(d1)
    ensures NodeMerge(left, right, into) == AppendRange(right, d1, NKeys(left), 0, NKeys(right))
  {
  }

  lemma {:induction false} ReplaceKid2Is(into: seq<byte>, node: seq<byte>, index: nat, ptr: nat, key: seq<byte>,
                                         d0: seq<byte>, d1: seq<byte>, d2: seq<byte>)
    requires IsBuffer(node) && IsBuffer(into) && ptr < U64_LIMIT && index + 2 <= NKeys(node)
    requires d0 == SetHeader(into, BType(node), NKeys(node) - 1)
    requires AppendRange(node, d0, 0, 0, index) == Some(d1) && IsBuffer(d1)
    requires AppendKV(d1, ptr, index, key, []) == Some(d2) && IsBuffer(d2)
    ensures ReplaceKid2(into, node, index, ptr, key) == AppendRange(node, d2, index + 1, index + 2, NKeys(node) - index - 2)
  {
  }

  lemma {:induction false} ReplaceKidNIs(size: nat, index: nat, node: seq<byte>, kids: seq<seq<byte>>, ptrs: seq<nat>,
                                         d1: seq<byte>, d2: seq<byte>, r: seq<byte>)
    requires IsBuffer(node) && IsBuffer(Zeros(size)) && KidsOk(kids, ptrs) && 1 <= |kids|
    requires NKeys(node) + |kids| < U16_LIMIT && index < NKeys(node)
    requires AppendRange(node, SetHeader(Zeros(size), NODE, NKeys(node) + |kids| - 1), 0, 0, index) == Some(d1) && IsBuffer(d1)
    requires AppendKids(d1, index, kids, ptrs) == Some(d2) && IsBuffer(d2)
    requires AppendRange(node, d2, index + |kids|, index + 1, NKeys(node) - index - 1) == Some(r)
    ensures ReplaceKidN(Zeros(size), index, node, kids, ptrs) == Some(r)
  {
  }

  lemma {:induction false} Split2Is(node: seq<byte>, left: seq<byte>, right: seq<byte>, half: nat, l0: seq<byte>, r0: seq<byte>,
                                    l: seq<byte>, r: seq<byte>)
    requires IsBuffer(node) && IsBuffer(left) && IsBuffer(right) && half == NKeys(node) / 2
    requires l0 == SetHeader(left, BType(node), half)
    requires r0 == SetHeader(right, BType(node), NKeys(node) - half)
    requires AppendRange(node, l0, 0, 0, half) == Some(l)
    requires AppendRange(node, r0, 0, half, NKeys(node) - half) == Some(r)
    ensures Split2(node, left, right) == Some((l, r))
  {
  }

  /** One half of node_split2: the entries es[lo..hi] copied into a fresh buffer. */
  lemma {:induction false} HalfShape(node: seq<byte>, es: seq<Entry>, size: nat, lo: nat, hi: nat)
    returns (d0: seq<byte>, d: seq<byte>)
    requires IsBuffer(node) && Holds(node, es) && lo <= hi <= |es|
    requires HEADER <= size <= 2 * PAGE_SIZE && EncodedSize(es[lo..hi]) <= size
    ensures d0 == SetHeader(Zeros(size), BType(node), hi - lo)
    ensures AppendRange(node, d0, 0, lo, hi - lo) == Some(d)
    ensures IsBuffer(d) && |d| == size && BType(d) == BType(node) && Holds(d, es[lo..hi])
  {
    HoldsCount(node, es);
    Seqs.Slice(es, lo, hi);
    d0 := FreshStart(size, BType(node), hi - lo);
    d := RangeStep(node, d0, es, [], 0, lo, hi - lo, es[lo..hi]);
    ReadyHolds(d, es[lo..hi]);
  }

  /** ns are the slots node_replace_kidN makes for the kids: pointer, first key, empty value. */
  predicate KidEntries(kids: seq<seq<byte>>, ptrs: seq<nat>, ns: seq<Entry>)
    requires KidsOk(kids, ptrs)
  {
    && |ns| == |kids|
    && forall j :: 0 <= j < |kids| ==>
         KeyOk(kids[j], 0) && GetKey(kids[j], 0) == ns[j].key && ns[j].ptr == ptrs[j] && ns[j].val == []
  }

  /** The kid loop at the next free slot of a node under construction appends the kids' slots. */
  lemma {:induction false} KidsReady(d: seq<byte>, ps: seq<Entry>, at: nat, kids: seq<seq<byte>>, ptrs: seq<nat>, ns: seq<Entry>)
    returns (r: seq<byte>)
    requires IsBuffer(d) && Ready(d, ps) && at == |ps| && at + |kids| <= NKeys(d)
    requires KidsOk(kids, ptrs) && KidEntries(kids, ptrs, ns)
    requires BlobAt(d) + Span(ps + ns) <= |d|
    ensures AppendKids(d, at, kids, ptrs) == Some(r)
    ensures IsBuffer(r) && |r| == |d| && BType(r) == BType(d) && NKeys(r) == NKeys(d) && Ready(r, ps + ns)
    decreases |kids|
  {
    if kids == [] {
      assert ps + ns == ps;
      r := d;
    } else {
      var k := |kids| - 1;
      Seqs.LastOf(ps, ns);
      KidsPrefix(kids, ptrs, ns);
      SpanUpTo(ps + ns, ps + ns[..k], at + k);
      var d1 := KidsReady(d, ps, at, kids[..k], ptrs[..k], ns[..k]);
      SpanSnoc(ps + ns[..k], ns[k]);
      r := KidStep(d1, ps + ns[..k], at + k, kids[k], ptrs[k], ns[k]);
      KidsIs(d, at, kids, ptrs, d1, r);
    }
  }

  /** Dropping the last kid keeps the kid slots well formed; the last kid's slot is as described. */
  lemma {:induction false} KidsPrefix(kids: seq<seq<byte>>, ptrs: seq<nat>, ns: seq<Entry>)
    requires KidsOk(kids, ptrs) && KidEntries(kids, ptrs, ns) && kids != []
    ensures KidsOk(kids[..|kids| - 1], ptrs[..|kids| - 1])
    ensures KidEntries(kids[..|kids| - 1], ptrs[..|kids| - 1], ns[..|kids| - 1])
    ensures var k := |kids| - 1;
      IsBuffer(kids[k]) && KeyOk(kids[k], 0) && GetKey(kids[k], 0) == ns[k].key && ns[k].ptr == ptrs[k] && ns[k].val == []
  {
  }

  /** One kid's slot appended at the next free slot. */
  lemma {:induction false} KidStep(d: seq<byte>, qs: seq<Entry>, i: nat, kid: seq<byte>, ptr: nat, e: Entry)
    returns (r: seq<byte>)
    requires IsBuffer(d) && Ready(d, qs) && i == |qs| && i < NKeys(d) && IsBuffer(kid)
    requires KeyOk(kid, 0) && GetKey(kid, 0) == e.key && e.ptr == ptr && e.val == []
    requires BlobAt(d) + Span(qs) + Width(e) <= |d|
    ensures AppendKV(d, ptr, i, GetKey(kid, 0), []) == Some(r)
    ensures IsBuffer(r) && |r| == |d| && BType(r) == BType(d) && NKeys(r) == NKeys(d) && Ready(r, qs + [e])
  {
    AppendKVReady(d, qs, e);
    r := AppendKV(d, e.ptr, |qs|, e.key, e.val).value;
  }

  /** The kid loop from the loop over all kids but the last and the last kid's append. */
  lemma {:induction false} KidsIs(d: seq<byte>, at: nat, kids: seq<seq<byte>>, ptrs: seq<nat>, d1: seq<byte>, r: seq<byte>)
    requires IsBuffer(d) && KidsOk(kids, ptrs) && kids != []
    requires KidsOk(kids[..|kids| - 1], ptrs[..|kids| - 1])
    requires AppendKids(d, at, kids[..|kids| - 1], ptrs[..|kids| - 1]) == Some(d1)
    requires at + |kids| - 1 < U16_LIMIT && KeyOk(kids[|kids| - 1], 0)
    requires AppendKV(d1, ptrs[|kids| - 1], at + |kids| - 1, GetKey(kids[|kids| - 1], 0), []) == Some(r)
    ensures AppendKids(d, at, kids, ptrs) == Some(r)
  {
  }

  /** The entries before index, then one new entry, appended to a fresh node. */
  lemma {:induction false} SplicedHead(from: seq<byte>, es: seq<Entry>, d0: seq<byte>, index: nat, e: Entry, total: nat)
    returns (d1: seq<byte>, d2: seq<byte>)
    requires IsBuffer(from) && Holds(from, es) && IsBuffer(d0) && Ready(d0, []) && index <= |es|
    requires index < NKeys(d0) && BlobAt(d0) + total <= |d0| && Span(es[..index] + [e]) <= total
    ensures AppendRange(from, d0, 0, 0, index) == Some(d1) && IsBuffer(d1)
    ensures AppendKV(d1, e.ptr, index, e.key, e.val) == Some(d2)
    ensures IsBuffer(d2) && |d2| == |d0| && BType(d2) == BType(d0) && NKeys(d2) == NKeys(d0) && Ready(d2, es[..index] + [e])
  {
    HoldsCount(from, es);
    Seqs.FromStart(es, index);
    SpanSnoc(es[..index], e);
    d1 := RangeStep(from, d0, es, [], 0, 0, index, es[..index]);
    AppendKVReady(d1, es[..index], e);
    d2 := AppendKV(d1, e.ptr, index, e.key, e.val).value;
  }

  /**
    The pattern of leaf_insert and node_replace_kid2: the entries before
    index, one new entry, then the entries from index + skip on, appended
    to a fresh node with room for exactly them.
  */
  lemma {:induction false} Spliced(from: seq<byte>, es: seq<Entry>, d0: seq<byte>, index: nat, e: Entry, skip: nat)
    returns (d1: seq<byte>, d2: seq<byte>, r: seq<byte>)
    requires IsBuffer(from) && Holds(from, es) && IsBuffer(d0) && Ready(d0, []) && index + skip <= |es|
    requires NKeys(d0) == |es| - skip + 1
    requires BlobAt(d0) + Span(es[..index] + [e] + es[index + skip..]) <= |d0|
    ensures AppendRange(from, d0, 0, 0, index) == Some(d1) && IsBuffer(d1)
    ensures AppendKV(d1, e.ptr, index, e.key, e.val) == Some(d2) && IsBuffer(d2)
    ensures AppendRange(from, d2, index + 1, index + skip, |es| - index - skip) == Some(r)
    ensures IsBuffer(r) && |r| == |d0| && BType(r) == BType(d0) && Holds(r, es[..index] + [e] + es[index + skip..])
  {
    HoldsCount(from, es);
    var fs := es[..index] + [e] + es[index + skip..];
    Seqs.Splice(es, index, e, skip);
    SpanUpTo(fs, es[..index] + [e], index + 1);
    d1, d2 := SplicedHead(from, es, d0, index, e, Span(fs));
    r := RangeStep(from, d2, es, es[..index] + [e], index + 1, index + skip, |es| - index - skip, fs);
    ReadyHolds(r, fs);
  }

  // ---------------------------------------------------------------------------
  // Shapes
  // ---------------------------------------------------------------------------

  /**
    leaf_insert into a fresh buffer: the new leaf holds the entries before
    index, the new entry, then the entries from index on.
  */
  lemma {:induction false} LeafInsertShape(leaf: seq<byte>, size: nat, es: seq<Entry>, index: nat, e: Entry)
    returns (r: seq<byte>)
    requires IsBuffer(leaf) && Holds(leaf, es) && index <= |es| && e.ptr == 0
    requires HEADER <= size <= 2 * PAGE_SIZE && |es| + 1 < U16_LIMIT
    requires EncodedSize(es[..index] + [e] + es[index..]) <= size
    ensures LeafInsert(leaf, Zeros(size), index, e.key, e.val) == Some(r)
    ensures IsBuffer(r) && |r| == size && BType(r) == LEAF && Holds(r, es[..index] + [e] + es[index..])
  {
    HoldsCount(leaf, es);
    var d0 := FreshStart(size, LEAF, NKeys(leaf) + 1);
    var d1, d2;
    d1, d2, r := Spliced(leaf, es, d0, index, e, 0);
    LeafInsertIs(leaf, Zeros(size), index, e.key, e.val, d0, d1, d2);
  }

  /** The header and the copy of the entries before index leave the regions after slot index zero. */
  lemma {:induction false} LeafUpdateHead(leaf: seq<byte>, size: nat, es: seq<Entry>, index: nat, d0: seq<byte>, at: nat)
    requires IsBuffer(leaf) && Holds(leaf, es) && index < |es| && |es| + 1 < U16_LIMIT
    requires HEADER <= size <= 2 * PAGE_SIZE && HEADER + 10 * (|es| + 1) + Span(es[..index]) <= at <= size
    requires d0 == SetHeader(Zeros(size), LEAF, |es| + 1) && IsBuffer(d0) && NKeys(d0) == |es| + 1 && Ready(d0, [])
    ensures AppendRange(leaf, d0, 0, 0, index).Some?
    ensures Blank(AppendRange(leaf, d0, 0, 0, index).value, |es| + 1, index + 1, index + 2, at)
  {
    Seqs.FromStart(es, index);
    FreshBlank(size, LEAF, |es| + 1, index + 1, index + 2, at);
    RangeStepBlank(leaf, d0, es, [], 0, 0, index, es[..index], index + 1, index + 2, at);
  }

  /**
    leaf_update into a fresh buffer builds the entries before index and the
    new entry, and its writes stay below the next slot: the pointer slots
    after index, the offset slots after index+1 and the bytes past the new
    entry keep the zeros of the scratch buffer.
  */
  lemma {:induction false} LeafUpdateBuilt(leaf: seq<byte>, size: nat, es: seq<Entry>, index: nat, e: Entry, at: nat)
    returns (r: seq<byte>)
    requires IsBuffer(leaf) && Holds(leaf, es) && index < |es| && e.ptr == 0
    requires HEADER <= size <= 2 * PAGE_SIZE && |es| + 1 < U16_LIMIT
    requires at == HEADER + 10 * (|es| + 1) + Span(es[..index] + [e]) <= size
    ensures LeafUpdate(leaf, Zeros(size), index, e.key, e.val) == Some(r)
    ensures IsBuffer(r) && |r| == size && BType(r) == LEAF && NKeys(r) == |es| + 1
    ensures Ready(r, es[..index] + [e]) && Blank(r, |es| + 1, index + 1, index + 2, at)
  {
    HoldsCount(leaf, es);
    Seqs.FromStart(es, index);
    var d0 := FreshStart(size, LEAF, NKeys(leaf) + 1);
    SpanSnoc(es[..index], e);
    LeafUpdateHead(leaf, size, es, index, d0, at);
    var d1 := RangeStep(leaf, d0, es, [], 0, 0, index, es[..index]);
    AppendKVReady(d1, es[..index], e);
    r := AppendKV(d1, 0, index, e.key, e.val).value;
    LeafUpdateIs(leaf, Zeros(size), index, e.key, e.val, d0, d1, r);
    ReadyOpen(d1, es[..index]);
    AppendKVBlank(d1, 0, index, e.key, e.val, at);
  }

  /**
    leaf_update into a fresh buffer, as written: the header claims one slot
    more than leaf has, and only the slots up to index are filled, with the
    entries before index and the new entry. The entries after index are lost:
    the slots after index keep the zeros of the scratch buffer, so their
    pointers read 0, slot index+1 reads an empty key and value, and each slot
    after it reads offset 0 and so the same entry as slot 0.
  */
  lemma {:induction false} LeafUpdateShape(leaf: seq<byte>, size: nat, es: seq<Entry>, index: nat, e: Entry)
    returns (r: seq<byte>)
    requires IsBuffer(leaf) && Holds(leaf, es) && index < |es| && e.ptr == 0
    requires HEADER <= size <= 2 * PAGE_SIZE && |es| + 1 < U16_LIMIT
    requires HEADER + 10 * (|es| + 1) + Span(es[..index] + [e]) <= size
    ensures LeafUpdate(leaf, Zeros(size), index, e.key, e.val) == Some(r)
    ensures IsBuffer(r) && |r| == size && BType(r) == LEAF && NKeys(r) == |es| + 1
    ensures Ready(r, es[..index] + [e])
    ensures forall k :: index < k <= |es| ==> PointerOk(r, k) && GetPointer(r, k) == 0
    ensures HEADER + 10 * (|es| + 1) + Span(es[..index] + [e]) + 4 <= size ==>
              ValueOk(r, index + 1) && GetKey(r, index + 1) == [] && GetValue(r, index + 1) == []
    ensures forall k :: index + 1 < k <= |es| ==>
              ValueOk(r, k) && GetKey(r, k) == (es[..index] + [e])[0].key && GetValue(r, k) == (es[..index] + [e])[0].val
  {
    var at := HEADER + 10 * (|es| + 1) + Span(es[..index] + [e]);
    r := LeafUpdateBuilt(leaf, size, es, index, e, at);
    BlankReads(r, es[..index] + [e], at);
  }

  /** leaf_delete into a fresh buffer: the new leaf holds every entry but the one at index. */
  lemma {:induction false} LeafDeleteShape(leaf: seq<byte>, size: nat, es: seq<Entry>, index: nat)
    returns (r: seq<byte>)
    requires IsBuffer(leaf) && Holds(leaf, es) && index < |es|
    requires HEADER <= size <= 2 * PAGE_SIZE
    requires EncodedSize(es[..index] + es[index + 1..]) <= size
    ensures LeafDelete(Zeros(size), leaf, index) == Some(r)
    ensures IsBuffer(r) && |r| == size && BType(r) == BType(leaf) && Holds(r, es[..index] + es[index + 1..])
  {
    HoldsCount(leaf, es);
    var fs := es[..index] + es[index + 1..];
    var nk := |es|;
    Seqs.FromStart(es, index);
    Seqs.Remove(es, index);
    var d0 := FreshStart(size, BType(leaf), nk - 1);
    SpanUpTo(fs, es[..index], index);
    var d1 := RangeStep(leaf, d0, es, [], 0, 0, index, es[..index]);
    r := RangeStep(leaf, d1, es, es[..index], index, index + 1, nk - index - 1, fs);
    ReadyHolds(r, fs);
    LeafDeleteIs(Zeros(size), leaf, index, d0, d1);
  }

  /** node_merge into a fresh buffer: the new node holds left's entries, then right's. */
  lemma {:induction false} NodeMergeShape(left: seq<byte>, right: seq<byte>, size: nat, ls: seq<Entry>, rs: seq<Entry>)
    returns (r: seq<byte>)
    requires IsBuffer(left) && Holds(left, ls) && IsBuffer(right) && Holds(right, rs)
    requires HEADER <= size <= 2 * PAGE_SIZE && |ls| + |rs| < U16_LIMIT
    requires EncodedSize(ls + rs) <= size
    ensures NodeMerge(left, right, Zeros(size)) == Some(r)
    ensures IsBuffer(r) && |r| == size && BType(r) == BType(left) && Holds(r, ls + rs)
  {
    HoldsCount(left, ls);
    HoldsCount(right, rs);
    Seqs.Concat(ls, rs);
    var d0 := FreshStart(size, BType(left), |ls| + |rs|);
    SpanUpTo(ls + rs, ls, |ls|);
    var d1 := RangeStep(left, d0, ls, [], 0, 0, |ls|, ls);
    r := RangeStep(right, d1, rs, ls, |ls|, 0, |rs|, ls + rs);
    ReadyHolds(r, ls + rs);
    NodeMergeIs(left, right, Zeros(size), d0, d1);
  }

  /**
    node_replace_kid2 into a fresh buffer: the entries at index and index+1
    give way to the one entry (ptr, key) with an empty value.
  */
  lemma {:induction false} ReplaceKid2Shape(node: seq<byte>, size: nat, es: seq<Entry>, index: nat, e: Entry)
    returns (r: seq<byte>)
    requires IsBuffer(node) && Holds(node, es) && index + 2 <= |es| && e.val == []
    requires HEADER <= size <= 2 * PAGE_SIZE
    requires EncodedSize(es[..index] + [e] + es[index + 2..]) <= size
    ensures ReplaceKid2(Zeros(size), node, index, e.ptr, e.key) == Some(r)
    ensures IsBuffer(r) && |r| == size && BType(r) == BType(node) && Holds(r, es[..index] + [e] + es[index + 2..])
  {
    HoldsCount(node, es);
    var d0 := FreshStart(size, BType(node), NKeys(node) - 1);
    var d1, d2;
    d1, d2, r := Spliced(node, es, d0, index, e, 2);
    ReplaceKid2Is(Zeros(size), node, index, e.ptr, e.key, d0, d1, d2);
  }

  /**
    node_split2 into fresh buffers: the left node holds the first nkeys/2
    entries and the right node the rest, both with the type of the node split.
  */
  lemma {:induction false} Split2Shape(node: seq<byte>, es: seq<Entry>, lsize: nat, rsize: nat)
    returns (l: seq<byte>, r: seq<byte>)
    requires IsBuffer(node) && Holds(node, es)
    requires HEADER <= lsize <= 2 * PAGE_SIZE && HEADER <= rsize <= 2 * PAGE_SIZE
    requires EncodedSize(es[..|es| / 2]) <= lsize && EncodedSize(es[|es| / 2..]) <= rsize
    ensures Split2(node, Zeros(lsize), Zeros(rsize)) == Some((l, r))
    ensures IsBuffer(l) && |l| == lsize && BType(l) == BType(node) && Holds(l, es[..|es| / 2])
    ensures IsBuffer(r) && |r| == rsize && BType(r) == BType(node) && Holds(r, es[|es| / 2..])
  {
    HoldsCount(node, es);
    var half := NKeys(node) / 2;
    Seqs.Slice(es, 0, half);
    Seqs.Slice(es, half, |es|);
    var l0, r0;
    l0, l := HalfShape(node, es, lsize, 0, half);
    r0, r := HalfShape(node, es, rsize, half, |es|);
    Split2Is(node, Zeros(lsize), Zeros(rsize), half, l0, r0, l, r);
  }

  /**
    node_split3 of a node holding es whose size() is under a page: one piece,
    the node's first page, which holds es when their encoding fits a page.
  */
  lemma {:induction false} Split3One(node: seq<byte>, es: seq<Entry>)
    requires IsBuffer(node) && Holds(node, es) && 1 <= |es| && PAGE_SIZE <= |node|
    requires EncodedSize(es) - HEADER < PAGE_SIZE
    ensures Split3(node) == Some([node[..PAGE_SIZE]])
    ensures EncodedSize(es) <= PAGE_SIZE ==> BType(node[..PAGE_SIZE]) == BType(node) && Holds(node[..PAGE_SIZE], es)
  {
    SizeOfHolds(node, es);
    if EncodedSize(es) <= PAGE_SIZE {
      HoldsPrefix(node, es, PAGE_SIZE);
    }
  }

  /**
    As size() leaves out the last entry's two length fields, a node whose
    encoding is one to three bytes over a page still comes back as one page,
    and its last value can no longer be read from it.
  */
  lemma {:induction false} Split3Truncates(node: seq<byte>, es: seq<Entry>)
    requires IsBuffer(node) && Holds(node, es) && 1 <= |es| && PAGE_SIZE <= |node|
    requires PAGE_SIZE < EncodedSize(es) < PAGE_SIZE + HEADER
    ensures Split3(node) == Some([node[..PAGE_SIZE]])
    ensures IsBuffer(node[..PAGE_SIZE]) && !ValueOk(node[..PAGE_SIZE], |es| - 1)
  {
    Split3One(node, es);
    var p, last := node[..PAGE_SIZE], |es| - 1;
    HoldsOpen(node, es);
    LaidSlot(node, es, last);
    SlotEnd(node, last, es[last], Span(es[..last]));
    PrefixHeader(node, PAGE_SIZE);
    var q := OffsetPos(NKeys(node), last);
    PrefixSlice(node, PAGE_SIZE, q, q + 2);
    U16Same(p, node, q, q);
    var a := KvPos(node, last);
    assert KvPos(p, last) == a;
    if a + 4 <= PAGE_SIZE {
      PrefixSlice(node, PAGE_SIZE, a, a + 2);
      PrefixSlice(node, PAGE_SIZE, a + 2, a + 4);
      U16Same(p, node, a, a);
      U16Same(p, node, a + 2, a + 2);
    }
  }

  /**
    node_split3 of a node holding es whose size() is a page or more, and whose
    left half's size() is under a page: two pieces, the left half's first page
    and the right half.
  */
  lemma {:induction false} Split3Two(node: seq<byte>, es: seq<Entry>)
    requires IsBuffer(node) && Holds(node, es) && 2 <= |es|
    requires EncodedSize(es) - HEADER >= PAGE_SIZE
    requires EncodedSize(es[..|es| / 2]) - HEADER < PAGE_SIZE && EncodedSize(es[|es| / 2..]) <= PAGE_SIZE
    ensures Split3(node).Some? && |Split3(node).value| == 2
    ensures var pieces := Split3(node).value;
      && BType(pieces[1]) == BType(node) && Holds(pieces[1], es[|es| / 2..])
      && (EncodedSize(es[..|es| / 2]) <= PAGE_SIZE ==> BType(pieces[0]) == BType(node) && Holds(pieces[0], es[..|es| / 2]))
  {
    var h := |es| / 2;
    SizeOfHolds(node, es);
    var l, r := Split2Shape(node, es, 2 * PAGE_SIZE, PAGE_SIZE);
    SizeOfHolds(l, es[..h]);
    assert Split3(node) == Some([l[..PAGE_SIZE], r]);
    if EncodedSize(es[..h]) <= PAGE_SIZE {
      HoldsPrefix(l, es[..h], PAGE_SIZE);
    }
  }

  /**
    node_split3 of a node holding es whose left half's size() is still a
    page or more: three pieces, the two halves of the left half and the right
    half.
  */
  lemma {:induction false} Split3Three(node: seq<byte>, es: seq<Entry>)
    requires IsBuffer(node) && Holds(node, es) && 2 <= |es|
    requires EncodedSize(es[..|es| / 2]) - HEADER >= PAGE_SIZE
    requires EncodedSize(es[..|es| / 2]) <= 2 * PAGE_SIZE && EncodedSize(es[|es| / 2..]) <= PAGE_SIZE
    requires EncodedSize(es[..|es| / 4]) <= PAGE_SIZE && EncodedSize(es[|es| / 4..|es| / 2]) <= PAGE_SIZE
    ensures Split3(node).Some? && |Split3(node).value| == 3
    ensures var pieces := Split3(node).value;
      && BType(pieces[0]) == BType(node) && Holds(pieces[0], es[..|es| / 4])
      && BType(pieces[1]) == BType(node) && Holds(pieces[1], es[|es| / 4..|es| / 2])
      && BType(pieces[2]) == BType(node) && Holds(pieces[2], es[|es| / 2..])
  {
    var h := |es| / 2;
    var ls := es[..h];
    SpanPrefix(es, h);
    SizeOfHolds(node, es);
    var l, r := Split2Shape(node, es, 2 * PAGE_SIZE, PAGE_SIZE);
    SizeOfHolds(l, ls);
    assert |ls| / 2 == |es| / 4;
    assert ls[..|ls| / 2] == es[..|es| / 4] && ls[|ls| / 2..] == es[|es| / 4..h];
    var a, b := Split2Shape(l, ls, PAGE_SIZE, PAGE_SIZE);
    assert Split3(node) == Some([a, b, r]);
  }

  /**
    node_replace_kidN into a fresh buffer: the entry at index gives way to
    one slot per kid, holding the kid's pointer and first key.
  */
  lemma {:induction false} ReplaceKidNShape(node: seq<byte>, size: nat, es: seq<Entry>, index: nat,
                                            kids: seq<seq<byte>>, ptrs: seq<nat>, ns: seq<Entry>)
    returns (r: seq<byte>)
    requires IsBuffer(node) && Holds(node, es) && index < |es|
    requires KidsOk(kids, ptrs) && KidEntries(kids, ptrs, ns) && 1 <= |kids| && |es| + |kids| < U16_LIMIT
    requires HEADER <= size <= 2 * PAGE_SIZE && EncodedSize(es[..index] + ns + es[index + 1..]) <= size
    ensures ReplaceKidN(Zeros(size), index, node, kids, ptrs) == Some(r)
    ensures IsBuffer(r) && |r| == size && BType(r) == NODE && Holds(r, es[..index] + ns + es[index + 1..])
  {
    HoldsCount(node, es);
    var total := SpliceSpan(es, index, ns);
    var d1, d2 := KidsFresh(node, es, size, index, kids, ptrs, ns, total);
    r := KidsTail(node, es, d2, index, ns, |kids|);
    ReplaceKidNIs(size, index, node, kids, ptrs, d1, d2, r);
  }

  /** The entries before index, then the kids' slots, appended to a fresh node of the given size. */
  lemma {:induction false} KidsFresh(node: seq<byte>, es: seq<Entry>, size: nat, index: nat,
                                     kids: seq<seq<byte>>, ptrs: seq<nat>, ns: seq<Entry>, total: nat)
    returns (d1: seq<byte>, d2: seq<byte>)
    requires IsBuffer(node) && Holds(node, es) && NKeys(node) == |es| && index < |es|
    requires KidsOk(kids, ptrs) && KidEntries(kids, ptrs, ns) && 1 <= |kids| && |es| + |kids| < U16_LIMIT
    requires HEADER <= size <= 2 * PAGE_SIZE && HEADER + 10 * (|es| + |kids| - 1) + total <= size
    requires Span(es[..index] + ns) <= total
    ensures IsBuffer(Zeros(size))
    ensures AppendRange(node, SetHeader(Zeros(size), NODE, NKeys(node) + |kids| - 1), 0, 0, index) == Some(d1) && IsBuffer(d1)
    ensures AppendKids(d1, index, kids, ptrs) == Some(d2)
    ensures IsBuffer(d2) && |d2| == size && BType(d2) == NODE && NKeys(d2) == |es| + |kids| - 1 && Ready(d2, es[..index] + ns)
  {
    var d0 := FreshStart(size, NODE, NKeys(node) + |kids| - 1);
    d1, d2 := KidsHead(node, es, d0, index, kids, ptrs, ns, total);
  }

  /** The span of the entries up to the kids' slots is within the span of the whole. */
  lemma {:induction false} SpliceSpan(es: seq<Entry>, index: nat, ns: seq<Entry>) returns (total: nat)
    requires index < |es|
    ensures total == Span(es[..index] + ns + es[index + 1..])
    ensures Span(es[..index] + ns) <= total && |es[..index] + ns + es[index + 1..]| == |es| + |ns| - 1
  {
    Seqs.SpliceN(es, index, ns, 1);
    total := Span(es[..index] + ns + es[index + 1..]);
    SpanUpTo(es[..index] + ns + es[index + 1..], es[..index] + ns, index + |ns|);
  }

  /** The entries after index appended behind the entries before it and the kids' slots. */
  lemma {:induction false} KidsTail(node: seq<byte>, es: seq<Entry>, d2: seq<byte>, index: nat, ns: seq<Entry>, m: nat)
    returns (r: seq<byte>)
    requires IsBuffer(node) && Holds(node, es) && NKeys(node) == |es| && IsBuffer(d2) && index < |es| && m == |ns|
    requires Ready(d2, es[..index] + ns) && NKeys(d2) == |es| + m - 1
    requires EncodedSize(es[..index] + ns + es[index + 1..]) <= |d2|
    ensures AppendRange(node, d2, index + m, index + 1, NKeys(node) - index - 1) == Some(r)
    ensures IsBuffer(r) && |r| == |d2| && BType(r) == BType(d2) && Holds(r, es[..index] + ns + es[index + 1..])
  {
    HoldsCount(node, es);
    var fs := es[..index] + ns + es[index + 1..];
    Seqs.SpliceN(es, index, ns, 1);
    assert |fs| == NKeys(d2);
    r := RangeStep(node, d2, es, es[..index] + ns, index + m, index + 1, |es| - index - 1, fs);
    ReadyHolds(r, fs);
  }

  /** The entries before index, then the kids' slots, appended to a fresh node. */
  lemma {:induction false} KidsHead(node: seq<byte>, es: seq<Entry>, d0: seq<byte>, index: nat,
                                    kids: seq<seq<byte>>, ptrs: seq<nat>, ns: seq<Entry>, total: nat)
    returns (d1: seq<byte>, d2: seq<byte>)
    requires IsBuffer(node) && Holds(node, es) && IsBuffer(d0) && Ready(d0, []) && index <= |es|
    requires KidsOk(kids, ptrs) && KidEntries(kids, ptrs, ns) && index + |kids| <= NKeys(d0)
    requires BlobAt(d0) + total <= |d0| && Span(es[..index] + ns) <= total
    ensures AppendRange(node, d0, 0, 0, index) == Some(d1) && IsBuffer(d1)
    ensures AppendKids(d1, index, kids, ptrs) == Some(d2)
    ensures IsBuffer(d2) && |d2| == |d0| && BType(d2) == BType(d0) && NKeys(d2) == NKeys(d0) && Ready(d2, es[..index] + ns)
  {
    Seqs.FromStart(es, index);
    SpanAppend(es[..index], ns);
    d1 := RangeStep(node, d0, es, [], 0, 0, index, es[..index]);
    d2 := KidsReady(d1, es[..index], index, kids, ptrs, ns);
  }
}
