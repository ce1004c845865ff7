/**
  What the steps of the tree controller do to the entries of the nodes they
  build: node_insert putting a child's pieces back into its parent,
  tree_delete on a leaf, the outcomes of node_delete's rebalance, the new
  root of insert, and insert, delete and search on a tree whose root is a
  leaf.
*/
module TreeShapes {
  import opened Bytes
  import opened Order
  import opened Codec
  import opened Layout
  import opened Builders
  import opened Heap
  import opened Tree
  import opened TreeLemmas

  /** The ids new() hands out one after the other, from first on. */
  function Ids(first: nat, n: nat): (ids: seq<nat>)
    ensures |ids| == n && forall j :: 0 <= j < n ==> ids[j] == first + j
  {
    seq(n, j => first + j)
  }

  /** The slot node_replace_kidN makes for a kid stored under ptr: the id, the kid's first key and an empty value. */
  function KidSlot(kid: seq<byte>, ptr: nat): Entry
    requires IsBuffer(kid) && KeyOk(kid, 0) && ptr < U64_LIMIT
  {
    Slot(ptr, GetKey(kid, 0), [])
  }

  /** The slots node_replace_kidN makes for the kids stored under ptrs. */
  function KidSlots(kids: seq<seq<byte>>, ptrs: seq<nat>): (ns: seq<Entry>)
    requires KidsOk(kids, ptrs) && forall j :: 0 <= j < |kids| ==> KeyOk(kids[j], 0)
    ensures KidEntries(kids, ptrs, ns)
  {
    seq(|kids|, j requires 0 <= j < |kids| => KidSlot(kids[j], ptrs[j]))
  }

  /** The all-zero page reads as a node of type 0 with no keys. */
  lemma {:induction false} ZeroPage()
    ensures BType(Zeros(PAGE_SIZE)) == 0 && NKeys(Zeros(PAGE_SIZE)) == 0
  {
    var z := Zeros(PAGE_SIZE);
    var zz: seq<byte> := [0, 0];
    assert z[0..2] == zz && z[2..4] == zz;
    assert zz[1..][1..] == [];
    U16Open(z, 0);
    U16Open(z, 2);
  }

  // ---------------------------------------------------------------------------
  // Allocation and node_replace_kidN
  // ---------------------------------------------------------------------------

  /**
    With ids to spare, the allocation stores kid j under id s.next + j and
    leaves every id below s.next as it was.
  */
  lemma {:induction false} PlaceIds(s: Store, kids: seq<seq<byte>>)
    requires s.next + |kids| <= U64_LIMIT
    ensures Place(s, kids).Some?
    ensures var (ptrs, s') := Place(s, kids).value;
      && ptrs == Ids(s.next, |kids|) && s'.next == s.next + |kids|
      && (forall j :: 0 <= j < |kids| ==> ptrs[j] in s'.pages && s'.pages[ptrs[j]] == kids[j])
      && (forall id: nat :: id < s.next ==> (id in s'.pages <==> id in s.pages))
      && (forall id: nat :: id < s.next && id in s.pages ==> s'.pages[id] == s.pages[id])
    decreases |kids|
  {
    if kids != [] {
      var k := |kids| - 1;
      PlaceIds(s, kids[..k]);
      var (ps, s1) := Place(s, kids[..k]).value;
      var s2 := New(s1, kids[k]).value.1;
      assert Place(s, kids).value == (ps + [s1.next], s2);
      var ids := ps + [s1.next];
      assert ids == Ids(s.next, |kids|);
      assert s2.pages == s1.pages[s1.next := kids[k]];
      forall j | 0 <= j < |kids|
        ensures ids[j] in s2.pages && s2.pages[ids[j]] == kids[j]
      {
        if j < k {
          assert ids[j] == ps[j] && kids[..k][j] == kids[j];
        }
      }
    }
  }

  /**
    node_replace_kidN with its allocation, into a fresh buffer: the kids are
    stored under the next free ids, and the slot at index gives way to one
    slot per kid with its id and first key.
  */
  lemma {:induction false} ReplaceKidsShape(s: Store, node: seq<byte>, es: seq<Entry>, index: nat, kids: seq<seq<byte>>, size: nat)
    returns (r: seq<byte>, s': Store)
    requires IsBuffer(node) && Holds(node, es) && index < |es|
    requires 1 <= |kids| && |es| + |kids| < U16_LIMIT && s.next + |kids| <= U64_LIMIT
    requires forall j :: 0 <= j < |kids| ==> IsBuffer(kids[j]) && KeyOk(kids[j], 0)
    requires HEADER <= size <= 2 * PAGE_SIZE
    requires EncodedSize(es[..index] + KidSlots(kids, Ids(s.next, |kids|)) + es[index + 1..]) <= size
    ensures ReplaceKids(s, Zeros(size), index, node, kids) == Some((r, s'))
    ensures IsBuffer(r) && |r| == size && BType(r) == NODE
    ensures Holds(r, es[..index] + KidSlots(kids, Ids(s.next, |kids|)) + es[index + 1..])
    ensures s'.next == s.next + |kids| && forall j :: 0 <= j < |kids| ==> Get(s', Ids(s.next, |kids|)[j]) == Some(kids[j])
    ensures forall id: nat :: id < s.next ==> Get(s', id) == Get(s, id)
  {
    PlaceIds(s, kids);
    var ptrs := Ids(s.next, |kids|);
    s' := Place(s, kids).value.1;
    assert Place(s, kids) == Some((ptrs, s'));
    r := ReplaceKidNShape(node, size, es, index, kids, ptrs, KidSlots(kids, ptrs));
    assert ReplaceKids(s, Zeros(size), index, node, kids) == Some((r, s'));
    forall j | 0 <= j < |kids|
      ensures Get(s', ptrs[j]) == Some(kids[j])
    {
      assert ptrs[j] in s'.pages && s'.pages[ptrs[j]] == kids[j] && IsBuffer(kids[j]);
    }
  }

  // ---------------------------------------------------------------------------
  // node_insert
  // ---------------------------------------------------------------------------

  /** node_insert, once the child has taken the key and been cut: its pieces replace its slot. */
  lemma {:induction false} NodeInsertIs(s: Store, node: seq<byte>, into: seq<byte>, index: nat, key: seq<byte>, val: seq<byte>,
                                        fuel: nat, ptr: nat, kid: seq<byte>, knode: seq<byte>, s1: Store, pieces: seq<seq<byte>>)
    requires Valid(s) && IsBuffer(node) && IsBuffer(into) && 1 <= fuel && PointerOk(node, index) && GetPointer(node, index) == ptr
    requires Get(s, ptr) == Some(kid) && TreeInsert(s, kid, key, val, fuel - 1) == Some((knode, s1))
    requires Split3(knode) == Some(pieces)
    ensures ptr < s1.next
    ensures NodeInsert(s, node, into, index, key, val, fuel) == ReplaceKids(Del(s1, ptr), into, index, node, pieces)
  {
    TreeInsertGrows(s, kid, key, val, fuel - 1);
  }

  /**
    The parent's side of node_insert: with the child's page freed, the pieces
    replace the child's slot, one slot per piece with its fresh id and first
    key, each piece is stored under its id, and the child's page no longer
    reads.
  */
  lemma {:induction false} SwapKid(s1: Store, node: seq<byte>, es: seq<Entry>, index: nat, pieces: seq<seq<byte>>)
    returns (r: seq<byte>, s': Store)
    requires IsBuffer(node) && Holds(node, es) && index < |es| && es[index].ptr < s1.next
    requires 1 <= |pieces| && forall j :: 0 <= j < |pieces| ==> IsBuffer(pieces[j]) && KeyOk(pieces[j], 0)
    requires |es| + |pieces| < U16_LIMIT && s1.next + |pieces| <= U64_LIMIT
    requires EncodedSize(es[..index] + KidSlots(pieces, Ids(s1.next, |pieces|)) + es[index + 1..]) <= 2 * PAGE_SIZE
    ensures ReplaceKids(Del(s1, es[index].ptr), Zeros(2 * PAGE_SIZE), index, node, pieces) == Some((r, s'))
    ensures BType(r) == NODE && Holds(r, es[..index] + KidSlots(pieces, Ids(s1.next, |pieces|)) + es[index + 1..])
    ensures Get(s', es[index].ptr) == None
    ensures forall j :: 0 <= j < |pieces| ==> Get(s', Ids(s1.next, |pieces|)[j]) == Some(pieces[j])
  {
    var ptr := es[index].ptr;
    GetDel(s1, ptr);
    r, s' := ReplaceKidsShape(Del(s1, ptr), node, es, index, pieces, 2 * PAGE_SIZE);
  }

  /**
    node_insert: once the child under slot index has taken the key and been
    cut by node_split3, the result is the parent with that slot replaced by
    the pieces, over the store in which the child's old page is freed; the
    child's id lies below the grown store's next id, so SwapKid applies.
  */
  lemma {:induction false} NodeInsertShape(s: Store, node: seq<byte>, es: seq<Entry>, index: nat, key: seq<byte>, val: seq<byte>,
                                           fuel: nat, kid: seq<byte>, knode: seq<byte>, s1: Store, pieces: seq<seq<byte>>)
    requires Valid(s) && IsBuffer(node) && Holds(node, es) && index < |es| && 1 <= fuel
    requires Get(s, es[index].ptr) == Some(kid) && TreeInsert(s, kid, key, val, fuel - 1) == Some((knode, s1))
    requires Split3(knode) == Some(pieces)
    ensures es[index].ptr < s1.next
    ensures NodeInsert(s, node, Zeros(2 * PAGE_SIZE), index, key, val, fuel)
         == ReplaceKids(Del(s1, es[index].ptr), Zeros(2 * PAGE_SIZE), index, node, pieces)
  {
    HoldsPointer(node, es, index);
    NodeInsertIs(s, node, Zeros(2 * PAGE_SIZE), index, key, val, fuel, es[index].ptr, kid, knode, s1, pieces);
  }

  // ---------------------------------------------------------------------------
  // tree_delete on a leaf
  // ---------------------------------------------------------------------------

  /** tree_delete on a leaf whose slot j, where lookup_key stops, holds key: leaf_delete of slot j. */
  lemma {:induction false} TreeDeleteAt(s: Store, leaf: seq<byte>, key: seq<byte>, fuel: nat, j: nat, d: seq<byte>)
    requires IsBuffer(leaf) && BType(leaf) == LEAF && Lookup(leaf, key) == Some(j)
    requires KeyOk(leaf, j) && GetKey(leaf, j) == key && LeafDelete(Zeros(PAGE_SIZE), leaf, j) == Some(d)
    ensures TreeDelete(s, leaf, key, fuel) == Some((d, s))
  {
  }

  /**
    tree_delete of a key a sorted page-sized leaf holds in slot j (slot 0 when
    its key lies below slot 1's): the new leaf holds every other entry.
  */
  lemma {:induction false} TreeDeleteFound(s: Store, leaf: seq<byte>, es: seq<Entry>, key: seq<byte>, fuel: nat, j: nat)
    returns (r: seq<byte>)
    requires IsBuffer(leaf) && |leaf| == PAGE_SIZE && BType(leaf) == LEAF && Holds(leaf, es) && SortedKeys(es)
    requires j < |es| && es[j].key == key && (j == 0 ==> |es| == 1 || Less(es[0].key, es[1].key))
    ensures TreeDelete(s, leaf, key, fuel) == Some((r, s))
    ensures BType(r) == LEAF && Holds(r, es[..j] + es[j + 1..])
  {
    LookupExact(leaf, es, key, j);
    HoldsOpen(leaf, es);
    LaidReads(leaf, es, j);
    LaidFits(leaf, es);
    DeleteShrinks(es, j);
    r := LeafDeleteShape(leaf, PAGE_SIZE, es, j);
    TreeDeleteAt(s, leaf, key, fuel, j, r);
  }

  /** Without entry j, the entries encode in fewer bytes. */
  lemma {:induction false} DeleteShrinks(es: seq<Entry>, j: nat)
    requires j < |es|
    ensures EncodedSize(es[..j] + es[j + 1..]) < EncodedSize(es)
  {
    var fs := es[..j] + es[j + 1..];
    assert fs[..j] + [es[j]] + fs[j..] == es;
    SpanInsert(fs, j, es[j]);
  }

  /** tree_delete of a key a sorted leaf does not hold: as written, the answer is an all-zero page. */
  lemma {:induction false} TreeDeleteMissing(s: Store, leaf: seq<byte>, es: seq<Entry>, key: seq<byte>, fuel: nat)
    requires IsBuffer(leaf) && BType(leaf) == LEAF && Holds(leaf, es) && SortedKeys(es) && 1 <= |es|
    requires forall j :: 0 <= j < |es| ==> es[j].key != key
    ensures TreeDelete(s, leaf, key, fuel) == Some((Zeros(PAGE_SIZE), s))
  {
    LookupFloor(leaf, es, key);
    HoldsReads(leaf, es);
    var r := Lookup(leaf, key).value;
    assert r < |es| && ValueOk(leaf, r) && GetKey(leaf, r) == es[r].key;
    assert KeyOk(leaf, r) && GetKey(leaf, r) != key;
  }

  // ---------------------------------------------------------------------------
  // node_delete's rebalance
  // ---------------------------------------------------------------------------

  /**
    No merge, with a child that kept a key: the child is stored under the
    next free id and its slot at index now holds that id and its first key.
  */
  lemma {:induction false} RebalanceKeeps(s: Store, node: seq<byte>, es: seq<Entry>, index: nat, updated: seq<byte>)
    returns (r: seq<byte>, s': Store)
    requires IsBuffer(node) && Holds(node, es) && index < |es| && IsBuffer(updated)
    requires ShouldMerge(updated, node, index, s.pages).Some? && ShouldMerge(updated, node, index, s.pages).value.0 == 0
    requires 1 <= NKeys(updated) && KeyOk(updated, 0) && |es| + 1 < U16_LIMIT && s.next < U64_LIMIT
    requires EncodedSize(es[..index] + [Slot(s.next, GetKey(updated, 0), [])] + es[index + 1..]) <= PAGE_SIZE
    ensures Rebalance(s, node, index, updated) == Some((r, s'))
    ensures BType(r) == NODE && Holds(r, es[..index] + [Slot(s.next, GetKey(updated, 0), [])] + es[index + 1..])
    ensures Get(s', s.next) == Some(updated) && forall id: nat :: id < s.next ==> Get(s', id) == Get(s, id)
  {
    assert KidSlots([updated], Ids(s.next, 1)) == [Slot(s.next, GetKey(updated, 0), [])];
    r, s' := ReplaceKidsShape(s, node, es, index, [updated], PAGE_SIZE);
  }

  /**
    A child left without keys makes the rebalance fail: size() of a node with
    no keys underflows in should_merge, before node_delete's own check.
  */
  lemma {:induction false} RebalanceEmpty(s: Store, node: seq<byte>, index: nat, updated: seq<byte>)
    requires IsBuffer(node) && IsBuffer(updated) && NKeys(updated) == 0
    ensures Rebalance(s, node, index, updated).None?
  {
  }

  /**
    node_delete of a key the child leaf under slot index does not hold fails:
    the child comes back as an all-zero page, which has no keys.
  */
  lemma {:induction false} NodeDeleteMissing(s: Store, node: seq<byte>, index: nat, key: seq<byte>, fuel: nat,
                                             leaf: seq<byte>, es: seq<Entry>)
    requires IsBuffer(node) && 1 <= fuel && PointerOk(node, index) && Get(s, GetPointer(node, index)) == Some(leaf)
    requires BType(leaf) == LEAF && Holds(leaf, es) && SortedKeys(es) && 1 <= |es|
    requires forall j :: 0 <= j < |es| ==> es[j].key != key
    ensures NodeDelete(s, node, index, key, fuel).None?
  {
    TreeDeleteMissing(s, leaf, es, key, fuel - 1);
    ZeroPage();
    RebalanceEmpty(Del(s, GetPointer(node, index)), node, index, Zeros(PAGE_SIZE));
  }

  /**
    The left merge: the sibling's entries and the child's, merged, are stored
    under the next free id; the sibling's page is freed, and slots index-1
    and index of the parent give way to one slot with that id and the merged
    node's first key.
  */
  lemma {:induction false} MergeWithLeftShape(s: Store, node: seq<byte>, es: seq<Entry>, index: nat,
                                              updated: seq<byte>, us: seq<Entry>, sibling: seq<byte>, ls: seq<Entry>)
    returns (r: seq<byte>, s': Store, merged: seq<byte>)
    requires Valid(s) && IsBuffer(node) && Holds(node, es) && 1 <= index < |es|
    requires IsBuffer(sibling) && Holds(sibling, ls) && IsBuffer(updated) && Holds(updated, us)
    requires 1 <= |ls| + |us| < U16_LIMIT && EncodedSize(ls + us) <= PAGE_SIZE && s.next < U64_LIMIT
    requires EncodedSize(es[..index - 1] + [Slot(s.next, (ls + us)[0].key, [])] + es[index + 1..]) <= PAGE_SIZE
    ensures MergeWithLeft(s, node, index, updated, sibling) == Some((r, s'))
    ensures BType(r) == BType(node) && Holds(r, es[..index - 1] + [Slot(s.next, (ls + us)[0].key, [])] + es[index + 1..])
    ensures Get(s', s.next) == Some(merged) && BType(merged) == BType(sibling) && Holds(merged, ls + us)
    ensures es[index - 1].ptr in s.pages ==> Get(s', es[index - 1].ptr) == None
  {
    merged := NodeMergeShape(sibling, updated, PAGE_SIZE, ls, us);
    HoldsReads(merged, ls + us);
    HoldsReads(node, es);
    var ptr := es[index - 1].ptr;
    s' := New(Del(s, ptr), merged).value.1;
    r := ReplaceKid2Shape(node, PAGE_SIZE, es, index - 1, Slot(s.next, (ls + us)[0].key, []));
  }

  /**
    The right merge as written: the child's entries and the right sibling's,
    merged, are stored under the next free id and the sibling's page is
    freed, but the slots that give way are index-1 and index, so the left
    neighbour's slot is lost and slot index+1 still names the freed page.
  */
  lemma {:induction false} MergeWithRightShape(s: Store, node: seq<byte>, es: seq<Entry>, index: nat,
                                               updated: seq<byte>, us: seq<Entry>, sibling: seq<byte>, rs: seq<Entry>)
    returns (r: seq<byte>, s': Store, merged: seq<byte>)
    requires Valid(s) && IsBuffer(node) && Holds(node, es) && 1 <= index && index + 1 < |es|
    requires IsBuffer(sibling) && Holds(sibling, rs) && IsBuffer(updated) && Holds(updated, us)
    requires 1 <= |us| + |rs| < U16_LIMIT && EncodedSize(us + rs) <= PAGE_SIZE && s.next < U64_LIMIT
    requires EncodedSize(es[..index - 1] + [Slot(s.next, (us + rs)[0].key, [])] + es[index + 1..]) <= PAGE_SIZE
    ensures MergeWithRight(s, node, index, updated, sibling) == Some((r, s'))
    ensures BType(r) == BType(node) && Holds(r, es[..index - 1] + [Slot(s.next, (us + rs)[0].key, [])] + es[index + 1..])
    ensures Get(s', s.next) == Some(merged) && BType(merged) == BType(updated) && Holds(merged, us + rs)
    ensures es[index + 1].ptr in s.pages ==> Get(s', es[index + 1].ptr) == None
  {
    merged := NodeMergeShape(updated, sibling, PAGE_SIZE, us, rs);
    HoldsReads(merged, us + rs);
    HoldsReads(node, es);
    var ptr := es[index + 1].ptr;
    s' := New(Del(s, ptr), merged).value.1;
    r := ReplaceKid2Shape(node, PAGE_SIZE, es, index - 1, Slot(s.next, (us + rs)[0].key, []));
  }

  /** The right merge of the child in slot 0 fails: as written it would replace slot -1. */
  lemma {:induction false} MergeWithRightAtZero(s: Store, node: seq<byte>, updated: seq<byte>, sibling: seq<byte>)
    requires IsBuffer(node) && IsBuffer(updated) && IsBuffer(sibling)
    ensures MergeWithRight(s, node, 0, updated, sibling).None?
  {
  }

  // ---------------------------------------------------------------------------
  // The new root of insert
  // ---------------------------------------------------------------------------

  /** The kid loop of node_replace_kidN leaves the header's key count alone. */
  lemma {:induction false} KidsKeepCount(d: seq<byte>, at: nat, kids: seq<seq<byte>>, ptrs: seq<nat>)
    requires IsBuffer(d) && KidsOk(kids, ptrs) && AppendKids(d, at, kids, ptrs).Some?
    ensures NKeys(AppendKids(d, at, kids, ptrs).value) == NKeys(d)
    decreases |kids|
  {
    if kids != [] {
      var k := |kids| - 1;
      KidsKeepCount(d, at, kids[..k], ptrs[..k]);
      var d1 := AppendKids(d, at, kids[..k], ptrs[..k]).value;
      AppendKVRoundTrip(d1, ptrs[k], at + k, GetKey(kids[k], 0), []);
    }
  }

  /** Two pieces stored one after the other: each reads back under its id, and the older pages stay. */
  lemma {:induction false} PlaceTwo(s: Store, a: seq<byte>, b: seq<byte>)
    requires IsBuffer(a) && IsBuffer(b) && s.next + 2 <= U64_LIMIT
    ensures Place(s, [a, b]).Some?
    ensures var (ptrs, s1) := Place(s, [a, b]).value;
      && ptrs == Ids(s.next, 2) && s1.next == s.next + 2
      && Get(s1, s.next) == Some(a) && Get(s1, s.next + 1) == Some(b)
      && forall k: nat :: k < s.next ==> Get(s1, k) == Get(s, k)
  {
    PlaceIds(s, [a, b]);
    var ptrs := Place(s, [a, b]).value.0;
    assert ptrs[0] == s.next && ptrs[1] == s.next + 1;
  }

  /** The new root of two pieces, once they are stored and the root is built, is stored next. */
  lemma {:induction false} NewRootIs(s: Store, pieces: seq<seq<byte>>, ptrs: seq<nat>, s1: Store, root: seq<byte>)
    requires |pieces| == 2 && IsBuffer(pieces[0]) && IsBuffer(pieces[1])
    requires Place(s, pieces) == Some((ptrs, s1))
    requires AppendKids(SetHeader(Zeros(PAGE_SIZE), NODE, 2), 0, pieces, ptrs) == Some(root)
    ensures NewRoot(s, pieces) == New(s1, root)
  {
  }

  /**
    A root split in two: both pieces are stored under the next two ids, and
    the new root, stored after them, is an internal node with one slot per
    piece.
  */
  lemma {:induction false} NewRootTwo(s: Store, a: seq<byte>, b: seq<byte>) returns (root: seq<byte>)
    requires IsBuffer(a) && IsBuffer(b) && KeyOk(a, 0) && KeyOk(b, 0) && s.next + 3 <= U64_LIMIT
    requires EncodedSize(KidSlots([a, b], Ids(s.next, 2))) <= PAGE_SIZE
    ensures NewRoot(s, [a, b]).Some?
    ensures var (id, s') := NewRoot(s, [a, b]).value;
      && id == s.next + 2 && Get(s', id) == Some(root)
      && BType(root) == NODE && Holds(root, KidSlots([a, b], Ids(s.next, 2)))
      && Get(s', s.next) == Some(a) && Get(s', s.next + 1) == Some(b)
      && forall k: nat :: k < s.next ==> Get(s', k) == Get(s, k)
  {
    var pieces := [a, b];
    PlaceTwo(s, a, b);
    var (ptrs, s1) := Place(s, pieces).value;
    var ns := KidSlots(pieces, ptrs);
    var d := FreshStart(PAGE_SIZE, NODE, 2);
    assert [] + ns == ns;
    root := KidsReady(d, [], 0, pieces, ptrs, ns);
    ReadyHolds(root, ns);
    NewRootIs(s, pieces, ptrs, s1, root);
    GetNew(s1, root);
  }

  /** A root split in three fails: the new root's header claims two slots, and the third does not fit. */
  lemma {:induction false} NewRootThree(s: Store, pieces: seq<seq<byte>>)
    requires |pieces| == 3 && forall j :: 0 <= j < 3 ==> IsBuffer(pieces[j])
    ensures NewRoot(s, pieces).None?
  {
    var d := SetHeader(Zeros(PAGE_SIZE), NODE, 2);
    HeaderRoundTrip(Zeros(PAGE_SIZE), NODE, 2);
    if Place(s, pieces).Some? {
      var ptrs := Place(s, pieces).value.0;
      var k := 2;
      if AppendKids(d, 0, pieces[..k], ptrs[..k]).Some? {
        KidsKeepCount(d, 0, pieces[..k], ptrs[..k]);
      }
    }
  }

  // ---------------------------------------------------------------------------
  // insert, delete and search on a tree whose root is a leaf
  // ---------------------------------------------------------------------------

  /**
    insert of a new key into a tree whose root is a sorted leaf with room for
    it: the new root, stored under the next free id, is a leaf holding the
    entries with the new one in its sorted place, and the old root is freed.
  */
  lemma {:induction false} InsertIntoLeaf(t: Tree, leaf: seq<byte>, es: seq<Entry>, key: seq<byte>, val: seq<byte>, fuel: nat)
    returns (i: nat, leaf': seq<byte>)
    requires Valid(t.store) && t.root != 0 && Get(t.store, t.root) == Some(leaf) && t.store.next < U64_LIMIT
    requires BType(leaf) == LEAF && Holds(leaf, es) && SortedKeys(es) && 1 <= |es| && es[0].key == []
    requires InsertOk(key, val) && forall j :: 0 <= j < |es| ==> es[j].key != key
    requires |es| + 1 < U16_LIMIT && EncodedSize(es) + 10 + HEADER + |key| + |val| <= PAGE_SIZE
    ensures 1 <= i <= |es|
    ensures Insert(t, key, val, fuel).Some?
    ensures var t' := Insert(t, key, val, fuel).value;
      var fs := es[..i] + [Slot(0, key, val)] + es[i..];
      && t'.root == t.store.next && Get(t'.store, t'.root) == Some(leaf')
      && BType(leaf') == LEAF && Holds(leaf', fs) && SortedKeys(fs) && fs[0].key == []
      && Get(t'.store, t.root) == None
  {
    var e: Entry := Slot(0, key, val);
    i := LeafInsertOrder(t.store, leaf, es, key, val, fuel);
    var (grown, s1) := TreeInsert(t.store, leaf, key, val, fuel).value;
    var fs := es[..i] + [e] + es[i..];
    SpanInsert(es, i, e);
    Split3One(grown, fs);
    leaf' := grown[..PAGE_SIZE];
    GetDel(s1, t.root);
    GetNew(Del(s1, t.root), leaf');
  }

  /** After inserting a new key into such a tree, search finds the key with its value. */
  lemma {:induction false} InsertThenSearch(t: Tree, leaf: seq<byte>, es: seq<Entry>, key: seq<byte>, val: seq<byte>, fuel: nat, fuel': nat)
    requires Valid(t.store) && t.root != 0 && Get(t.store, t.root) == Some(leaf) && t.store.next < U64_LIMIT
    requires BType(leaf) == LEAF && Holds(leaf, es) && SortedKeys(es) && 1 <= |es| && es[0].key == []
    requires InsertOk(key, val) && forall j :: 0 <= j < |es| ==> es[j].key != key
    requires |es| + 1 < U16_LIMIT && EncodedSize(es) + 10 + HEADER + |key| + |val| <= PAGE_SIZE
    ensures Insert(t, key, val, fuel).Some?
    ensures Search(Insert(t, key, val, fuel).value, key, fuel').Some?
    ensures var (found, j, n) := Search(Insert(t, key, val, fuel).value, key, fuel').value;
      found && IsBuffer(n) && ValueOk(n, j) && GetKey(n, j) == key && GetValue(n, j) == val
  {
    var i, leaf' := InsertIntoLeaf(t, leaf, es, key, val, fuel);
    FindsInserted(Insert(t, key, val, fuel).value, leaf', es, i, key, val, fuel');
  }

  /**
    A tree grown by a root split: the root, stored under next + 2, is an
    internal node with one slot per half, naming the leaves stored under next
    and next + 1 with their first keys; those leaves hold ls and rs.
  */
  predicate SplitRoot(t: Tree, next: nat, ls: seq<Entry>, rs: seq<Entry>)
    requires next + 2 < U64_LIMIT && 1 <= |ls| && 1 <= |rs|
  {
    && t.root == next + 2
    && Get(t.store, next + 2).Some? && BType(Get(t.store, next + 2).value) == NODE
    && Holds(Get(t.store, next + 2).value, [Slot(next, ls[0].key, []), Slot(next + 1, rs[0].key, [])])
    && Get(t.store, next).Some? && BType(Get(t.store, next).value) == LEAF && Holds(Get(t.store, next).value, ls)
    && Get(t.store, next + 1).Some? && BType(Get(t.store, next + 1).value) == LEAF && Holds(Get(t.store, next + 1).value, rs)
  }

  /**
    insert of a new key into a tree whose root is a sorted leaf that it
    overflows, where the key belongs at slot i: node_split3 cuts the grown
    leaf in two halves that each fit a page, and the tree becomes a root
    split over them (SplitRoot). The old root is freed and every other page
    is kept.
  */
  lemma {:induction false} InsertSplitsLeaf(t: Tree, leaf: seq<byte>, es: seq<Entry>, key: seq<byte>, val: seq<byte>, fuel: nat, i: nat)
    returns (t': Tree)
    requires Valid(t.store) && t.root != 0 && Get(t.store, t.root) == Some(leaf) && t.store.next + 3 <= U64_LIMIT
    requires BType(leaf) == LEAF && Holds(leaf, es) && SortedKeys(es) && 1 <= |es| && |es| + 1 < U16_LIMIT
    requires InsertOk(key, val) && forall j :: 0 <= j < |es| ==> es[j].key != key && |es[j].key| <= MAX_KEY_SIZE
    requires 1 <= i <= |es| && (forall j :: 1 <= j < i ==> Less(es[j].key, key)) && (forall j :: i <= j < |es| ==> Less(key, es[j].key))
    requires var fs := es[..i] + [Slot(0, key, val)] + es[i..];
      && EncodedSize(fs) - HEADER >= PAGE_SIZE
      && EncodedSize(fs[..|fs| / 2]) <= PAGE_SIZE && EncodedSize(fs[|fs| / 2..]) <= PAGE_SIZE
    ensures Insert(t, key, val, fuel) == Some(t')
    ensures var fs := es[..i] + [Slot(0, key, val)] + es[i..];
      && 1 <= |fs| / 2 < |fs| && SortedKeys(fs) && SplitRoot(t', t.store.next, fs[..|fs| / 2], fs[|fs| / 2..])
      && Get(t'.store, t.root) == None
      && forall k: nat :: k < t.store.next && k != t.root ==> Get(t'.store, k) == Get(t.store, k)
  {
    var e: Entry := Slot(0, key, val);
    var fs := es[..i] + [e] + es[i..];
    var grown := GrowLeaf(t.store, leaf, es, e, fs, fuel, i);
    var a, b := SplitGrown(grown, fs);
    NewRootOverHalves(t.store, t.root, a, b, fs[..|fs| / 2], fs[|fs| / 2..]);
    InsertIs(t, key, val, fuel, leaf, grown, [a, b]);
    var (id, s') := NewRoot(Del(t.store, t.root), [a, b]).value;
    t' := Tree(id, s');
  }

  /**
    The new root over two leaves holding ls and rs, on the store with page
    gone freed: a root split (SplitRoot), with every other page kept.
  */
  lemma {:induction false} NewRootOverHalves(s: Store, gone: nat, a: seq<byte>, b: seq<byte>, ls: seq<Entry>, rs: seq<Entry>)
    requires Valid(s) && gone < s.next && s.next + 3 <= U64_LIMIT
    requires IsBuffer(a) && BType(a) == LEAF && Holds(a, ls) && 1 <= |ls| && |ls[0].key| <= MAX_KEY_SIZE
    requires IsBuffer(b) && BType(b) == LEAF && Holds(b, rs) && 1 <= |rs| && |rs[0].key| <= MAX_KEY_SIZE
    ensures NewRoot(Del(s, gone), [a, b]).Some?
    ensures var (id, s') := NewRoot(Del(s, gone), [a, b]).value;
      && SplitRoot(Tree(id, s'), s.next, ls, rs) && Get(s', gone) == None
      && forall k: nat :: k < s.next && k != gone ==> Get(s', k) == Get(s, k)
  {
    var s2 := Del(s, gone);
    HoldsReads(a, ls);
    HoldsReads(b, rs);
    var ns := [Slot(s.next, ls[0].key, []), Slot(s.next + 1, rs[0].key, [])];
    KidPair(ns);
    assert KidSlots([a, b], Ids(s2.next, 2)) == ns;
    var root := NewRootTwo(s2, a, b);
    GetDel(s, gone);
  }

  /**
    tree_insert of a new entry e (pointer 0, a key no slot holds) into a
    sorted leaf where it belongs at slot i, the halves of the result fitting a
    page each: the store is untouched and the grown leaf holds fs, the
    entries with e at slot i.
  */
  lemma {:induction false} GrowLeaf(s: Store, leaf: seq<byte>, es: seq<Entry>, e: Entry, fs: seq<Entry>, fuel: nat, i: nat)
    returns (grown: seq<byte>)
    requires IsBuffer(leaf) && BType(leaf) == LEAF && Holds(leaf, es) && SortedKeys(es) && 1 <= |es| && |es| + 1 < U16_LIMIT
    requires e.ptr == 0 && InsertOk(e.key, e.val) && forall j :: 0 <= j < |es| ==> es[j].key != e.key && |es[j].key| <= MAX_KEY_SIZE
    requires 1 <= i <= |es| && (forall j :: 1 <= j < i ==> Less(es[j].key, e.key)) && (forall j :: i <= j < |es| ==> Less(e.key, es[j].key))
    requires fs == es[..i] + [e] + es[i..] && EncodedSize(fs[..|fs| / 2]) <= PAGE_SIZE && EncodedSize(fs[|fs| / 2..]) <= PAGE_SIZE
    ensures TreeInsert(s, leaf, e.key, e.val, fuel) == Some((grown, s)) && IsBuffer(grown)
    ensures BType(grown) == LEAF && Holds(grown, fs) && SortedKeys(fs) && forall m :: 0 <= m < |fs| ==> |fs[m].key| <= MAX_KEY_SIZE
  {
    InsertedFits(es, i, e);
    var i' := LeafInsertOrder(s, leaf, es, e.key, e.val, fuel);
    SamePlace(es, e.key, i, i');
    assert Slot(0, e.key, e.val) == e;
    grown := TreeInsert(s, leaf, e.key, e.val, fuel).value.0;
  }

  /**
    An entry e inserted at i: when both halves of the result fit a page, the
    whole fits the scratch buffer; keys of at most MAX_KEY_SIZE bytes stay so.
  */
  lemma {:induction false} InsertedFits(es: seq<Entry>, i: nat, e: Entry)
    requires i <= |es| && |e.key| <= MAX_KEY_SIZE && forall j :: 0 <= j < |es| ==> |es[j].key| <= MAX_KEY_SIZE
    requires var fs := es[..i] + [e] + es[i..];
      EncodedSize(fs[..|fs| / 2]) <= PAGE_SIZE && EncodedSize(fs[|fs| / 2..]) <= PAGE_SIZE
    ensures EncodedSize(es) + 10 + Width(e) <= 2 * PAGE_SIZE
    ensures var fs := es[..i] + [e] + es[i..];
      forall m :: 0 <= m < |fs| ==> |fs[m].key| <= MAX_KEY_SIZE
  {
    var fs := es[..i] + [e] + es[i..];
    var h := |fs| / 2;
    SpanInsert(es, i, e);
    assert fs[..h] + fs[h..] == fs;
    SpanAppend(fs[..h], fs[h..]);
    forall m | 0 <= m < |fs|
      ensures |fs[m].key| <= MAX_KEY_SIZE
    {
      if m < i {
        assert fs[m] == es[m];
      } else if m > i {
        assert fs[m] == es[m - 1];
      }
    }
  }

  /**
    node_split3 of a sorted leaf holding fs whose size() reaches a page and
    whose halves each fit one: two leaves holding the halves.
  */
  lemma {:induction false} SplitGrown(grown: seq<byte>, fs: seq<Entry>) returns (a: seq<byte>, b: seq<byte>)
    requires IsBuffer(grown) && BType(grown) == LEAF && Holds(grown, fs) && 2 <= |fs|
    requires forall m :: 0 <= m < |fs| ==> |fs[m].key| <= MAX_KEY_SIZE
    requires EncodedSize(fs) - HEADER >= PAGE_SIZE
    requires EncodedSize(fs[..|fs| / 2]) <= PAGE_SIZE && EncodedSize(fs[|fs| / 2..]) <= PAGE_SIZE
    ensures Split3(grown) == Some([a, b]) && IsBuffer(a) && IsBuffer(b)
    ensures var h := |fs| / 2;
      && 1 <= h < |fs|
      && BType(a) == LEAF && Holds(a, fs[..h]) && |fs[..h][0].key| <= MAX_KEY_SIZE
      && BType(b) == LEAF && Holds(b, fs[h..]) && |fs[h..][0].key| <= MAX_KEY_SIZE
  {
    var h := |fs| / 2;
    Split3Two(grown, fs);
    a, b := Split3(grown).value[0], Split3(grown).value[1];
    assert Split3(grown).value == [a, b];
    assert fs[..h][0] == fs[0] && fs[h..][0] == fs[h];
  }

  /** insert on a leaf root: tree_insert, node_split3 and the new root over the store with the old root freed. */
  lemma {:induction false} InsertIs(t: Tree, key: seq<byte>, val: seq<byte>, fuel: nat, leaf: seq<byte>, grown: seq<byte>,
                                    pieces: seq<seq<byte>>)
    requires InsertOk(key, val) && t.root != 0 && Get(t.store, t.root) == Some(leaf)
    requires TreeInsert(t.store, leaf, key, val, fuel) == Some((grown, t.store)) && Split3(grown) == Some(pieces)
    requires 1 <= |pieces| < U16_LIMIT && (forall j :: 0 <= j < |pieces| ==> IsBuffer(pieces[j]))
    requires NewRoot(Del(t.store, t.root), pieces).Some?
    ensures Insert(t, key, val, fuel) == Some(Tree(NewRoot(Del(t.store, t.root), pieces).value.0, NewRoot(Del(t.store, t.root), pieces).value.1))
  {
  }

  /** The slot where a key belongs among sorted keys is unique. */
  lemma {:induction false} SamePlace(es: seq<Entry>, key: seq<byte>, i: nat, i': nat)
    requires 1 <= i <= |es| && (forall j :: 1 <= j < i ==> Less(es[j].key, key)) && (forall j :: i <= j < |es| ==> Less(key, es[j].key))
    requires 1 <= i' <= |es| && (forall j :: 1 <= j < i' ==> Less(es[j].key, key)) && (forall j :: i' <= j < |es| ==> Less(key, es[j].key))
    ensures i == i'
  {
    if i < i' {
      LessTransitive(key, es[i].key, key);
      LessIrreflexive(key);
    } else if i' < i {
      LessTransitive(key, es[i'].key, key);
      LessIrreflexive(key);
    }
  }

  /** Two slots of at most MAX_KEY_SIZE-byte keys and empty values fit a page. */
  lemma {:induction false} KidPair(ns: seq<Entry>)
    requires |ns| == 2 && |ns[0].key| <= MAX_KEY_SIZE && |ns[1].key| <= MAX_KEY_SIZE && ns[0].val == [] && ns[1].val == []
    ensures EncodedSize(ns) <= PAGE_SIZE
  {
    assert ns[..1][..0] == [] && ns[..1][0] == ns[0];
    assert Span(ns[..1]) == Width(ns[0]);
    assert ns[..|ns| - 1] == ns[..1];
    assert Span(ns) == Width(ns[0]) + Width(ns[1]);
  }

  /**
    search on a root split over the halves of sorted entries fs: the root's
    lookup_key picks the half that holds slot i, and the leaf's lookup_key
    then finds the key of slot i with its value.
  */
  lemma {:induction false} SearchSplitRoot(t: Tree, next: nat, fs: seq<Entry>, i: nat, fuel: nat)
    requires next + 2 < U64_LIMIT && 2 <= |fs| && SortedKeys(fs) && 1 <= i < |fs|
    requires SplitRoot(t, next, fs[..|fs| / 2], fs[|fs| / 2..])
    ensures Search(t, fs[i].key, fuel).Some?
    ensures var (found, j, n) := Search(t, fs[i].key, fuel).value;
      found && IsBuffer(n) && ValueOk(n, j) && GetKey(n, j) == fs[i].key && GetValue(n, j) == fs[i].val
  {
    var h := |fs| / 2;
    var key := fs[i].key;
    var root := Get(t.store, next + 2).value;
    var rs := [Slot(next, fs[0].key, []), Slot(next + 1, fs[h].key, [])];
    RootPicks(root, rs, fs, i);
    HoldsReads(root, rs);
    if i < h {
      SortedSlice(fs, 0, h);
      assert fs[..h] == fs[0..h] && fs[..h][i] == fs[i];
      LeafFinds(t.store, Get(t.store, next).value, fs[..h], i, fuel);
    } else {
      SortedSlice(fs, h, |fs|);
      assert fs[h..] == fs[h..|fs|] && fs[h..][i - h] == fs[i];
      LeafFinds(t.store, Get(t.store, next + 1).value, fs[h..], i - h, fuel);
    }
  }

  /** The root of a split sends the key of slot i of fs to the half that holds it. */
  lemma {:induction false} RootPicks(root: seq<byte>, rs: seq<Entry>, fs: seq<Entry>, i: nat)
    requires 2 <= |fs| && SortedKeys(fs) && 1 <= i < |fs|
    requires IsBuffer(root) && Holds(root, rs) && |rs| == 2 && rs[0].key == fs[0].key && rs[1].key == fs[|fs| / 2].key
    ensures Lookup(root, fs[i].key) == Some(if i < |fs| / 2 then 0 else 1)
  {
    var h := |fs| / 2;
    var key := fs[i].key;
    LookupFloor(root, rs, key);
    var r := Lookup(root, key).value;
    if i < h && r == 1 {
      LessEqLessTransitive(fs[h].key, key, fs[h].key);
      LessIrreflexive(fs[h].key);
    } else if i >= h && r == 0 {
      if i > h {
        LessTransitive(key, fs[h].key, key);
      }
      LessIrreflexive(key);
    }
  }

  /** The descent reaching a sorted leaf finds the key of its slot j, with its value. */
  lemma {:induction false} LeafFinds(s: Store, leaf: seq<byte>, ks: seq<Entry>, j: nat, fuel: nat)
    requires IsBuffer(leaf) && BType(leaf) == LEAF && Holds(leaf, ks) && SortedKeys(ks) && j < |ks|
    requires j == 0 ==> |ks| == 1 || Less(ks[0].key, ks[1].key)
    ensures Descend(s, leaf, ks[j].key, fuel) == Some((true, j, leaf))
    ensures ValueOk(leaf, j) && GetKey(leaf, j) == ks[j].key && GetValue(leaf, j) == ks[j].val
  {
    LookupExact(leaf, ks, ks[j].key, j);
    HoldsReads(leaf, ks);
  }

  /** The keys of a slice of sorted entries from slot 1 on stay sorted, and so does its slot 0 against them when lo >= 1. */
  lemma {:induction false} SortedSlice(fs: seq<Entry>, lo: nat, hi: nat)
    requires SortedKeys(fs) && lo < hi <= |fs|
    ensures SortedKeys(fs[lo..hi])
    ensures lo >= 1 && hi - lo >= 2 ==> Less(fs[lo..hi][0].key, fs[lo..hi][1].key)
  {
    var gs := fs[lo..hi];
    assert forall j :: 0 <= j < |gs| ==> gs[j] == fs[lo + j];
  }

  /**
    After an insert that splits a leaf root (InsertSplitsLeaf), search finds
    the new key with its value.
  */
  lemma {:induction false} InsertSplitThenSearch(t: Tree, leaf: seq<byte>, es: seq<Entry>, key: seq<byte>, val: seq<byte>,
                                                 fuel: nat, i: nat, fuel': nat)
    requires Valid(t.store) && t.root != 0 && Get(t.store, t.root) == Some(leaf) && t.store.next + 3 <= U64_LIMIT
    requires BType(leaf) == LEAF && Holds(leaf, es) && SortedKeys(es) && 1 <= |es| && |es| + 1 < U16_LIMIT
    requires InsertOk(key, val) && forall j :: 0 <= j < |es| ==> es[j].key != key && |es[j].key| <= MAX_KEY_SIZE
    requires 1 <= i <= |es| && (forall j :: 1 <= j < i ==> Less(es[j].key, key)) && (forall j :: i <= j < |es| ==> Less(key, es[j].key))
    requires var fs := es[..i] + [Slot(0, key, val)] + es[i..];
      && EncodedSize(fs) - HEADER >= PAGE_SIZE
      && EncodedSize(fs[..|fs| / 2]) <= PAGE_SIZE && EncodedSize(fs[|fs| / 2..]) <= PAGE_SIZE
    ensures Insert(t, key, val, fuel).Some?
    ensures Search(Insert(t, key, val, fuel).value, key, fuel').Some?
    ensures var (found, j, n) := Search(Insert(t, key, val, fuel).value, key, fuel').value;
      found && IsBuffer(n) && ValueOk(n, j) && GetKey(n, j) == key && GetValue(n, j) == val
  {
    var e: Entry := Slot(0, key, val);
    var fs := es[..i] + [e] + es[i..];
    var t' := InsertSplitsLeaf(t, leaf, es, key, val, fuel, i);
    assert fs[i] == e;
    SearchSplitRoot(t', t.store.next, fs, i, fuel');
  }

  /** A leaf root that holds key at slot i alone, with val, is where search finds key and val. */
  lemma {:induction false} FindsInserted(t: Tree, leaf: seq<byte>, es: seq<Entry>, i: nat, key: seq<byte>, val: seq<byte>, fuel: nat)
    requires InsertOk(key, val) && i <= |es| && forall j :: 0 <= j < |es| ==> es[j].key != key
    requires Get(t.store, t.root) == Some(leaf) && BType(leaf) == LEAF
    requires var fs := es[..i] + [Slot(0, key, val)] + es[i..];
      Holds(leaf, fs) && SortedKeys(fs) && fs[0].key == []
    ensures Search(t, key, fuel).Some?
    ensures var (found, j, n) := Search(t, key, fuel).value;
      found && IsBuffer(n) && ValueOk(n, j) && GetKey(n, j) == key && GetValue(n, j) == val
  {
    var e: Entry := Slot(0, key, val);
    var fs := es[..i] + [e] + es[i..];
    OnlyAt(es, i, e, fs);
    SearchLeaf(t, leaf, fs, key, fuel);
  }

  /** A key that no entry of es holds, inserted at i, is held by slot i alone. */
  lemma {:induction false} OnlyAt(es: seq<Entry>, i: nat, e: Entry, fs: seq<Entry>)
    requires i <= |es| && fs == es[..i] + [e] + es[i..] && forall j :: 0 <= j < |es| ==> es[j].key != e.key
    ensures i < |fs| && fs[i] == e
    ensures forall m :: 0 <= m < |fs| && fs[m].key == e.key ==> m == i
  {
    forall m | 0 <= m < |fs| && m != i
      ensures fs[m].key != e.key
    {
      if m < i {
        assert fs[m] == es[m];
      } else {
        assert fs[m] == es[m - 1];
      }
    }
  }

  /**
    delete of a key a page-sized sorted leaf root holds: the answer is true
    and the new root, stored under the next free id, holds every other entry.
  */
  lemma {:induction false} DeleteFromLeaf(t: Tree, leaf: seq<byte>, es: seq<Entry>, key: seq<byte>, fuel: nat, j: nat)
    returns (leaf': seq<byte>)
    requires Valid(t.store) && t.root != 0 && Get(t.store, t.root) == Some(leaf) && t.store.next < U64_LIMIT
    requires |leaf| == PAGE_SIZE && BType(leaf) == LEAF && Holds(leaf, es) && SortedKeys(es)
    requires j < |es| && es[j].key == key && (j == 0 ==> |es| == 1 || Less(es[0].key, es[1].key))
    requires 1 <= |key| <= MAX_KEY_SIZE
    ensures Delete(t, key, fuel).Some?
    ensures var (answer, t') := Delete(t, key, fuel).value;
      && answer && t'.root == t.store.next && Get(t'.store, t'.root) == Some(leaf')
      && BType(leaf') == LEAF && Holds(leaf', es[..j] + es[j + 1..]) && Get(t'.store, t.root) == None
  {
    leaf' := TreeDeleteFound(t.store, leaf, es, key, fuel, j);
    GetDel(t.store, t.root);
    GetNew(Del(t.store, t.root), leaf');
  }

  /**
    delete of a key a sorted leaf root does not hold, as written: the answer
    is true and the new root is an all-zero page, so every entry is lost.
  */
  lemma {:induction false} DeleteMissingFromLeaf(t: Tree, leaf: seq<byte>, es: seq<Entry>, key: seq<byte>, fuel: nat)
    requires Valid(t.store) && t.root != 0 && Get(t.store, t.root) == Some(leaf) && t.store.next < U64_LIMIT
    requires BType(leaf) == LEAF && Holds(leaf, es) && SortedKeys(es) && 1 <= |es|
    requires 1 <= |key| <= MAX_KEY_SIZE && forall j :: 0 <= j < |es| ==> es[j].key != key
    ensures Delete(t, key, fuel).Some?
    ensures var (answer, t') := Delete(t, key, fuel).value;
      && answer && t'.root == t.store.next && Get(t'.store, t'.root) == Some(Zeros(PAGE_SIZE))
      && Get(t'.store, t.root) == None
  {
    TreeDeleteMissing(t.store, leaf, es, key, fuel);
    ZeroPage();
    GetDel(t.store, t.root);
    GetNew(Del(t.store, t.root), Zeros(PAGE_SIZE));
  }
}
