/**
  What the tree controller of module Tree promises: the first insert into
  an empty tree, the page store staying valid under every insert and delete,
  the order of keys in a leaf that takes a new key, the update of a key a
  leaf already holds, and what search answers on a leaf root.
*/
module TreeLemmas {
  import opened Bytes
  import opened Order
  import opened Codec
  import opened Layout
  import opened Append
  import opened Builders
  import opened Heap
  import opened Tree

  // ---------------------------------------------------------------------------
  // The empty tree
  // ---------------------------------------------------------------------------

  /**
    On an empty tree, insert stores one new root: a leaf whose slot 0 holds
    the empty sentinel key and whose slot 1 holds key and val. Delete answers
    false and leaves the tree as it is.
  */
  lemma {:induction false} EmptyTree(t: Tree, key: seq<byte>, val: seq<byte>, fuel: nat)
    requires t.root == 0 && Valid(t.store) && t.store.next < U64_LIMIT && InsertOk(key, val)
    ensures Insert(t, key, val, fuel).Some?
    ensures var t' := Insert(t, key, val, fuel).value;
      && t'.root != 0 && t'.root !in t.store.pages && Valid(t'.store)
      && Get(t'.store, t'.root).Some?
      && var leaf := Get(t'.store, t'.root).value;
         BType(leaf) == LEAF && Holds(leaf, [Slot(0, [], []), Slot(0, key, val)])
    ensures Delete(t, key, fuel) == Some((false, t))
  {
    var e0: Entry := Slot(0, [], []);
    var e1: Entry := Slot(0, key, val);
    FreshReady(PAGE_SIZE, LEAF, 2);
    var d := SetHeader(Zeros(PAGE_SIZE), LEAF, 2);
    AppendKVReady(d, [], e0);
    var d1 := AppendKV(d, 0, 0, [], []).value;
    assert [] + [e0] == [e0];
    AppendKVReady(d1, [e0], e1);
    var d2 := AppendKV(d1, 0, 1, key, val).value;
    assert [e0] + [e1] == [e0, e1];
    ReadyHolds(d2, [e0, e1]);
    assert FirstLeaf(key, val) == Some(d2);
    NewFresh(t.store, d2);
    GetNew(t.store, d2);
  }

  // ---------------------------------------------------------------------------
  // The page store stays valid
  // ---------------------------------------------------------------------------

  /** s2 is a valid store that hands out ids no lower than s1 does. */
  predicate Grows(s1: Store, s2: Store)
  {
    Valid(s2) && s1.next <= s2.next
  }

  /**
    The allocation of the kids stores each one under its own fresh non-zero
    id, in increasing order, and keeps every page already stored.
  */
  lemma {:induction false} PlaceStores(s: Store, kids: seq<seq<byte>>)
    requires Valid(s) && Place(s, kids).Some?
    ensures var (ptrs, s') := Place(s, kids).value;
      && Grows(s, s')
      && (forall id :: id in s.pages ==> id in s'.pages && s'.pages[id] == s.pages[id])
      && (forall j :: 0 <= j < |kids| ==> s.next <= ptrs[j] < s'.next && ptrs[j] in s'.pages && s'.pages[ptrs[j]] == kids[j])
      && (forall i, j :: 0 <= i < j < |kids| ==> ptrs[i] < ptrs[j])
    decreases |kids|
  {
    if kids != [] {
      var k := |kids| - 1;
      PlaceStores(s, kids[..k]);
      var (ps, s1) := Place(s, kids[..k]).value;
      var (id, s2) := New(s1, kids[k]).value;
      NewFresh(s1, kids[k]);
      assert Place(s, kids).value == (ps + [id], s2);
    }
  }

  /** Storing the kids of node_replace_kidN keeps the store valid. */
  lemma {:induction false} ReplaceKidsGrows(s: Store, into: seq<byte>, index: nat, node: seq<byte>, kids: seq<seq<byte>>)
    requires IsBuffer(node) && IsBuffer(into) && |kids| < U16_LIMIT
    requires forall j :: 0 <= j < |kids| ==> IsBuffer(kids[j])
    requires Valid(s) && ReplaceKids(s, into, index, node, kids).Some?
    ensures Grows(s, ReplaceKids(s, into, index, node, kids).value.1)
  {
    PlaceStores(s, kids);
  }

  /** tree_insert keeps the store valid. */
  lemma {:induction false} TreeInsertGrows(s: Store, node: seq<byte>, key: seq<byte>, val: seq<byte>, fuel: nat)
    requires IsBuffer(node) && Valid(s) && TreeInsert(s, node, key, val, fuel).Some?
    ensures Grows(s, TreeInsert(s, node, key, val, fuel).value.1)
    decreases fuel, 1
  {
    var index := Lookup(node, key).value;
    if BType(node) == NODE {
      NodeInsertGrows(s, node, Zeros(2 * PAGE_SIZE), index, key, val, fuel);
    }
  }

  /** node_insert keeps the store valid. */
  lemma {:induction false} NodeInsertGrows(s: Store, node: seq<byte>, into: seq<byte>, index: nat, key: seq<byte>, val: seq<byte>, fuel: nat)
    requires IsBuffer(node) && IsBuffer(into) && Valid(s) && NodeInsert(s, node, into, index, key, val, fuel).Some?
    ensures Grows(s, NodeInsert(s, node, into, index, key, val, fuel).value.1)
    decreases fuel, 0
  {
    var kptr := GetPointer(node, index);
    var kid := Get(s, kptr).value;
    TreeInsertGrows(s, kid, key, val, fuel - 1);
    var (knode, s1) := TreeInsert(s, kid, key, val, fuel - 1).value;
    var pieces := Split3(knode).value;
    GetDel(s1, kptr);
    ReplaceKidsGrows(Del(s1, kptr), into, index, node, pieces);
  }

  /** A successful insert had a key and value within bounds; the store is valid and the root names a stored page. */
  lemma {:induction false} InsertGrows(t: Tree, key: seq<byte>, val: seq<byte>, fuel: nat)
    requires Valid(t.store) && Insert(t, key, val, fuel).Some?
    ensures var t' := Insert(t, key, val, fuel).value;
      InsertOk(key, val) && Grows(t.store, t'.store) && t'.root != 0 && Get(t'.store, t'.root).Some?
  {
    if t.root == 0 {
      var leaf := FirstLeaf(key, val).value;
      NewFresh(t.store, leaf);
      GetNew(t.store, leaf);
    } else {
      var node := Get(t.store, t.root).value;
      TreeInsertGrows(t.store, node, key, val, fuel);
      var (grown, s1) := TreeInsert(t.store, node, key, val, fuel).value;
      var pieces := Split3(grown).value;
      GetDel(s1, t.root);
      NewRootStores(Del(s1, t.root), pieces);
    }
  }

  /** The new root of insert is a fresh stored page, and the store stays valid. */
  lemma {:induction false} NewRootStores(s: Store, pieces: seq<seq<byte>>)
    requires 1 <= |pieces| < U16_LIMIT && forall j :: 0 <= j < |pieces| ==> IsBuffer(pieces[j])
    requires Valid(s) && NewRoot(s, pieces).Some?
    ensures var (id, s') := NewRoot(s, pieces).value;
      Grows(s, s') && id != 0 && id !in s.pages && Get(s', id).Some?
  {
    if |pieces| > 1 {
      PlaceStores(s, pieces);
      var (ptrs, s1) := Place(s, pieces).value;
      var root := AppendKids(SetHeader(Zeros(PAGE_SIZE), NODE, 2), 0, pieces, ptrs).value;
      NewFresh(s1, root);
      GetNew(s1, root);
    } else {
      NewFresh(s, pieces[0]);
      GetNew(s, pieces[0]);
    }
  }

  /** tree_delete keeps the store valid. */
  lemma {:induction false} TreeDeleteGrows(s: Store, node: seq<byte>, key: seq<byte>, fuel: nat)
    requires IsBuffer(node) && Valid(s) && TreeDelete(s, node, key, fuel).Some?
    ensures Grows(s, TreeDelete(s, node, key, fuel).value.1)
    decreases fuel, 1
  {
    var index := Lookup(node, key).value;
    if BType(node) == NODE {
      NodeDeleteGrows(s, node, index, key, fuel);
    }
  }

  /** node_delete keeps the store valid. */
  lemma {:induction false} NodeDeleteGrows(s: Store, node: seq<byte>, index: nat, key: seq<byte>, fuel: nat)
    requires IsBuffer(node) && Valid(s) && NodeDelete(s, node, index, key, fuel).Some?
    ensures Grows(s, NodeDelete(s, node, index, key, fuel).value.1)
    decreases fuel, 0
  {
    var ptr := GetPointer(node, index);
    var kid := Get(s, ptr).value;
    TreeDeleteGrows(s, kid, key, fuel - 1);
    var (updated, s1) := TreeDelete(s, kid, key, fuel - 1).value;
    GetDel(s1, ptr);
    RebalanceGrows(Del(s1, ptr), node, index, updated);
  }

  /** The rest of node_delete keeps the store valid, through every merge direction. */
  lemma {:induction false} RebalanceGrows(s: Store, node: seq<byte>, index: nat, updated: seq<byte>)
    requires IsBuffer(node) && IsBuffer(updated) && Valid(s) && Rebalance(s, node, index, updated).Some?
    ensures Grows(s, Rebalance(s, node, index, updated).value.1)
  {
    var (dir, sibling) := ShouldMerge(updated, node, index, s.pages).value;
    if dir < 0 {
      MergeWithLeftGrows(s, node, index, updated, sibling);
    } else if dir > 0 {
      MergeWithRightGrows(s, node, index, updated, sibling);
    } else {
      ReplaceKidsGrows(s, Zeros(PAGE_SIZE), index, node, [updated]);
    }
  }

  /** The left merge keeps the store valid. */
  lemma {:induction false} MergeWithLeftGrows(s: Store, node: seq<byte>, index: nat, updated: seq<byte>, sibling: seq<byte>)
    requires IsBuffer(node) && IsBuffer(updated) && IsBuffer(sibling)
    requires Valid(s) && MergeWithLeft(s, node, index, updated, sibling).Some?
    ensures Grows(s, MergeWithLeft(s, node, index, updated, sibling).value.1)
  {
    var merged := NodeMerge(sibling, updated, Zeros(PAGE_SIZE)).value;
    GetDel(s, GetPointer(node, index - 1));
    NewFresh(Del(s, GetPointer(node, index - 1)), merged);
  }

  /** The right merge keeps the store valid. */
  lemma {:induction false} MergeWithRightGrows(s: Store, node: seq<byte>, index: nat, updated: seq<byte>, sibling: seq<byte>)
    requires IsBuffer(node) && IsBuffer(updated) && IsBuffer(sibling)
    requires Valid(s) && MergeWithRight(s, node, index, updated, sibling).Some?
    ensures Grows(s, MergeWithRight(s, node, index, updated, sibling).value.1)
  {
    var merged := NodeMerge(updated, sibling, Zeros(PAGE_SIZE)).value;
    GetDel(s, GetPointer(node, index + 1));
    NewFresh(Del(s, GetPointer(node, index + 1)), merged);
  }

  /**
    A successful delete had a key within bounds; the store is valid, and the answer is true
    exactly when the tree was not empty (whether or not it held the key).
  */
  lemma {:induction false} DeleteGrows(t: Tree, key: seq<byte>, fuel: nat)
    requires Valid(t.store) && Delete(t, key, fuel).Some?
    ensures var (answer, t') := Delete(t, key, fuel).value;
      1 <= |key| <= MAX_KEY_SIZE && Grows(t.store, t'.store) && (answer <==> t.root != 0)
  {
    if t.root != 0 {
      var node := Get(t.store, t.root).value;
      TreeDeleteGrows(t.store, node, key, fuel);
      var (updated, s1) := TreeDelete(t.store, node, key, fuel).value;
      GetDel(s1, t.root);
      if !(BType(updated) == NODE && NKeys(updated) == 1) {
        NewFresh(Del(s1, t.root), updated);
      }
    }
  }

  // ---------------------------------------------------------------------------
  // Keys in a leaf
  // ---------------------------------------------------------------------------

  /** A key placed after the keys below it and before the keys above it keeps the keys sorted. */
  lemma {:induction false} SortedInsert(es: seq<Entry>, i: nat, e: Entry)
    requires SortedKeys(es) && 1 <= i <= |es| && e.key != []
    requires i >= 2 ==> Less(es[i - 1].key, e.key)
    requires forall j :: i <= j < |es| ==> Less(e.key, es[j].key)
    ensures SortedKeys(es[..i] + [e] + es[i..])
  {
    var fs := es[..i] + [e] + es[i..];
    assert forall j :: 0 <= j < i ==> fs[j] == es[j];
    assert fs[i] == e;
    assert forall j :: i < j < |fs| ==> fs[j] == es[j - 1];
    forall a, b | 1 <= a < b < |fs|
      ensures Less(fs[a].key, fs[b].key)
    {
      if b == i && a < i - 1 {
        LessTransitive(es[a].key, es[i - 1].key, e.key);
      }
    }
  }

  /**
    On a sorted node, lookup_key finds the slot that holds key exactly: any
    slot from 1 on, and slot 0 when its key lies below slot 1's, as the
    smallest key of every leaf but the leftmost does.
  */
  lemma {:induction false} LookupExact(d: seq<byte>, es: seq<Entry>, key: seq<byte>, j: nat)
    requires IsBuffer(d) && Holds(d, es) && SortedKeys(es) && j < |es| && es[j].key == key
    requires j == 0 ==> |es| == 1 || Less(es[0].key, es[1].key)
    ensures Lookup(d, key) == Some(j)
  {
    LookupFloor(d, es, key);
    var r := Lookup(d, key).value;
    if r < j {
      LessIrreflexive(key);
    } else if r > j && j >= 1 {
      LessEqLessTransitive(es[r].key, key, es[r].key);
      LessIrreflexive(es[r].key);
    } else if r > j {
      LessEqLessTransitive(es[r].key, key, es[1].key);
      if r > 1 {
        LessTransitive(es[r].key, es[1].key, es[r].key);
      }
      LessIrreflexive(es[r].key);
    }
  }

  /** The blob grows by one entry when e joins es anywhere. */
  lemma {:induction false} SpanInsert(es: seq<Entry>, i: nat, e: Entry)
    requires i <= |es|
    ensures EncodedSize(es[..i] + [e] + es[i..]) == EncodedSize(es) + 10 + Width(e)
  {
    SpanAppend(es[..i] + [e], es[i..]);
    SpanAppend(es[..i], [e]);
    assert [e][..0] == [];
    SpanSplit(es, i, |es|);
    assert es[..|es|] == es;
  }

  /**
    tree_insert of a key a sorted leaf does not hold: the new entry (pointer
    0, key, val) goes in right after the last smaller key, every old entry is
    kept in order around it, the keys stay sorted and the store is untouched.
  */
  lemma {:induction false} LeafInsertOrder(s: Store, leaf: seq<byte>, es: seq<Entry>, key: seq<byte>, val: seq<byte>, fuel: nat)
    returns (i: nat)
    requires IsBuffer(leaf) && BType(leaf) == LEAF && Holds(leaf, es) && SortedKeys(es)
    requires 1 <= |es| && InsertOk(key, val)
    requires forall j :: 0 <= j < |es| ==> es[j].key != key
    requires |es| + 1 < U16_LIMIT && EncodedSize(es) + 10 + HEADER + |key| + |val| <= 2 * PAGE_SIZE
    ensures 1 <= i <= |es|
    ensures (forall j :: 1 <= j < i ==> Less(es[j].key, key)) && (forall j :: i <= j < |es| ==> Less(key, es[j].key))
    ensures TreeInsert(s, leaf, key, val, fuel).Some?
    ensures var (r, s') := TreeInsert(s, leaf, key, val, fuel).value;
      var fs := es[..i] + [Slot(0, key, val)] + es[i..];
      && s' == s && BType(r) == LEAF && Holds(r, fs) && SortedKeys(fs)
  {
    var e: Entry := Slot(0, key, val);
    var r := FloorOf(leaf, es, key);
    i := r + 1;
    SortedInsert(es, i, e);
    SpanInsert(es, i, e);
    var d := LeafInsertShape(leaf, 2 * PAGE_SIZE, es, i, e);
    InsertAtLeaf(s, leaf, key, val, fuel, r, d);
  }

  /**
    Where lookup_key stops in a sorted leaf that does not hold key: every key
    from slot 1 up to it is smaller, every key after it larger.
  */
  lemma {:induction false} FloorOf(leaf: seq<byte>, es: seq<Entry>, key: seq<byte>) returns (r: nat)
    requires IsBuffer(leaf) && Holds(leaf, es) && SortedKeys(es) && 1 <= |es|
    requires forall j :: 0 <= j < |es| ==> es[j].key != key
    ensures Lookup(leaf, key) == Some(r) && r < |es| && KeyOk(leaf, r) && GetKey(leaf, r) != key
    ensures (forall j :: 1 <= j <= r ==> Less(es[j].key, key)) && (forall j :: r < j < |es| ==> Less(key, es[j].key))
  {
    LookupFloor(leaf, es, key);
    r := Lookup(leaf, key).value;
    HoldsReads(leaf, es);
    assert ValueOk(leaf, r) && GetKey(leaf, r) == es[r].key;
    forall j | 1 <= j <= r
      ensures Less(es[j].key, key)
    {
      if j < r {
        LessEqLessTransitive(es[j].key, es[r].key, key);
      }
    }
  }

  /** tree_insert on a leaf whose slot r, where lookup_key stops, holds another key: leaf_insert at r + 1. */
  lemma {:induction false} InsertAtLeaf(s: Store, leaf: seq<byte>, key: seq<byte>, val: seq<byte>, fuel: nat, r: nat, d: seq<byte>)
    requires IsBuffer(leaf) && BType(leaf) == LEAF && Lookup(leaf, key) == Some(r)
    requires KeyOk(leaf, r) && GetKey(leaf, r) != key
    requires LeafInsert(leaf, Zeros(2 * PAGE_SIZE), r + 1, key, val) == Some(d)
    ensures TreeInsert(s, leaf, key, val, fuel) == Some((d, s))
  {
  }

  /**
    tree_insert of a key a sorted page-sized leaf holds in slot j, as
    leaf_update is written: slot j takes the new value and the header counts
    one slot more than the leaf had, but the entries after j are lost. Their
    slots keep the zeros of the scratch buffer: slot j+1 reads an empty key
    and value, and each later slot reads the key and value of slot 0 (the
    new value when j is 0). Slot 0 counts when its key lies below slot 1's.
  */
  lemma {:induction false} LeafUpdateAsWritten(s: Store, leaf: seq<byte>, es: seq<Entry>, key: seq<byte>, val: seq<byte>, fuel: nat, j: nat)
    requires IsBuffer(leaf) && |leaf| == PAGE_SIZE && BType(leaf) == LEAF && Holds(leaf, es) && SortedKeys(es)
    requires j < |es| && es[j].key == key && InsertOk(key, val)
    requires j == 0 ==> |es| == 1 || Less(es[0].key, es[1].key)
    ensures TreeInsert(s, leaf, key, val, fuel).Some?
    ensures var (r, s') := TreeInsert(s, leaf, key, val, fuel).value;
      && s' == s && BType(r) == LEAF && NKeys(r) == |es| + 1
      && Ready(r, es[..j] + [Slot(0, key, val)])
      && (forall k :: j < k <= |es| ==> PointerOk(r, k) && GetPointer(r, k) == 0)
      && ValueOk(r, j + 1) && GetKey(r, j + 1) == [] && GetValue(r, j + 1) == []
      && (forall k :: j + 1 < k <= |es| ==>
            ValueOk(r, k) && GetKey(r, k) == es[0].key && GetValue(r, k) == (if j == 0 then val else es[0].val))
  {
    var e: Entry := Slot(0, key, val);
    LookupExact(leaf, es, key, j);
    HoldsReads(leaf, es);
    HoldsOpen(leaf, es);
    LaidFits(leaf, es);
    SpanSnoc(es[..j], e);
    SpanPrefix(es, j);
    var d := LeafUpdateShape(leaf, 2 * PAGE_SIZE, es, j, e);
    if j == 0 {
      assert (es[..j] + [e])[0] == e;
    } else {
      assert (es[..j] + [e])[0] == es[0];
    }
  }

  // ---------------------------------------------------------------------------
  // Search
  // ---------------------------------------------------------------------------

  /**
    search on a tree whose root is a sorted leaf with the empty sentinel key
    in slot 0: it answers found exactly when some slot holds key, and then the
    slot it names holds key and its value.
  */
  lemma {:induction false} SearchLeaf(t: Tree, leaf: seq<byte>, es: seq<Entry>, key: seq<byte>, fuel: nat)
    requires Get(t.store, t.root) == Some(leaf) && BType(leaf) == LEAF
    requires Holds(leaf, es) && SortedKeys(es) && 1 <= |es| && es[0].key == []
    ensures Search(t, key, fuel).Some?
    ensures var (found, i, n) := Search(t, key, fuel).value;
      && n == leaf && i < |es|
      && (found <==> exists j :: 0 <= j < |es| && es[j].key == key)
      && (found ==> es[i].key == key && ValueOk(leaf, i) && GetKey(leaf, i) == key && GetValue(leaf, i) == es[i].val)
  {
    LookupFloor(leaf, es, key);
    HoldsReads(leaf, es);
    var r := Lookup(leaf, key).value;
    if key == [] {
    } else if j :| 0 <= j < |es| && es[j].key == key {
      LookupExact(leaf, es, key, j);
    }
  }

  /** search for the empty key on such a leaf reports the sentinel in slot 0 as found. */
  lemma {:induction false} SearchSentinel(t: Tree, leaf: seq<byte>, es: seq<Entry>, fuel: nat)
    requires Get(t.store, t.root) == Some(leaf) && BType(leaf) == LEAF
    requires Holds(leaf, es) && SortedKeys(es) && 1 <= |es| && es[0].key == []
    ensures Search(t, [], fuel) == Some((true, 0, leaf))
  {
    SearchLeaf(t, leaf, es, [], fuel);
  }
}
