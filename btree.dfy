/**
  The BTree of src/B_tree.rs as a class: the root id and the page store are
  fields the methods update in place, as the source updates self.root and
  its global heap. Every method is proved to end where the function of the
  same name in module Tree ends: the same result and the same root and
  store, and a panic (None, or ok false) exactly where that function gives
  None. After a panic the fields are left unspecified.
*/
module Controller {
  import opened Bytes
  import opened Codec
  import opened Builders
  import Heap
  import Tree
  import opened Node

  class BTree {
    var root: nat
    var pages: map<nat, seq<byte>>
    var next: nat

    /** The page store the fields hold. */
    function Stored(): Heap.Store
      reads this
    {
      Heap.Store(pages, next)
    }

    /** The tree the fields hold. */
    function Model(): Tree.Tree
      reads this
    {
      Tree.Tree(root, Stored())
    }

    /** BTree::new: an empty tree over an empty store. */
    constructor ()
      ensures Model() == Tree.Tree(0, Heap.Empty())
    {
      root, pages, next := 0, map[], 1;
    }

    /** new(): stores d under a fresh id. */
    method New(d: seq<byte>) returns (id: nat, ok: bool)
      modifies this
      ensures root == old(root)
      ensures ok == Heap.New(old(Stored()), d).Some?
      ensures ok ==> Heap.New(old(Stored()), d) == Some((id, Stored()))
    {
      if next >= U64_LIMIT {
        return 0, false;
      }
      id := next;
      pages := pages[next := d];
      next := next + 1;
      ok := true;
    }

    /** get(): the page stored under id. */
    method Get(id: nat) returns (r: Option<seq<byte>>)
      ensures r == Heap.Get(Stored(), id)
    {
      if id in pages && IsBuffer(pages[id]) {
        return Some(pages[id]);
      }
      return None;
    }

    /** del(): frees the page stored under id. */
    method Del(id: nat)
      modifies this
      ensures root == old(root) && Stored() == Heap.Del(old(Stored()), id)
    {
      pages := pages - {id};
    }

    /** The allocation loop: new() for each page in turn, collecting the ids. */
    method Place(kids: seq<seq<byte>>) returns (ptrs: seq<nat>, ok: bool)
      modifies this
      ensures root == old(root)
      ensures ok == Tree.Place(old(Stored()), kids).Some?
      ensures ok ==> Tree.Place(old(Stored()), kids) == Some((ptrs, Stored()))
    {
      ptrs := [];
      var i := 0;
      while i < |kids|
        invariant 0 <= i <= |kids| && root == old(root)
        invariant Tree.Place(old(Stored()), kids[..i]) == Some((ptrs, Stored()))
      {
        assert kids[..i + 1][..i] == kids[..i];
        var id, fine := New(kids[i]);
        if !fine {
          PlaceStaysNone(old(Stored()), kids, i + 1);
          return ptrs, false;
        }
        ptrs := ptrs + [id];
        i := i + 1;
      }
      assert kids[..|kids|] == kids;
      ok := true;
    }

    /**
      node_replace_kidN: every kid is stored first and the new node is then
      built from the stored ids; the source interleaves the two, which only
      changes the state a panic leaves behind.
    */
    method ReplaceKids(into: seq<byte>, index: nat, node: seq<byte>, kids: seq<seq<byte>>) returns (r: Option<seq<byte>>)
      requires IsBuffer(node) && IsBuffer(into) && |kids| < U16_LIMIT
      requires forall j :: 0 <= j < |kids| ==> IsBuffer(kids[j])
      modifies this
      ensures root == old(root)
      ensures r.None? <==> Tree.ReplaceKids(old(Stored()), into, index, node, kids).None?
      ensures r.Some? ==> Tree.ReplaceKids(old(Stored()), into, index, node, kids) == Some((r.value, Stored()))
    {
      var ptrs, ok := Place(kids);
      if !ok {
        return None;
      }
      r := ReplaceKidN(into, index, node, kids, ptrs);
    }

    /** tree_insert: the key goes into node's subtree; the result is a double-size buffer. */
    method TreeInsert(node: seq<byte>, key: seq<byte>, val: seq<byte>, fuel: nat) returns (r: Option<seq<byte>>)
      requires IsBuffer(node)
      modifies this
      ensures root == old(root)
      ensures r.None? <==> Tree.TreeInsert(old(Stored()), node, key, val, fuel).None?
      ensures r.Some? ==> Tree.TreeInsert(old(Stored()), node, key, val, fuel) == Some((r.value, Stored()))
      decreases fuel, 1
    {
      var scratch := Zeros(2 * PAGE_SIZE);
      var b := new BNode.Of(node);
      var found := b.LookupKey(key);
      if found.None? {
        return None;
      }
      var index := found.value;
      if BType(node) == LEAF {
        if !KeyOk(node, index) {
          return None;
        }
        if key == GetKey(node, index) {
          r := LeafUpdate(node, scratch, index, key, val);
        } else {
          r := LeafInsert(node, scratch, index + 1, key, val);
        }
      } else if BType(node) == NODE {
        r := NodeInsert(node, scratch, index, key, val, fuel);
      } else {
        r := Some(scratch);
      }
    }

    /** node_insert: the child under slot index takes the key, is freed, split, and its pieces replace the slot. */
    method NodeInsert(node: seq<byte>, into: seq<byte>, index: nat, key: seq<byte>, val: seq<byte>, fuel: nat)
      returns (r: Option<seq<byte>>)
      requires IsBuffer(node) && IsBuffer(into)
      modifies this
      ensures root == old(root)
      ensures r.None? <==> Tree.NodeInsert(old(Stored()), node, into, index, key, val, fuel).None?
      ensures r.Some? ==> Tree.NodeInsert(old(Stored()), node, into, index, key, val, fuel) == Some((r.value, Stored()))
      decreases fuel, 0
    {
      if fuel == 0 || !PointerOk(node, index) {
        return None;
      }
      var kptr := GetPointer(node, index);
      var kid := Get(kptr);
      if kid.None? {
        return None;
      }
      var knode := TreeInsert(kid.value, key, val, fuel - 1);
      if knode.None? {
        return None;
      }
      Del(kptr);
      var pieces := Split3(knode.value);
      if pieces.None? {
        return None;
      }
      r := ReplaceKids(into, index, node, pieces.value);
    }

    /** insert: the tree afterwards is Tree.Insert's, and ok is false exactly where it panics. */
    method Insert(key: seq<byte>, val: seq<byte>, fuel: nat) returns (ok: bool)
      modifies this
      ensures ok == Tree.Insert(old(Model()), key, val, fuel).Some?
      ensures ok ==> Model() == Tree.Insert(old(Model()), key, val, fuel).value
    {
      if !Tree.InsertOk(key, val) {
        return false;
      }
      var id: nat;
      if root == 0 {
        var leaf := new BNode();
        leaf.SetHeader(LEAF, 2);
        ok := leaf.AppendPair(0, 0, [], []);
        if !ok {
          return;
        }
        ok := leaf.AppendPair(0, 1, key, val);
        if !ok {
          return;
        }
        id, ok := New(leaf.data);
        if ok {
          root := id;
        }
        return;
      }
      var node := Get(root);
      if node.None? {
        return false;
      }
      var grown := TreeInsert(node.value, key, val, fuel);
      if grown.None? {
        return false;
      }
      var pieces := Split3(grown.value);
      if pieces.None? {
        return false;
      }
      Del(root);
      id, ok := NewRoot(pieces.value);
      if ok {
        root := id;
      }
    }

    /** The new root of insert: ends with Tree.NewRoot's id and store. */
    method NewRoot(pieces: seq<seq<byte>>) returns (id: nat, ok: bool)
      requires 1 <= |pieces| < U16_LIMIT && forall j :: 0 <= j < |pieces| ==> IsBuffer(pieces[j])
      modifies this
      ensures root == old(root)
      ensures ok == Tree.NewRoot(old(Stored()), pieces).Some?
      ensures ok ==> Tree.NewRoot(old(Stored()), pieces) == Some((id, Stored()))
    {
      if |pieces| > 1 {
        var ptrs;
        ptrs, ok := Place(pieces);
        if !ok {
          return 0, false;
        }
        var top := AppendKids(SetHeader(Zeros(PAGE_SIZE), NODE, 2), 0, pieces, ptrs);
        if top.None? {
          return 0, false;
        }
        id, ok := New(top.value);
      } else {
        id, ok := New(pieces[0]);
      }
    }

    /** tree_delete: the key leaves node's subtree; the result is a page. */
    method TreeDelete(node: seq<byte>, key: seq<byte>, fuel: nat) returns (r: Option<seq<byte>>)
      requires IsBuffer(node)
      modifies this
      ensures root == old(root)
      ensures r.None? <==> Tree.TreeDelete(old(Stored()), node, key, fuel).None?
      ensures r.Some? ==> Tree.TreeDelete(old(Stored()), node, key, fuel) == Some((r.value, Stored()))
      decreases fuel, 1
    {
      var b := new BNode.Of(node);
      var found := b.LookupKey(key);
      if found.None? {
        return None;
      }
      var index := found.value;
      if BType(node) == LEAF {
        if !KeyOk(node, index) {
          return None;
        }
        if key != GetKey(node, index) {
          return Some(Zeros(PAGE_SIZE));
        }
        r := LeafDelete(Zeros(PAGE_SIZE), node, index);
      } else if BType(node) == NODE {
        r := NodeDelete(node, index, key, fuel);
      } else {
        r := Some(Zeros(PAGE_SIZE));
      }
    }

    /** node_delete: the child under slot index loses the key, then merges with a sibling or goes back in place. */
    method NodeDelete(node: seq<byte>, index: nat, key: seq<byte>, fuel: nat) returns (r: Option<seq<byte>>)
      requires IsBuffer(node)
      modifies this
      ensures root == old(root)
      ensures r.None? <==> Tree.NodeDelete(old(Stored()), node, index, key, fuel).None?
      ensures r.Some? ==> Tree.NodeDelete(old(Stored()), node, index, key, fuel) == Some((r.value, Stored()))
      decreases fuel, 0
    {
      if fuel == 0 || !PointerOk(node, index) {
        return None;
      }
      var ptr := GetPointer(node, index);
      var kid := Get(ptr);
      if kid.None? {
        return None;
      }
      var updated := TreeDelete(kid.value, key, fuel - 1);
      if updated.None? {
        return None;
      }
      Del(ptr);
      r := Rebalance(node, index, updated.value);
    }

    /** The rest of node_delete: ends with Tree.Rebalance's page and store. */
    method Rebalance(node: seq<byte>, index: nat, updated: seq<byte>) returns (r: Option<seq<byte>>)
      requires IsBuffer(node) && IsBuffer(updated)
      modifies this
      ensures root == old(root)
      ensures r.None? <==> Tree.Rebalance(old(Stored()), node, index, updated).None?
      ensures r.Some? ==> Tree.Rebalance(old(Stored()), node, index, updated) == Some((r.value, Stored()))
    {
      var merge := ShouldMerge(updated, node, index, pages);
      if merge.None? {
        return None;
      }
      var dir, sibling := merge.value.0, merge.value.1;
      if dir < 0 {
        r := MergeWithLeft(node, index, updated, sibling);
      } else if dir > 0 {
        r := MergeWithRight(node, index, updated, sibling);
      } else if NKeys(updated) == 0 {
        return None;
      } else {
        r := ReplaceKids(Zeros(PAGE_SIZE), index, node, [updated]);
      }
    }

    /** The left merge of node_delete: ends with Tree.MergeWithLeft's page and store. */
    method MergeWithLeft(node: seq<byte>, index: nat, updated: seq<byte>, sibling: seq<byte>) returns (r: Option<seq<byte>>)
      requires IsBuffer(node) && IsBuffer(updated) && IsBuffer(sibling)
      modifies this
      ensures root == old(root)
      ensures r.None? <==> Tree.MergeWithLeft(old(Stored()), node, index, updated, sibling).None?
      ensures r.Some? ==> Tree.MergeWithLeft(old(Stored()), node, index, updated, sibling) == Some((r.value, Stored()))
    {
      var merged := NodeMerge(sibling, updated, Zeros(PAGE_SIZE));
      if merged.None? || index == 0 || !PointerOk(node, index - 1) || !KeyOk(merged.value, 0) {
        return None;
      }
      Del(GetPointer(node, index - 1));
      var p, ok := New(merged.value);
      if !ok {
        return None;
      }
      r := ReplaceKid2(Zeros(PAGE_SIZE), node, index - 1, p, GetKey(merged.value, 0));
    }

    /** The right merge of node_delete: ends with Tree.MergeWithRight's page and store. */
    method MergeWithRight(node: seq<byte>, index: nat, updated: seq<byte>, sibling: seq<byte>) returns (r: Option<seq<byte>>)
      requires IsBuffer(node) && IsBuffer(updated) && IsBuffer(sibling)
      modifies this
      ensures root == old(root)
      ensures r.None? <==> Tree.MergeWithRight(old(Stored()), node, index, updated, sibling).None?
      ensures r.Some? ==> Tree.MergeWithRight(old(Stored()), node, index, updated, sibling) == Some((r.value, Stored()))
    {
      var merged := NodeMerge(updated, sibling, Zeros(PAGE_SIZE));
      if merged.None? || !PointerOk(node, index + 1) || !KeyOk(merged.value, 0) {
        return None;
      }
      Del(GetPointer(node, index + 1));
      var p, ok := New(merged.value);
      if !ok || index == 0 {
        return None;
      }
      r := ReplaceKid2(Zeros(PAGE_SIZE), node, index - 1, p, GetKey(merged.value, 0));
    }

    /** delete: the answer and the tree afterwards are Tree.Delete's; None exactly where it panics. */
    method Delete(key: seq<byte>, fuel: nat) returns (r: Option<bool>)
      modifies this
      ensures r.None? <==> Tree.Delete(old(Model()), key, fuel).None?
      ensures r.Some? ==> Tree.Delete(old(Model()), key, fuel) == Some((r.value, Model()))
    {
      if !(1 <= |key| <= MAX_KEY_SIZE) {
        return None;
      }
      if root == 0 {
        return Some(false);
      }
      var node := Get(root);
      if node.None? {
        return None;
      }
      var updated := TreeDelete(node.value, key, fuel);
      if updated.None? {
        return None;
      }
      var u := updated.value;
      Del(root);
      if BType(u) == NODE && NKeys(u) == 1 {
        if !PointerOk(u, 0) {
          return None;
        }
        root := GetPointer(u, 0);
        return Some(true);
      }
      var id, ok := New(u);
      if !ok {
        return None;
      }
      root := id;
      r := Some(true);
    }

    /** The leaf step of search, with lookup_key run as the loop of BNode. */
    method FindInLeaf(node: seq<byte>, key: seq<byte>) returns (r: Option<(bool, nat, seq<byte>)>)
      requires IsBuffer(node)
      ensures r == Tree.FindInLeaf(node, key)
    {
      var b := new BNode.Of(node);
      var found := b.LookupKey(key);
      if found.None? || !KeyOk(node, found.value) {
        return None;
      }
      r := Some((GetKey(node, found.value) == key, found.value, node));
    }

    /**
      search: from the root, the descent loop follows lookup_key's slot down
      to a leaf; the answer is Tree.Search's.
    */
    method Search(key: seq<byte>, fuel: nat) returns (r: Option<(bool, nat, seq<byte>)>)
      ensures r == Tree.Search(Model(), key, fuel)
    {
      var top := Get(root);
      if top.None? {
        return None;
      }
      var b := new BNode.Of(top.value);
      var found := b.LookupKey(key);
      if found.None? {
        return None;
      }
      if BType(top.value) == LEAF {
        r := FindInLeaf(top.value, key);
        return;
      }
      if BType(top.value) != NODE {
        return Some((false, 0, Zeros(PAGE_SIZE)));
      }
      if !PointerOk(top.value, found.value) {
        return None;
      }
      var child := Get(GetPointer(top.value, found.value));
      if child.None? {
        return None;
      }
      var node, f := child.value, fuel;
      while BType(node) != LEAF
        invariant IsBuffer(node)
        invariant Tree.Descend(Stored(), node, key, f) == Tree.Descend(Stored(), child.value, key, fuel)
        decreases f
      {
        if f == 0 {
          return None;
        }
        var here := new BNode.Of(node);
        var slot := here.LookupKey(key);
        if slot.None? || !PointerOk(node, slot.value) {
          return None;
        }
        var below := Get(GetPointer(node, slot.value));
        if below.None? {
          return None;
        }
        node, f := below.value, f - 1;
      }
      r := FindInLeaf(node, key);
    }
  }

  /** Once new() fails for a prefix of the kids, the whole allocation fails. */
  lemma {:induction false} PlaceStaysNone(s: Heap.Store, kids: seq<seq<byte>>, k: nat)
    requires k <= |kids| && Tree.Place(s, kids[..k]) == None
    ensures Tree.Place(s, kids) == None
    decreases |kids| - k
  {
    if k < |kids| {
      assert kids[..k + 1][..k] == kids[..k];
      PlaceStaysNone(s, kids, k + 1);
    } else {
      assert kids[..k] == kids;
    }
  }
}
