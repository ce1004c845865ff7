/**
  The tree controller of src/B_tree.rs (the methods of BTree) as functions
  over the root id and the page store. Each returns None where the source
  panics: an assert!, a u16 overflow or underflow, a slice past a buffer,
  or a get() of an id that names no page.

  The recursion of tree_insert and node_insert (and of tree_delete and
  node_delete) follows child pointers, which the source does not bound; here
  it carries a fuel parameter and gives None when the fuel runs out. The
  descent loop of search carries the same fuel.
*/
module Tree {
  import opened Bytes
  import opened Order
  import opened Codec
  import opened Layout
  import opened Builders
  import opened Heap

  /** The tree: the root id, 0 while the tree is empty, and the page store. */
  datatype Tree = Tree(root: nat, store: Store)

  /** The allocation of node_replace_kidN's loop and of the root split: new() for each page in turn. */
  function Place(s: Store, kids: seq<seq<byte>>): (r: Option<(seq<nat>, Store)>)
    ensures r.Some? ==> |r.value.0| == |kids| && forall j :: 0 <= j < |kids| ==> r.value.0[j] < U64_LIMIT
    decreases |kids|
  {
    if kids == [] then Some(([], s))
    else
      match Place(s, kids[..|kids| - 1])
      case None => None
      case Some((ps, s1)) =>
        match New(s1, kids[|kids| - 1])
        case None => None
        case Some((id, s2)) => Some((ps + [id], s2))
  }

  /**
    node_replace_kidN with its allocation: each kid is stored by new() and
    the slot at index gives way to one slot per kid.
  */
  function ReplaceKids(s: Store, into: seq<byte>, index: nat, node: seq<byte>, kids: seq<seq<byte>>): (r: Option<(seq<byte>, Store)>)
    requires IsBuffer(node) && IsBuffer(into) && |kids| < U16_LIMIT
    requires forall j :: 0 <= j < |kids| ==> IsBuffer(kids[j])
    ensures r.Some? ==> IsBuffer(r.value.0) && |r.value.0| == |into|
  {
    match Place(s, kids)
    case None => None
    case Some((ptrs, s1)) =>
      match ReplaceKidN(into, index, node, kids, ptrs)
      case None => None
      case Some(d) => Some((d, s1))
  }

  /**
    tree_insert(node, key, val): into a scratch double-size buffer, after
    lookup_key; a leaf whose slot holds key gets leaf_update, any other leaf
    leaf_insert one slot further on, an internal node node_insert, and a node
    of another type leaves the buffer zeroed.
  */
  function TreeInsert(s: Store, node: seq<byte>, key: seq<byte>, val: seq<byte>, fuel: nat): (r: Option<(seq<byte>, Store)>)
    requires IsBuffer(node)
    ensures r.Some? ==> IsBuffer(r.value.0) && |r.value.0| == 2 * PAGE_SIZE
    decreases fuel, 1
  {
    var scratch := Zeros(2 * PAGE_SIZE);
    match Lookup(node, key)
    case None => None
    case Some(index) =>
      if BType(node) == LEAF then
        if !KeyOk(node, index) then None
        else if key == GetKey(node, index) then
          match LeafUpdate(node, scratch, index, key, val)
          case None => None
          case Some(d) => Some((d, s))
        else
          match LeafInsert(node, scratch, index + 1, key, val)
          case None => None
          case Some(d) => Some((d, s))
      else if BType(node) == NODE then NodeInsert(s, node, scratch, index, key, val, fuel)
      else Some((scratch, s))
  }

  /**
    node_insert(node, into, index, key, val): the child under slot index takes
    the key by tree_insert, its old page is freed, the result is cut by
    node_split3 and the pieces replace the slot.
  */
  function NodeInsert(s: Store, node: seq<byte>, into: seq<byte>, index: nat, key: seq<byte>, val: seq<byte>, fuel: nat)
    : (r: Option<(seq<byte>, Store)>)
    requires IsBuffer(node) && IsBuffer(into)
    ensures r.Some? ==> IsBuffer(r.value.0) && |r.value.0| == |into|
    decreases fuel, 0
  {
    if fuel == 0 || !PointerOk(node, index) then None
    else
      var kptr := GetPointer(node, index);
      match Get(s, kptr)
      case None => None
      case Some(kid) =>
        match TreeInsert(s, kid, key, val, fuel - 1)
        case None => None
        case Some((knode, s1)) =>
          match Split3(knode)
          case None => None
          case Some(pieces) => ReplaceKids(Del(s1, kptr), into, index, node, pieces)
  }

  /** A key insert accepts: 1 to 1000 bytes, with a value of at most 3000 bytes. */
  predicate InsertOk(key: seq<byte>, val: seq<byte>)
  {
    1 <= |key| <= MAX_KEY_SIZE && |val| <= MAX_VAL_SIZE
  }

  /** The first root: a leaf holding the empty sentinel key and then key. */
  function FirstLeaf(key: seq<byte>, val: seq<byte>): (r: Option<seq<byte>>)
    ensures r.Some? ==> IsBuffer(r.value) && |r.value| == PAGE_SIZE
  {
    match AppendKV(SetHeader(Zeros(PAGE_SIZE), LEAF, 2), 0, 0, [], [])
    case None => None
    case Some(d) => AppendKV(d, 0, 1, key, val)
  }

  /**
    insert(key, val): the key and value bounds are asserted; an empty tree
    gets its first leaf; otherwise the root takes the key by tree_insert, is
    cut by node_split3 and freed, and the pieces make the new root (NewRoot).
  */
  function Insert(t: Tree, key: seq<byte>, val: seq<byte>, fuel: nat): Option<Tree>
  {
    if !InsertOk(key, val) then None
    else if t.root == 0 then
      match FirstLeaf(key, val)
      case None => None
      case Some(leaf) =>
        match New(t.store, leaf)
        case None => None
        case Some((id, s)) => Some(Tree(id, s))
    else
      match Get(t.store, t.root)
      case None => None
      case Some(node) =>
        match TreeInsert(t.store, node, key, val, fuel)
        case None => None
        case Some((grown, s1)) =>
          match Split3(grown)
          case None => None
          case Some(pieces) =>
            match NewRoot(Del(s1, t.root), pieces)
            case None => None
            case Some((id, s2)) => Some(Tree(id, s2))
  }

  /**
    The new root of insert: one piece is stored as it is; more pieces are
    stored and go under a new internal root whose header claims two slots.
  */
  function NewRoot(s: Store, pieces: seq<seq<byte>>): (r: Option<(nat, Store)>)
    requires 1 <= |pieces| < U16_LIMIT && forall j :: 0 <= j < |pieces| ==> IsBuffer(pieces[j])
    ensures r.Some? ==> r.value.0 < U64_LIMIT
  {
    if |pieces| > 1 then
      match Place(s, pieces)
      case None => None
      case Some((ptrs, s1)) =>
        match AppendKids(SetHeader(Zeros(PAGE_SIZE), NODE, 2), 0, pieces, ptrs)
        case None => None
        case Some(root) => New(s1, root)
    else New(s, pieces[0])
  }

  /**
    tree_delete(node, key): after lookup_key, a leaf whose slot holds key
    loses it by leaf_delete into a scratch page; a leaf without key, and a node
    of another type, give a zeroed page; an internal node goes to node_delete.
  */
  function TreeDelete(s: Store, node: seq<byte>, key: seq<byte>, fuel: nat): (r: Option<(seq<byte>, Store)>)
    requires IsBuffer(node)
    ensures r.Some? ==> IsBuffer(r.value.0) && |r.value.0| == PAGE_SIZE
    decreases fuel, 1
  {
    match Lookup(node, key)
    case None => None
    case Some(index) =>
      if BType(node) == LEAF then
        if !KeyOk(node, index) then None
        else if key != GetKey(node, index) then Some((Zeros(PAGE_SIZE), s))
        else
          match LeafDelete(Zeros(PAGE_SIZE), node, index)
          case None => None
          case Some(d) => Some((d, s))
      else if BType(node) == NODE then NodeDelete(s, node, index, key, fuel)
      else Some((Zeros(PAGE_SIZE), s))
  }

  /**
    node_delete(node, index, key): the child under slot index loses the key
    by tree_delete and its old page is freed; should_merge then picks a
    sibling (Rebalance).
  */
  function NodeDelete(s: Store, node: seq<byte>, index: nat, key: seq<byte>, fuel: nat): (r: Option<(seq<byte>, Store)>)
    requires IsBuffer(node)
    ensures r.Some? ==> IsBuffer(r.value.0) && |r.value.0| == PAGE_SIZE
    decreases fuel, 0
  {
    if fuel == 0 || !PointerOk(node, index) then None
    else
      var ptr := GetPointer(node, index);
      match Get(s, ptr)
      case None => None
      case Some(kid) =>
        match TreeDelete(s, kid, key, fuel - 1)
        case None => None
        case Some((updated, s1)) =>
          Rebalance(Del(s1, ptr), node, index, updated)
  }

  /**
    The rest of node_delete once the child's old page is freed: should_merge
    picks a direction, then a left merge, a right merge, or the updated child
    back in slot index (asserted to hold a key).
  */
  function Rebalance(s: Store, node: seq<byte>, index: nat, updated: seq<byte>): (r: Option<(seq<byte>, Store)>)
    requires IsBuffer(node) && IsBuffer(updated)
    ensures r.Some? ==> IsBuffer(r.value.0) && |r.value.0| == PAGE_SIZE
  {
    match ShouldMerge(updated, node, index, s.pages)
    case None => None
    case Some((dir, sibling)) =>
      if dir < 0 then MergeWithLeft(s, node, index, updated, sibling)
      else if dir > 0 then MergeWithRight(s, node, index, updated, sibling)
      else if NKeys(updated) == 0 then None
      else ReplaceKids(s, Zeros(PAGE_SIZE), index, node, [updated])
  }

  /**
    The left merge of node_delete: the sibling in slot index-1 and the updated
    child merge into a new page, the sibling's page is freed, and the merged
    page replaces slots index-1 and index.
  */
  function MergeWithLeft(s: Store, node: seq<byte>, index: nat, updated: seq<byte>, sibling: seq<byte>)
    : (r: Option<(seq<byte>, Store)>)
    requires IsBuffer(node) && IsBuffer(updated) && IsBuffer(sibling)
    ensures r.Some? ==> IsBuffer(r.value.0) && |r.value.0| == PAGE_SIZE
  {
    match NodeMerge(sibling, updated, Zeros(PAGE_SIZE))
    case None => None
    case Some(merged) =>
      if index == 0 || !PointerOk(node, index - 1) || !KeyOk(merged, 0) then None
      else
        match New(Del(s, GetPointer(node, index - 1)), merged)
        case None => None
        case Some((p, s1)) =>
          match ReplaceKid2(Zeros(PAGE_SIZE), node, index - 1, p, GetKey(merged, 0))
          case None => None
          case Some(d) => Some((d, s1))
  }

  /**
    The right merge of node_delete: the updated child and the sibling in slot
    index+1 merge into a new page and the sibling's page is freed; as written,
    the merged page then replaces slots index-1 and index.
  */
  function MergeWithRight(s: Store, node: seq<byte>, index: nat, updated: seq<byte>, sibling: seq<byte>)
    : (r: Option<(seq<byte>, Store)>)
    requires IsBuffer(node) && IsBuffer(updated) && IsBuffer(sibling)
    ensures r.Some? ==> IsBuffer(r.value.0) && |r.value.0| == PAGE_SIZE
  {
    match NodeMerge(updated, sibling, Zeros(PAGE_SIZE))
    case None => None
    case Some(merged) =>
      if !PointerOk(node, index + 1) || !KeyOk(merged, 0) then None
      else
        match New(Del(s, GetPointer(node, index + 1)), merged)
        case None => None
        case Some((p, s1)) =>
          if index == 0 then None
          else
            match ReplaceKid2(Zeros(PAGE_SIZE), node, index - 1, p, GetKey(merged, 0))
            case None => None
            case Some(d) => Some((d, s1))
  }

  /**
    delete(key): the key bound is asserted; an empty tree answers false;
    otherwise the root loses the key by tree_delete and is freed, and the
    result becomes the new root, or its only child when it is an internal
    node with one slot. The answer is true whenever the tree was not empty.
  */
  function Delete(t: Tree, key: seq<byte>, fuel: nat): Option<(bool, Tree)>
  {
    if !(1 <= |key| <= MAX_KEY_SIZE) then None
    else if t.root == 0 then Some((false, t))
    else
      match Get(t.store, t.root)
      case None => None
      case Some(node) =>
        match TreeDelete(t.store, node, key, fuel)
        case None => None
        case Some((updated, s1)) =>
          var s2 := Del(s1, t.root);
          if BType(updated) == NODE && NKeys(updated) == 1 then
            if !PointerOk(updated, 0) then None
            else Some((true, Tree(GetPointer(updated, 0), s2)))
          else
            match New(s2, updated)
            case None => None
            case Some((id, s3)) => Some((true, Tree(id, s3)))
  }

  /** The leaf step of search: lookup_key, then whether that slot holds key exactly. */
  function FindInLeaf(node: seq<byte>, key: seq<byte>): Option<(bool, nat, seq<byte>)>
    requires IsBuffer(node)
  {
    match Lookup(node, key)
    case None => None
    case Some(index) =>
      if !KeyOk(node, index) then None
      else Some((GetKey(node, index) == key, index, node))
  }

  /** The descent loop of search: follow lookup_key's slot until a leaf. */
  function Descend(s: Store, node: seq<byte>, key: seq<byte>, fuel: nat): Option<(bool, nat, seq<byte>)>
    requires IsBuffer(node)
    decreases fuel
  {
    if BType(node) == LEAF then FindInLeaf(node, key)
    else if fuel == 0 then None
    else
      match Lookup(node, key)
      case None => None
      case Some(index) =>
        if !PointerOk(node, index) then None
        else
          match Get(s, GetPointer(node, index))
          case None => None
          case Some(child) => Descend(s, child, key, fuel - 1)
  }

  /**
    search(key): (found, slot, leaf) from the root down; a root of another
    type than leaf or internal node answers (false, 0, zeroed page).
  */
  function Search(t: Tree, key: seq<byte>, fuel: nat): Option<(bool, nat, seq<byte>)>
  {
    match Get(t.store, t.root)
    case None => None
    case Some(root) =>
      match Lookup(root, key)
      case None => None
      case Some(index) =>
        if BType(root) == LEAF then FindInLeaf(root, key)
        else if BType(root) == NODE then
          if !PointerOk(root, index) then None
          else
            match Get(t.store, GetPointer(root, index))
            case None => None
            case Some(child) => Descend(t.store, child, key, fuel)
        else Some((false, 0, Zeros(PAGE_SIZE)))
  }
}
