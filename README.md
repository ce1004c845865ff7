# A copy-on-write B+ tree over 4096-byte pages, in Dafny

This project models `src/B_tree.rs`, a B+ tree whose nodes are byte pages.
It has three layers, and the model follows each one.

**Node codec (`BNode`).** A node is a byte buffer: 4096 bytes, or 8192 for
the scratch buffers of `tree_insert` and `node_split3`. Its layout is:

    | type (2) | nkeys (2) | nkeys pointers (8 each) | nkeys offsets (2 each) | entries |

Each entry is `klen (2) | vlen (2) | key | value`. The accessors, the
writers, `node_append_kv_pair` and `lookup_key` are functions over
`seq<byte>` in `codec.dfy`. A node's abstract contents are a sequence of
entries (pointer, key, value). `Holds(d, es)` says that buffer `d` is a
well-formed node holding exactly `es`. This is defined in `layout.dfy`.
`append.dfy` covers a node under construction, whose first slots are laid
out: `node_append_kv_pair` at its next slot leaves it laid out with one
more entry, after the earlier ones.

**Node algorithms.**
- `node_append_range` is in `range.dfy`: the pointer loop, the offset
  re-basing loop, the byte copy and the closing offset, in stages.
- The builders are in `builders.dfy`: `leaf_insert`, `leaf_update`,
  `leaf_delete`, `node_merge`, `node_split2`, `node_split3`,
  `node_replace_kidN`, `node_replace_kid2` and the merge policy
  `should_merge`.
- Each builder has a shape lemma. On a node holding `es`, the built node
  holds the entries the source builds: inserted, removed, spliced or
  halved. For `node_split3` there is one lemma per outcome: one page, one
  page cut short, two pieces, three pieces.
- `scratch.dfy` tracks which bytes of a fresh zeroed buffer are still
  zero while a node is built in it. This is what `leaf_update`'s lost
  tail reads as.

The `BNode` class in `node.dfy` changes its buffer in place. Its writers and
the two loops of `node_append_range` are proved to produce exactly the bytes
the functions describe. `lookup_key`'s `while` loop is proved equal to the
scan it specifies.

**Tree controller (`BTree`).** `tree.dfy` states `insert`, `tree_insert`,
`node_insert`, `delete`, `tree_delete`, `node_delete` and `search` as
functions over the root id and a page store. The store (`heap.dfy`) stands
for `new`, `get` and `del`: a map from ids to pages plus the next id to hand
out, with 0 kept for the empty tree.

The `BTree` class in `btree.dfy` keeps `root`, `pages` and `next` as fields.
Each of its methods is proved to end in the state, and with the result, of
the function of the same name. `tree_lemmas.dfy` and `tree_shapes.dfy`
prove what these operations promise:
- the first leaf of an empty tree;
- the store staying valid under every insert and delete;
- the sorted placement of a new key in a leaf;
- the as-written effect of updating a key a leaf already holds;
- the answer of `search` on a leaf root, and finding a key just inserted;
- the split of a full leaf root into two leaves under a new internal root,
  and `search` finding the new key through that root;
- deleting a present or an absent key from a leaf root;
- one level of the recursion: `node_insert` replacing the child's slot by
  its pieces, each merge direction of `node_delete` and the no-merge case,
  and the new root of a split.

Where the source panics (an `assert!`, a slice past a buffer, a u16 overflow
or underflow, a `get` of an id that names no page), a function returns
`None` and a method returns `false` or `None`.

The model keeps the source's behaviour as written, including where it
departs from what a B+ tree should do:
- `leaf_update` claims one slot more than the leaf had and drops the
  entries after the updated one (`LeafUpdateShape`, `LeafUpdateAsWritten`).
- The right-merge branch of `node_delete` replaces slots `index-1` and
  `index`.
- `tree_delete` answers a missing key with a zeroed page, so `delete`
  returns true whenever the tree is not empty (`DeleteGrows`,
  `DeleteMissingFromLeaf`).
- Under an internal node, that zeroed page reaches `should_merge`, whose
  `size()` underflows on a node with no keys, so the delete panics
  (`RebalanceEmpty`, `NodeDeleteMissing`). For the same reason the
  `nkeys() > 0` assertion of the no-merge branch can never fail.
- `size()` leaves out the last entry's four length bytes (`SizeOfHolds`).
  A node whose encoded size is just over a page therefore passes
  `node_split3` whole, cut to one page that loses its last entry's bytes
  (`Split3Truncates`).
- The size test of `should_merge` counts two headers fewer than the node
  `node_merge` then builds (`CombinedUndercounts`). It can therefore pick a
  sibling whose merge needs up to 8 bytes more than a page.

## Model

| member | source | states |
|---|---|---|
| Bytes.U16RoundTrip | src/B_tree.rs:56-73 | a 16-bit field written at a position reads back as the value written |
| Bytes.U64RoundTrip | src/B_tree.rs:37-46 | a 64-bit field written at a position reads back as the value written |
| Codec.HeaderRoundTrip | src/B_tree.rs:27-36 | after set_header(t, n), btype() is t and nkeys() is n, and no byte past the header changes |
| Codec.PointerRoundTrip | src/B_tree.rs:37-47 | set_pointer(i, v) on a slot below nkeys makes get_pointer(i) return v, and every byte outside the slot's 8 bytes, header included, is unchanged |
| Codec.OffsetRoundTrip | src/B_tree.rs:48-73 | set_offset(i, v) makes get_offset(i) return v when i < nkeys, with every byte outside the slot's 2 bytes unchanged, and changes nothing when i >= nkeys |
| Codec.AppendKVRoundTrip | src/B_tree.rs:125-140 | after node_append_kv_pair(p, i, k, v), slot i reads back pointer p, key k and value v; its offset is kept; offset i+1 is offset i + 4 + \|k\| + \|v\| when i+1 < nkeys |
| Codec.ScanSome | src/B_tree.rs:103-124 | lookup_key's scan gives an answer whenever every key it may read is readable |
| Codec.ScanBounds | src/B_tree.rs:103-124 | the slot lookup_key returns is the slot before its start or a slot below nkeys |
| Codec.ScanPasses | src/B_tree.rs:103-124 | every slot the scan passes holds a non-empty key at most the searched key |
| Codec.ScanStops | src/B_tree.rs:103-124 | the scan stops before the end only at an empty key or a key above the searched key |
| Codec.ScanPanics | src/B_tree.rs:103-124 | lookup_key's scan panics exactly when it reaches a slot whose key cannot be read, every slot before it holding a readable non-empty key at most the searched key |
| Layout.HoldsReads | src/B_tree.rs:74-95 | on a node holding es, kvpos, get_pointer, get_key and get_value of every slot read back entry es[k] |
| Append.AppendKVReady | src/B_tree.rs:125-140 | node_append_kv_pair at the next slot of a node under construction succeeds when the entry fits, and the node keeps its type, count and length and holds its earlier entries followed by the new one |
| Layout.SizeOfHolds | src/B_tree.rs:96-102 | size() of a node holding es is its encoded size less the four length bytes of the last entry |
| Layout.LookupFloor | src/B_tree.rs:103-124 | on a node whose keys from slot 1 on are sorted, lookup_key returns the last slot whose key is at most the key, or 0, with every later key larger |
| Order.LessTotal | src/B_tree.rs:103-124 | the byte-string order lookup_key compares with is total |
| Order.LessTransitive | src/B_tree.rs:103-124 | the byte-string order is transitive |
| Order.NotLessEq | src/B_tree.rs:103-124 | a key that is not at most another is greater than it |
| Range.RangeOverflows | src/B_tree.rs:192 | node_append_range panics when dst + n exceeds the destination's nkeys |
| Range.RangeSkips | src/B_tree.rs:193-199 | node_append_range leaves the destination unchanged when n is 0 or src + n exceeds the source's nkeys |
| Range.RangeReady | src/B_tree.rs:185-251 | copying n entries from src into a node laid out up to dst lays out those entries after it, with offsets rebased, the pointers copied and the next offset recorded |
| Builders.LeafInsertShape | src/B_tree.rs:142-164 | leaf_insert at index on a node holding es gives a leaf holding es[..index] + [(0, key, val)] + es[index..] |
| Builders.LeafUpdateShape | src/B_tree.rs:165-184 | leaf_update at index gives a leaf whose header counts one slot more than the old leaf, laid out only up to the new entry: es[..index] + [(0, key, val)]; the entries after index are lost: their pointers read 0, slot index+1 reads an empty key and value (when its length fields fit the buffer), and every later slot reads the first entry's key and value |
| Builders.LeafDeleteShape | src/B_tree.rs:378-396 | leaf_delete at index gives a node of the same type holding es with entry index removed |
| Builders.NodeMergeShape | src/B_tree.rs:397-409 | node_merge of nodes holding ls and rs gives a node of the left node's type holding ls + rs |
| Builders.Split2Shape | src/B_tree.rs:575-592 | node_split2 gives a left node holding the first nkeys/2 entries and a right node holding the rest, both of the old node's type |
| Builders.Split3 | src/B_tree.rs:593-628 | node_split3 returns 1 to 3 nodes of one page each, and exactly one when size() is under a page |
| Builders.Split3One | src/B_tree.rs:593-605 | a node whose size() is under a page comes back alone, cut to its first page, and that page holds es when the encoded size fits a page |
| Builders.Split3Truncates | src/B_tree.rs:593-605 | a node encoded in just over a page passes size()'s test and comes back cut to one page in which its last entry can no longer be read |
| Builders.Split3Two | src/B_tree.rs:606-620 | when size() reaches a page and the left half fits, node_split3 returns two nodes of the old type holding the first and second halves of es |
| Builders.Split3Three | src/B_tree.rs:606-626 | when the left half is still a page or more, node_split3 returns three nodes of the old type holding the first quarter, the second quarter and the second half of es |
| Builders.ReplaceKid2Shape | src/B_tree.rs:487-515 | node_replace_kid2 at index gives a node holding es with slots index and index+1 replaced by one slot (ptr, key, empty value) |
| Builders.ReplaceKidNShape | src/B_tree.rs:279-304 | node_replace_kidN at index gives an internal node holding es with slot index replaced by one slot per kid: its stored id, its first key, an empty value |
| Builders.ShouldMergePolicy | src/B_tree.rs:517-543 | should_merge answers 0 above a quarter page; -1 exactly when the left sibling fits with the child in a page; 1 exactly when the left one does not but the right one does; the sibling returned is the one named; 0 returns an empty page |
| Builders.CombinedUndercounts | src/B_tree.rs:528-529 | the figure should_merge compares with the page size, for a sibling holding ls and a child holding us, is the encoded size of the merged node ls + us less 8 |
| Node.BNode.constructor | src/B_tree.rs:21-26 | BNode::new is one zeroed page |
| Node.BNode.SetHeader | src/B_tree.rs:33-36 | the buffer becomes Codec.SetHeader of the old one; type and count read back and nothing past the header changes |
| Node.BNode.SetPointer | src/B_tree.rs:42-47 | panics exactly when the slot is not below nkeys or lies past the buffer; otherwise the pointer reads back |
| Node.BNode.SetOffset | src/B_tree.rs:65-73 | writes only slots below nkeys; the offset reads back |
| Node.BNode.AppendPair | src/B_tree.rs:125-140 | the in-place pointer, entry and offset writes give Codec.AppendKV's buffer, and pointer, key and value read back |
| Node.BNode.AppendRange | src/B_tree.rs:185-251 | the in-place copy gives Range.AppendRange's buffer and panics exactly where it is None |
| Node.BNode.CopyPointerSlots | src/B_tree.rs:200-205 | the pointer loop's buffer is the CopyPointers stage |
| Node.BNode.RebaseOffsetSlots | src/B_tree.rs:207-218 | the offset loop's buffer is the RebaseOffsets stage, and it panics exactly where that stage overflows or underflows 16 bits |
| Node.BNode.CopyBytes | src/B_tree.rs:220-243 | the slice copy's buffer is the CopyBlob stage |
| Node.BNode.CloseOffsets | src/B_tree.rs:245-250 | the closing set_offset's buffer is the CloseRange stage |
| Node.BNode.LookupKey | src/B_tree.rs:103-124 | the while loop returns Codec.Lookup's slot, or panics where it does |
| Node.RebaseStaysNone | src/B_tree.rs:212-218 | once one round of the offset loop panics, the whole loop does |
| Heap.Empty | src/B_tree.rs:276-278 | the store before any page is allocated is valid and empty |
| Heap.NewFresh | src/B_tree.rs:261-265 | new() returns a non-zero id no page had, keeps the store valid and leaves every other page alone |
| Heap.GetNew | src/B_tree.rs:261-274 | get() after new() reads the stored page back |
| Heap.GetDel | src/B_tree.rs:255-260 | after del(id), id no longer reads, the store stays valid, and every other page is unchanged |
| Heap.ZeroUnused | src/B_tree.rs:348 | the id 0 that marks an empty tree never names a page |
| Tree.Place | src/B_tree.rs:290-295 | the allocation of node_replace_kidN's loop gives one id per kid, each a u64 |
| Tree.ReplaceKids | src/B_tree.rs:279-304 | node_replace_kidN with its allocation gives a buffer as long as the one it fills |
| Tree.TreeInsert | src/B_tree.rs:305-330 | tree_insert returns a double-page buffer |
| Tree.NodeInsert | src/B_tree.rs:331-344 | node_insert fills a buffer of the length it is given |
| Tree.FirstLeaf | src/B_tree.rs:348-354 | the first root is a page-sized node |
| Tree.TreeDelete | src/B_tree.rs:410-431 | tree_delete returns one page |
| Tree.NodeDelete | src/B_tree.rs:451-486 | node_delete returns one page |
| Tree.Rebalance | src/B_tree.rs:459-485 | the rest of node_delete after the child is freed returns one page |
| Tree.MergeWithLeft | src/B_tree.rs:464-470 | the left merge returns one page |
| Tree.MergeWithRight | src/B_tree.rs:472-478 | the right merge returns one page |
| Tree.NewRoot | src/B_tree.rs:357-375 | the new root of insert is stored under a u64 id |
| Controller.BTree.constructor | src/B_tree.rs:276-278 | BTree::new holds the empty tree over the empty store |
| Controller.BTree.New | src/B_tree.rs:261-265 | storing a page updates the fields as Heap.New does and keeps the root |
| Controller.BTree.Get | src/B_tree.rs:266-274 | get() answers as Heap.Get |
| Controller.BTree.Del | src/B_tree.rs:255-260 | del() updates the fields as Heap.Del does |
| Controller.BTree.Place | src/B_tree.rs:290-295 | the allocation loop ends with Tree.Place's ids and store, and fails exactly where it does |
| Controller.BTree.ReplaceKids | src/B_tree.rs:279-304 | node_replace_kidN ends with Tree.ReplaceKids' node and store |
| Controller.BTree.TreeInsert | src/B_tree.rs:305-330 | tree_insert ends with Tree.TreeInsert's buffer and store, and panics exactly where it does |
| Controller.BTree.NodeInsert | src/B_tree.rs:331-344 | node_insert ends with Tree.NodeInsert's buffer and store |
| Controller.BTree.Insert | src/B_tree.rs:345-377 | insert ends with Tree.Insert's root and store, and panics exactly where it does |
| Controller.BTree.NewRoot | src/B_tree.rs:357-375 | the root of insert after the split ends with Tree.NewRoot's id and store, and panics exactly where it does |
| Controller.BTree.TreeDelete | src/B_tree.rs:410-431 | tree_delete ends with Tree.TreeDelete's page and store |
| Controller.BTree.NodeDelete | src/B_tree.rs:451-486 | node_delete ends with Tree.NodeDelete's page and store |
| Controller.BTree.Rebalance | src/B_tree.rs:459-485 | the merge decision and its branch end with Tree.Rebalance's page and store |
| Controller.BTree.MergeWithLeft | src/B_tree.rs:464-470 | the left merge ends with Tree.MergeWithLeft's page and store |
| Controller.BTree.MergeWithRight | src/B_tree.rs:472-478 | the right merge ends with Tree.MergeWithRight's page and store |
| Controller.BTree.Delete | src/B_tree.rs:432-450 | delete ends with Tree.Delete's answer, root and store |
| Controller.BTree.FindInLeaf | src/B_tree.rs:551-556 | the leaf step of search answers as Tree.FindInLeaf |
| Controller.BTree.Search | src/B_tree.rs:544-573 | the descent loop answers as Tree.Search |
| Controller.PlaceStaysNone | src/B_tree.rs:290-295 | once storing a prefix of the kids fails, storing all of them fails |
| TreeLemmas.EmptyTree | src/B_tree.rs:345-354 | insert into an empty tree stores a fresh root, a leaf holding (0, [], []) then (0, key, val); delete on an empty tree answers false and changes nothing |
| TreeLemmas.PlaceStores | src/B_tree.rs:290-295 | allocating kids stores each under its own fresh non-zero id, in increasing order, and keeps every page already stored |
| TreeLemmas.ReplaceKidsGrows | src/B_tree.rs:279-304 | node_replace_kidN keeps the store valid |
| TreeLemmas.TreeInsertGrows | src/B_tree.rs:305-330 | tree_insert keeps the store valid and never lowers the next id |
| TreeLemmas.NodeInsertGrows | src/B_tree.rs:331-344 | node_insert keeps the store valid and never lowers the next id |
| TreeLemmas.InsertGrows | src/B_tree.rs:345-377 | a successful insert had a key of 1 to 1000 bytes and a value of at most 3000; afterwards the store is valid and the root names a stored page |
| TreeLemmas.NewRootStores | src/B_tree.rs:357-375 | the new root of insert is a fresh non-zero id naming a stored page, and the store stays valid |
| TreeLemmas.TreeDeleteGrows | src/B_tree.rs:410-431 | tree_delete keeps the store valid |
| TreeLemmas.NodeDeleteGrows | src/B_tree.rs:451-486 | node_delete keeps the store valid |
| TreeLemmas.RebalanceGrows | src/B_tree.rs:459-485 | the merge step of node_delete keeps the store valid in each direction |
| TreeLemmas.MergeWithLeftGrows | src/B_tree.rs:464-470 | the left merge keeps the store valid |
| TreeLemmas.MergeWithRightGrows | src/B_tree.rs:472-478 | the right merge keeps the store valid |
| TreeLemmas.DeleteGrows | src/B_tree.rs:432-450 | a successful delete had a key of 1 to 1000 bytes, keeps the store valid, and answers true exactly when the tree was not empty |
| TreeLemmas.SortedInsert | src/B_tree.rs:142-164 | a key placed after the smaller keys and before the larger ones keeps a leaf's keys sorted |
| TreeLemmas.LookupExact | src/B_tree.rs:103-124 | on a sorted node, lookup_key returns the slot that holds the key exactly: any slot from 1 on, and slot 0 when its key lies below slot 1's |
| TreeLemmas.SpanInsert | src/B_tree.rs:142-164 | one more entry grows a node's encoded size by ten bytes and the entry's width |
| TreeLemmas.FloorOf | src/B_tree.rs:103-124 | in a sorted leaf without the key, every key up to lookup_key's slot is smaller and every later key larger |
| TreeLemmas.LeafInsertOrder | src/B_tree.rs:305-322 | tree_insert of a new key into a sorted leaf puts (0, key, val) right after the smaller keys, keeps every old entry in order and the keys sorted, and leaves the store alone |
| TreeLemmas.LeafUpdateAsWritten | src/B_tree.rs:305-318 | tree_insert of a key a sorted leaf holds at slot j gives a leaf counting one slot more, laid out only up to the new entry es[..j] + [(0, key, val)], and leaves the store alone; the entries after j are lost: their pointers read 0, slot j+1 reads an empty key and value, and every later slot reads slot 0's key and value (the new value when j is 0); slot 0 counts when its key lies below slot 1's |
| TreeLemmas.SearchLeaf | src/B_tree.rs:544-556 | on a sorted leaf root with the empty sentinel key first, search of any key, the empty one included, answers found exactly when some slot holds the key, and the slot it names then holds that key and its value |
| TreeLemmas.SearchSentinel | src/B_tree.rs:544-556 | search of the empty key on such a leaf reports the sentinel at slot 0 as found |
| TreeShapes.PlaceIds | src/B_tree.rs:290-295 | with ids to spare, the allocation of n kids hands out the next n ids in order, stores kid j under id j, and leaves every page below the old next id as it was |
| TreeShapes.ReplaceKidsShape | src/B_tree.rs:279-304 | node_replace_kidN with its allocation gives an internal node holding es with slot index replaced by one slot (fresh id, first key, empty value) per kid, each kid stored under its id, every older page unchanged |
| TreeShapes.NodeInsertShape | src/B_tree.rs:331-344 | once the child under slot index has taken the key by tree_insert and been cut by node_split3, node_insert is node_replace_kidN of the pieces over the store with the child's page freed, and the child's id lies below the next id |
| TreeShapes.SwapKid | src/B_tree.rs:337-343 | with the child's page freed, the parent's slot index gives way to one slot per piece with its fresh id and first key, each piece is stored under its id, and the child's id no longer reads |
| TreeShapes.TreeDeleteFound | src/B_tree.rs:410-421 | tree_delete of a key a sorted leaf holds at slot j (slot 0 when its key lies below slot 1's) gives a leaf holding es without entry j and leaves the store alone |
| TreeShapes.TreeDeleteMissing | src/B_tree.rs:410-417 | tree_delete of a key a sorted leaf does not hold returns an all-zero page and leaves the store alone |
| TreeShapes.RebalanceKeeps | src/B_tree.rs:480-485 | when should_merge says no merge, the child is stored under the next id and the parent's slot index becomes (that id, the child's first key, empty value), the other slots kept |
| TreeShapes.RebalanceEmpty | src/B_tree.rs:459-462 | a child with no keys makes node_delete panic in should_merge's size(), before any merge branch |
| TreeShapes.NodeDeleteMissing | src/B_tree.rs:451-462 | node_delete of a key the child leaf does not hold panics: the child comes back as an all-zero page |
| TreeShapes.MergeWithLeftShape | src/B_tree.rs:464-470 | the left merge stores node_merge of the sibling and the child under the next id, frees the sibling, and joins slots index-1 and index into one slot (that id, the merged first key) |
| TreeShapes.MergeWithRightShape | src/B_tree.rs:472-478 | the right merge, as written, stores node_merge of the child and the right sibling and joins slots index-1 and index into one slot, leaving the sibling's slot index+1 in place while its page is freed |
| TreeShapes.MergeWithRightAtZero | src/B_tree.rs:472-478 | the right merge of the first child panics, since it replaces slot index-1 |
| TreeShapes.NewRootTwo | src/B_tree.rs:357-371 | a root split in two stores both pieces under the next two ids and a new internal root holding one slot per piece (its id, its first key) under the id after them |
| TreeShapes.NewRootThree | src/B_tree.rs:357-371 | a root split in three panics: the new root's header counts 2 slots, and node_append_kv_pair of the third piece asks for slot 2 |
| TreeShapes.InsertIntoLeaf | src/B_tree.rs:345-375 | insert of a new key into a tree whose root is a sorted leaf with room for the new entry within one page makes the next id the root, a leaf holding the entries with (0, key, val) in sorted place, and frees the old root |
| TreeShapes.InsertThenSearch | src/B_tree.rs:345-375 | after insert of a new key into a sorted leaf root with room for it, search finds the key with its value |
| TreeShapes.InsertSplitsLeaf | src/B_tree.rs:345-375 | insert of a new key into a sorted leaf root it overflows, where node_split3 gives two halves that each fit a page: the halves are stored as leaves under the next two ids, the new root after them is an internal node whose slots name them with their first keys, the old root is freed and every other page is kept |
| TreeShapes.SearchSplitRoot | src/B_tree.rs:544-577 | on a root split over the halves of sorted entries, search descends through the root to the half that holds the key of any slot from 1 on and finds it with its value |
| TreeShapes.InsertSplitThenSearch | src/B_tree.rs:345-375 | after an insert that splits a leaf root in two, search finds the new key with its value |
| TreeShapes.DeleteFromLeaf | src/B_tree.rs:432-449 | delete of a key a sorted page-sized leaf root holds (at slot 0 too, when its key lies below slot 1's) answers true and makes the next id a root leaf holding the entries without it, freeing the old root |
| TreeShapes.DeleteMissingFromLeaf | src/B_tree.rs:432-449 | delete of a key a leaf root does not hold answers true anyway and makes the root an all-zero page |

## Left out

- Debug printing (`println!`) has no effect on the state and is not modelled.
- Memory is not modelled: the raw-pointer mechanics of `new`, `get` and `del`, aliasing and use after free are outside the model. The store is a map from ids to pages, and ids come from a counter rather than heap addresses.
- The store's `new` fails once ids reach 2^64, where the source's heap would run out of memory instead.
- Integers are fixed little-endian. The source uses native byte order, and the round trips hold for either.
- Panics are modelled as outcomes (`None`, or `ok` false), and integer overflow as a debug build checks it. After a panic, a method's fields or buffer are left unspecified, except as the next line says.
- Node.BNode.AppendPair: checks every guard before it writes, so when it fails the buffer is unchanged; node_append_kv_pair may already have written the pointer and the length bytes when it panics.
- The recursion of `tree_insert`/`node_insert` and `tree_delete`/`node_delete`, and the descent loop of `search`, carry a fuel bound. The source relies on a finite tree instead; running out of fuel gives `None`.
- `search` on an empty tree, which the source runs on a null pointer, answers `None` here.
- The checks `data.len() == 0` in `delete` and `node_delete` are not modelled: `tree_delete` always returns a full page, so they never hold.
- Controller.BTree.ReplaceKids: it stores all kids before building the node, while the source interleaves each `new` with its `node_append_kv_pair`; the two differ only in the state a panic leaves behind.
- Controller.BTree.NewRoot: in a root split it stores all pieces before building the new root, with the same difference as above.
- Builders.Split3: its own contract states the number and size of the pieces; their contents are stated by Split3One, Split3Truncates, Split3Two and Split3Three under size conditions on es, and a split whose halves do not meet those conditions is not described.
- Tree.TreeInsert, Tree.NodeInsert, Tree.TreeDelete, Tree.NodeDelete, Tree.Rebalance, Tree.MergeWithLeft, Tree.MergeWithRight, Tree.ReplaceKids, Tree.NewRoot: their own contracts state only buffer lengths and id bounds; what they build is stated by the TreeShapes, TreeLemmas and Builders lemmas listed above, each for one case.
- Tree.NodeDelete: for a key the child holds, no lemma composes the child's tree_delete with the merge step; the merge step itself is stated by RebalanceKeeps, MergeWithLeftShape and MergeWithRightShape.
- Tree.Rebalance: a merge with a sibling that should_merge picks is stated through MergeWithLeftShape and MergeWithRightShape, which take the sibling's contents as given rather than reading them from should_merge.
- TreeShapes.MergeWithLeftShape, TreeShapes.MergeWithRightShape: take a merged node that fits a page. should_merge also picks pairs up to 8 bytes larger (CombinedUndercounts), and node_merge into a fresh page then panics; that panic is not proved.
- TreeShapes.InsertIntoLeaf, TreeShapes.InsertThenSearch: cover a leaf root that still fits one page after the insert; the split of a full leaf root is stated by InsertSplitsLeaf and InsertSplitThenSearch.
- TreeShapes.InsertSplitsLeaf, TreeShapes.InsertSplitThenSearch: cover the split where each half of the grown leaf fits a page; a left half 1 to 3 bytes over a page comes back cut short (Split3Two), and a split in three panics (NewRootThree), neither carried through insert.
- Tree.Insert: updating a key a leaf root already holds is stated up to tree_insert (LeafUpdateAsWritten) and not carried through insert's node_split3 and new root.
- Tree.Insert, Tree.Delete, Tree.Search: stated end to end only on an empty tree and on a leaf root (an insert into it that fits, or that splits it in two; a delete from it); deeper trees are covered one level at a time (NodeInsertShape, SwapKid, the merge lemmas), with no lemma over a whole tree of several levels.
- The commented-out iterator and the unit tests are not part of this model.
