/**
  The page store behind new(), get() and del() (src/B_tree.rs:255-274). The
  source boxes each page on the process heap and uses the raw address as the
  page id; here the store is a map from ids to pages together with the next
  id to hand out, so every id new() returns is fresh and 0 never names a page.
*/
module Heap {
  import opened Bytes
  import opened Codec

  datatype Store = Store(pages: map<nat, seq<byte>>, next: nat)

  /** Every stored id is non-zero and below next. */
  predicate Valid(s: Store)
  {
    0 < s.next && forall id :: id in s.pages ==> 0 < id < s.next
  }

  /** The store before any page is allocated. */
  function Empty(): (s: Store)
    ensures Valid(s) && s.pages == map[]
  {
    Store(map[], 1)
  }

  /** new(): stores a page under the next id; None once the 64-bit ids run out. */
  function New(s: Store, d: seq<byte>): (r: Option<(nat, Store)>)
    ensures r.Some? ==> r.value.0 < U64_LIMIT
  {
    if s.next >= U64_LIMIT then None
    else Some((s.next, Store(s.pages[s.next := d], s.next + 1)))
  }

  /** get(): a copy of the page stored under id; None where the source reads a dangling id. */
  function Get(s: Store, id: nat): (r: Option<seq<byte>>)
    ensures r.Some? ==> IsBuffer(r.value)
  {
    if id in s.pages && IsBuffer(s.pages[id]) then Some(s.pages[id]) else None
  }

  /** del(): frees the page stored under id. */
  function Del(s: Store, id: nat): Store
  {
    Store(s.pages - {id}, s.next)
  }

  /** new() hands out a fresh non-zero id, keeps the store valid and leaves every other page alone. */
  lemma {:induction false} NewFresh(s: Store, d: seq<byte>)
    requires Valid(s) && New(s, d).Some?
    ensures var (id, t) := New(s, d).value;
      && id != 0 && id !in s.pages && Valid(t)
      && forall k :: k != id ==> Get(t, k) == Get(s, k)
  {
  }

  /** get() after new() reads the page back. */
  lemma {:induction false} GetNew(s: Store, d: seq<byte>)
    requires IsBuffer(d) && New(s, d).Some?
    ensures Get(New(s, d).value.1, New(s, d).value.0) == Some(d)
  {
  }

  /** After del(), id no longer reads and every other page is unchanged. */
  lemma {:induction false} GetDel(s: Store, id: nat)
    ensures Get(Del(s, id), id) == None
    ensures Valid(s) ==> Valid(Del(s, id))
    ensures forall k :: k != id ==> Get(Del(s, id), k) == Get(s, k)
  {
  }

  /** The id 0 that marks an empty tree never reads as a page of a valid store. */
  lemma {:induction false} ZeroUnused(s: Store)
    requires Valid(s)
    ensures Get(s, 0) == None
  {
  }
}
