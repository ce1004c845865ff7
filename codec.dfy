/**
  The page layout of a B+ tree node (the BNode accessors and writers of
  src/B_tree.rs), as functions on the node's bytes:

    | type (2) | nkeys (2) | pointers (8 * nkeys) | offsets (2 * nkeys) | key-value blob |

  where each blob entry is | klen (2) | vlen (2) | key | value |. Offset i is
  the start of entry i relative to the blob; offset 0 lives at the start of
  the offset area and is never written by the builders.

  Every read or write the source guards with an assert! or a slice bound has a
  predicate here (PointerOk, OffsetOk, KeyOk, ValueOk, SizeOk); the source
  panics exactly where the predicate is false.
*/
module Codec {
  import opened Bytes
  import opened Order

  const HEADER: nat := 4
  const PAGE_SIZE: nat := 4096
  const MAX_KEY_SIZE: nat := 1000
  const MAX_VAL_SIZE: nat := 3000
  const NODE: nat := 1
  const LEAF: nat := 2

  /** A node buffer: one page, or the double-size scratch page a node is built in. */
  predicate IsBuffer(d: seq<byte>)
  {
    HEADER <= |d| <= 2 * PAGE_SIZE
  }

  function BType(d: seq<byte>): nat
    requires IsBuffer(d)
  {
    U16At(d, 0)
  }

  function NKeys(d: seq<byte>): nat
    requires IsBuffer(d)
  {
    U16At(d, 2)
  }

  /** set_header writes both fields; HeaderRoundTrip reads them back. */
  function SetHeader(d: seq<byte>, btype: nat, nkeys: nat): (r: seq<byte>)
    requires IsBuffer(d) && btype < U16_LIMIT && nkeys < U16_LIMIT
    ensures IsBuffer(r) && |r| == |d|
  {
    Write(Write(d, 0, U16Bytes(btype)), 2, U16Bytes(nkeys))
  }

  function PointerPos(i: nat): nat
  {
    HEADER + 8 * i
  }

  /** get_pointer/set_pointer assert i < nkeys and slice 8 bytes. */
  predicate PointerOk(d: seq<byte>, i: nat)
    requires IsBuffer(d)
  {
    i < NKeys(d) && PointerPos(i) + 8 <= |d|
  }

  function GetPointer(d: seq<byte>, i: nat): nat
    requires IsBuffer(d) && PointerOk(d, i)
  {
    U64At(d, PointerPos(i))
  }

  /**
    set_pointer writes the 8 bytes of slot i. Like Write, the definition is
    kept behind `depth`; SetPointerIs expands it.
  */
  function SetPointer(d: seq<byte>, i: nat, v: nat, depth: nat := 2): (r: seq<byte>)
    requires IsBuffer(d) && PointerOk(d, i) && v < U64_LIMIT
    ensures IsBuffer(r) && |r| == |d| && BType(r) == BType(d) && NKeys(r) == NKeys(d)
    decreases |d|, depth
  {
    if depth > 0 then SetPointer(d, i, v, depth - 1)
    else
      WriteKeepsHeader(d, PointerPos(i), U64Bytes(v));
      Write(d, PointerPos(i), U64Bytes(v))
  }

  lemma {:induction false} SetPointerIs(d: seq<byte>, i: nat, v: nat)
    requires IsBuffer(d) && PointerOk(d, i) && v < U64_LIMIT
    ensures SetPointer(d, i, v) == Write(d, PointerPos(i), U64Bytes(v))
  {
    assert SetPointer(d, i, v) == SetPointer(d, i, v, 0);
  }

  /**
    offset_position: slot i sits 2*i bytes into the offset area. The source
    special-cases slot 0, but its general formula gives the same position there.
  */
  function OffsetPos(n: nat, i: nat): nat
  {
    HEADER + 8 * n + 2 * i
  }

  /** offset_position asserts i <= nkeys; the read slices 2 bytes. */
  predicate OffsetOk(d: seq<byte>, i: nat)
    requires IsBuffer(d)
  {
    i <= NKeys(d) && OffsetPos(NKeys(d), i) + 2 <= |d|
  }

  function GetOffset(d: seq<byte>, i: nat): nat
    requires IsBuffer(d) && OffsetOk(d, i)
  {
    U16At(d, OffsetPos(NKeys(d), i))
  }

  /** set_offset writes only when i < nkeys; otherwise it leaves the node alone. */
  function SetOffset(d: seq<byte>, i: nat, v: nat, depth: nat := 2): (r: seq<byte>)
    requires IsBuffer(d) && v < U16_LIMIT
    requires i < NKeys(d) ==> OffsetOk(d, i)
    ensures IsBuffer(r) && |r| == |d| && BType(r) == BType(d) && NKeys(r) == NKeys(d)
    decreases |d|, depth
  {
    if depth > 0 then SetOffset(d, i, v, depth - 1)
    else if i < NKeys(d) then
      WriteKeepsHeader(d, OffsetPos(NKeys(d), i), U16Bytes(v));
      Write(d, OffsetPos(NKeys(d), i), U16Bytes(v))
    else d
  }

  lemma {:induction false} SetOffsetIs(d: seq<byte>, i: nat, v: nat)
    requires IsBuffer(d) && v < U16_LIMIT && (i < NKeys(d) ==> OffsetOk(d, i))
    ensures i < NKeys(d) ==> SetOffset(d, i, v) == Write(d, OffsetPos(NKeys(d), i), U16Bytes(v))
    ensures i >= NKeys(d) ==> SetOffset(d, i, v) == d
  {
    assert SetOffset(d, i, v) == SetOffset(d, i, v, 0);
  }

  /** kvpos: absolute position of entry i in the buffer. */
  function KvPos(d: seq<byte>, i: nat): nat
    requires IsBuffer(d) && OffsetOk(d, i)
  {
    HEADER + 2 * NKeys(d) + 8 * NKeys(d) + GetOffset(d, i)
  }

  /** End of the entry at position a: past both lengths, the key and the value. */
  function EntryEnd(d: seq<byte>, a: nat): nat
    requires a + 4 <= |d|
  {
    a + 4 + U16At(d, a) + U16At(d, a + 2)
  }

  /** The key of the entry at position a. */
  function KeyBytes(d: seq<byte>, a: nat): seq<byte>
    requires a + 4 <= |d| && a + 4 + U16At(d, a) <= |d|
  {
    d[a + 4..a + 4 + U16At(d, a)]
  }

  /** The value of the entry at position a. */
  function ValueBytes(d: seq<byte>, a: nat): seq<byte>
    requires a + 4 <= |d| && EntryEnd(d, a) <= |d|
  {
    d[a + 4 + U16At(d, a)..EntryEnd(d, a)]
  }

  /**
    The entry at position a decodes as key and value. The fact is kept
    behind `depth` unfoldings, so that a proof that only carries it from one
    lemma to the next does not expand the bytes; EntryIsOpen expands it.
  */
  predicate EntryIs(d: seq<byte>, a: nat, key: seq<byte>, val: seq<byte>, depth: nat := 2)
    decreases |d|, depth
  {
    if depth > 0 then EntryIs(d, a, key, val, depth - 1)
    else
      && a + 4 <= |d| && EntryEnd(d, a) == a + 4 + |key| + |val| && EntryEnd(d, a) <= |d|
      && KeyBytes(d, a) == key && ValueBytes(d, a) == val
  }

  lemma {:induction false} EntryIsOpen(d: seq<byte>, a: nat, key: seq<byte>, val: seq<byte>)
    requires EntryIs(d, a, key, val)
    ensures a + 4 <= |d| && EntryEnd(d, a) == a + 4 + |key| + |val| && EntryEnd(d, a) <= |d|
    ensures KeyBytes(d, a) == key && ValueBytes(d, a) == val
  {
    assert EntryIs(d, a, key, val, 0);
  }

  /** get_key slices the 2-byte key length and then the key. */
  predicate KeyOk(d: seq<byte>, i: nat)
    requires IsBuffer(d)
  {
    OffsetOk(d, i) && KvPos(d, i) + 4 <= |d| && KvPos(d, i) + 4 + U16At(d, KvPos(d, i)) <= |d|
  }

  /** get_value slices both lengths and then the value. */
  predicate ValueOk(d: seq<byte>, i: nat)
    requires IsBuffer(d)
  {
    OffsetOk(d, i) && KvPos(d, i) + 4 <= |d| && EntryEnd(d, KvPos(d, i)) <= |d|
  }

  function GetKey(d: seq<byte>, i: nat): seq<byte>
    requires IsBuffer(d) && KeyOk(d, i)
  {
    KeyBytes(d, KvPos(d, i))
  }

  function GetValue(d: seq<byte>, i: nat): seq<byte>
    requires IsBuffer(d) && ValueOk(d, i)
  {
    ValueBytes(d, KvPos(d, i))
  }

  /** size() subtracts 1 from nkeys (a u16) and reads the last key and value. */
  predicate SizeOk(d: seq<byte>)
    requires IsBuffer(d)
  {
    NKeys(d) >= 1 && ValueOk(d, NKeys(d) - 1)
  }

  /** size(): kvpos of the last entry plus its key and value lengths. */
  function Size(d: seq<byte>): nat
    requires IsBuffer(d) && SizeOk(d)
  {
    var last := NKeys(d) - 1;
    KvPos(d, last) + |GetKey(d, last)| + |GetValue(d, last)|
  }

  /** The encoding of one blob entry. */
  function EntryBytes(key: seq<byte>, val: seq<byte>): (s: seq<byte>)
    requires |key| < U16_LIMIT && |val| < U16_LIMIT
    ensures |s| == HEADER + |key| + |val|
  {
    U16Bytes(|key|) + U16Bytes(|val|) + key + val
  }

  /** The four slice copies of node_append_kv_pair: both lengths, the key and the value, at p. */
  function PutEntry(d: seq<byte>, p: nat, key: seq<byte>, val: seq<byte>): (r: seq<byte>)
    requires IsBuffer(d) && |key| < U16_LIMIT && |val| < U16_LIMIT
    requires HEADER <= p && p + HEADER + |key| + |val| <= |d|
    ensures IsBuffer(r) && |r| == |d| && BType(r) == BType(d) && NKeys(r) == NKeys(d)
  {
    WriteKeepsHeader(d, p, EntryBytes(key, val));
    Write(d, p, EntryBytes(key, val))
  }

  /**
    The writes of node_append_kv_pair: pointer i, then the entry at kvpos(i),
    then offset(i+1) = offset(i) + 4 + |key| + |val|, which set_offset skips
    when slot i+1 does not exist. Offset i is read after the entry is written;
    that write misses offset slot i (OffsetWrite), so the value read is the
    one already in d.
  */
  function AppendKVWrite(d: seq<byte>, ptr: nat, i: nat, key: seq<byte>, val: seq<byte>): (r: seq<byte>)
    requires IsBuffer(d) && ptr < U64_LIMIT && PointerOk(d, i) && OffsetOk(d, i)
    requires KvPos(d, i) + HEADER + |key| + |val| <= |d|
    requires GetOffset(d, i) + HEADER + |key| + |val| < U16_LIMIT
    ensures IsBuffer(r) && |r| == |d|
  {
    PointerRoundTrip(d, i, ptr);
    SetPointerIs(d, i, ptr);
    OffsetWrite(d, PointerPos(i), U64Bytes(ptr), i);
    var d1 := SetPointer(d, i, ptr);
    var d2 := PutEntry(d1, KvPos(d1, i), key, val);
    SetOffset(d2, i + 1, GetOffset(d, i) + HEADER + |key| + |val|)
  }

  /**
    node_append_kv_pair, or None where it panics: set_pointer's assert, the
    slices past the end of the buffer, and the u16 addition that computes
    offset(i+1) (a debug build checks it).
  */
  function AppendKV(d: seq<byte>, ptr: nat, i: nat, key: seq<byte>, val: seq<byte>): (r: Option<seq<byte>>)
    requires IsBuffer(d) && ptr < U64_LIMIT
    ensures r.Some? ==> IsBuffer(r.value) && |r.value| == |d|
  {
    if !PointerOk(d, i) || !OffsetOk(d, i) || KvPos(d, i) + HEADER + |key| + |val| > |d| then None
    else if GetOffset(d, i) + HEADER + |key| + |val| >= U16_LIMIT then None
    else Some(AppendKVWrite(d, ptr, i, key, val))
  }

  /** What get_key(i) returns, or None where it panics. */
  function KeyAt(d: seq<byte>, i: nat): Option<seq<byte>>
    requires IsBuffer(d)
  {
    if KeyOk(d, i) then Some(GetKey(d, i)) else None
  }

  /** The key of every slot, as get_key reads it. */
  function Keys(d: seq<byte>): (ks: seq<Option<seq<byte>>>)
    requires IsBuffer(d)
    ensures |ks| == NKeys(d) && forall j :: 0 <= j < |ks| ==> ks[j] == KeyAt(d, j)
  {
    seq(NKeys(d), j requires 0 <= j < NKeys(d) => KeyAt(d, j))
  }

  /**
    lookup_key's scan over the slot keys ks, from slot i with the candidate
    found so far. It stops at the end, at the first empty key, or at the first
    key greater than key; reading a key that get_key cannot read panics.
  */
  function Scan(ks: seq<Option<seq<byte>>>, key: seq<byte>, i: nat, found: nat): Option<nat>
    decreases |ks| - i
  {
    if i >= |ks| then Some(found)
    else if ks[i].None? then None
    else if ks[i].value == [] then Some(found)
    else if LessEq(ks[i].value, key) then Scan(ks, key, i + 1, i)
    else Some(found)
  }

  /** lookup_key: the scan starts at slot 1, with slot 0 as the candidate. */
  function Lookup(d: seq<byte>, key: seq<byte>): Option<nat>
    requires IsBuffer(d)
  {
    Scan(Keys(d), key, 1, 0)
  }

  // ---------------------------------------------------------------------------
  // Round trips and frames of the writers
  // ---------------------------------------------------------------------------

  /** A write at or past position HEADER leaves the header alone. */
  lemma {:induction false} WriteKeepsHeader(d: seq<byte>, p: nat, s: seq<byte>)
    requires IsBuffer(d) && HEADER <= p && p + |s| <= |d|
    ensures IsBuffer(Write(d, p, s))
    ensures BType(Write(d, p, s)) == BType(d) && NKeys(Write(d, p, s)) == NKeys(d)
  {
    SliceWrite(d, p, s, 0, 2);
    SliceWrite(d, p, s, 2, 4);
    U16Same(Write(d, p, s), d, 0, 0);
    U16Same(Write(d, p, s), d, 2, 2);
  }

  /** set_header: both fields read back and nothing past the header changes. */
  lemma {:induction false} HeaderRoundTrip(d: seq<byte>, btype: nat, nkeys: nat)
    requires IsBuffer(d) && btype < U16_LIMIT && nkeys < U16_LIMIT
    ensures var r := SetHeader(d, btype, nkeys);
      BType(r) == btype && NKeys(r) == nkeys && r[HEADER..|d|] == d[HEADER..|d|]
  {
    var d1 := Write(d, 0, U16Bytes(btype));
    var r := Write(d1, 2, U16Bytes(nkeys));
    U16RoundTrip(d, 0, btype);
    U16RoundTrip(d1, 2, nkeys);
    SliceWrite(d1, 2, U16Bytes(nkeys), 0, 2);
    U16Same(r, d1, 0, 0);
    SliceWrite(d, 0, U16Bytes(btype), HEADER, |d|);
    SliceWrite(d1, 2, U16Bytes(nkeys), HEADER, |d|);
  }

  /** set_pointer: pointer i reads back and every byte outside its 8 bytes is unchanged. */
  lemma {:induction false} PointerRoundTrip(d: seq<byte>, i: nat, v: nat)
    requires IsBuffer(d) && PointerOk(d, i) && v < U64_LIMIT
    ensures var r := SetPointer(d, i, v);
      && BType(r) == BType(d) && NKeys(r) == NKeys(d)
      && PointerOk(r, i) && GetPointer(r, i) == v
      && r[..PointerPos(i)] == d[..PointerPos(i)] && r[PointerPos(i) + 8..] == d[PointerPos(i) + 8..]
  {
    var p := PointerPos(i);
    SetPointerIs(d, i, v);
    WriteKeepsHeader(d, p, U64Bytes(v));
    U64RoundTrip(d, p, v);
    SliceWrite(d, p, U64Bytes(v), 0, p);
    SliceWrite(d, p, U64Bytes(v), p + 8, |d|);
  }

  /** A write that misses pointer i leaves it readable and unchanged. */
  lemma {:induction false} PointerWrite(d: seq<byte>, p: nat, s: seq<byte>, i: nat)
    requires IsBuffer(d) && PointerOk(d, i) && HEADER <= p && p + |s| <= |d|
    requires PointerPos(i) + 8 <= p || p + |s| <= PointerPos(i)
    ensures var r := Write(d, p, s);
      IsBuffer(r) && NKeys(r) == NKeys(d) && PointerOk(r, i) && GetPointer(r, i) == GetPointer(d, i)
  {
    WriteKeepsHeader(d, p, s);
    SliceWrite(d, p, s, PointerPos(i), PointerPos(i) + 8);
    U64Same(Write(d, p, s), d, PointerPos(i), PointerPos(i));
  }

  /** set_offset: slot i reads back when it exists, and every byte outside its 2 bytes is unchanged. */
  lemma {:induction false} OffsetRoundTrip(d: seq<byte>, i: nat, v: nat)
    requires IsBuffer(d) && v < U16_LIMIT && (i < NKeys(d) ==> OffsetOk(d, i))
    ensures var r := SetOffset(d, i, v);
      && BType(r) == BType(d) && NKeys(r) == NKeys(d)
      && (i < NKeys(d) ==> GetOffset(r, i) == v)
      && (i >= NKeys(d) ==> r == d)
      && (i < NKeys(d) ==> var p := OffsetPos(NKeys(d), i); r[..p] == d[..p] && r[p + 2..] == d[p + 2..])
  {
    SetOffsetIs(d, i, v);
    if i < NKeys(d) {
      var p := OffsetPos(NKeys(d), i);
      WriteKeepsHeader(d, p, U16Bytes(v));
      U16RoundTrip(d, p, v);
      SliceWrite(d, p, U16Bytes(v), 0, p);
      SliceWrite(d, p, U16Bytes(v), p + 2, |d|);
    }
  }

  /** A write that misses offset slot i leaves it, and so kvpos(i), readable and unchanged. */
  lemma {:induction false} OffsetWrite(d: seq<byte>, p: nat, s: seq<byte>, i: nat)
    requires IsBuffer(d) && OffsetOk(d, i) && HEADER <= p && p + |s| <= |d|
    requires OffsetPos(NKeys(d), i) + 2 <= p || p + |s| <= OffsetPos(NKeys(d), i)
    ensures var r := Write(d, p, s);
      && IsBuffer(r) && NKeys(r) == NKeys(d) && OffsetOk(r, i)
      && GetOffset(r, i) == GetOffset(d, i) && KvPos(r, i) == KvPos(d, i)
  {
    WriteKeepsHeader(d, p, s);
    SliceWrite(d, p, s, OffsetPos(NKeys(d), i), OffsetPos(NKeys(d), i) + 2);
    U16Same(Write(d, p, s), d, OffsetPos(NKeys(d), i), OffsetPos(NKeys(d), i));
  }

  /** The parts of an entry encoding: both lengths, the key and the value. */
  lemma {:induction false} EntryBytesParts(key: seq<byte>, val: seq<byte>)
    requires |key| < U16_LIMIT && |val| < U16_LIMIT
    ensures var s, k := EntryBytes(key, val), |key|;
      && s[0..2] == U16Bytes(|key|) && s[2..4] == U16Bytes(|val|)
      && s[4..4 + k] == key && s[4 + k..4 + k + |val|] == val
  {
    var a, b := U16Bytes(|key|), U16Bytes(|val|);
    var s := a + b + key + val;
    assert s[0..2] == a;
    assert s[2..4] == b;
    assert s[4..4 + |key|] == key;
    assert s[4 + |key|..4 + |key| + |val|] == val;
  }

  /** An entry encoding at [p, q) reads back as its key and value. */
  lemma {:induction false} EntryDecode(d: seq<byte>, p: nat, q: nat, key: seq<byte>, val: seq<byte>)
    requires |key| < U16_LIMIT && |val| < U16_LIMIT
    requires q == p + HEADER + |key| + |val| && q <= |d| && d[p..q] == EntryBytes(key, val)
    ensures EntryIs(d, p, key, val)
  {
    var k, w := |key|, HEADER + |key| + |val|;
    EntryBytesParts(key, val);
    SliceOfSlice(d, p, w, 0, 2);
    SliceOfSlice(d, p, w, 2, 4);
    SliceOfSlice(d, p, w, 4, 4 + k);
    SliceOfSlice(d, p, w, 4 + k, w);
    U16Decode(d, p, k);
    U16Decode(d, p + 2, |val|);
  }

  /** Entry i reads back as key and value when their encoding sits at kvpos(i), at [a, q). */
  lemma {:induction false} EntryAt(d: seq<byte>, i: nat, a: nat, key: seq<byte>, val: seq<byte>)
    requires IsBuffer(d) && OffsetOk(d, i) && a == KvPos(d, i) && EntryIs(d, a, key, val)
    ensures ValueOk(d, i) && GetKey(d, i) == key && GetValue(d, i) == val
  {
    EntryIsOpen(d, a, key, val);
  }

  /** Pointer i reads the same in a buffer that agrees with d on its slot. */
  lemma {:induction false} PointerSame(d: seq<byte>, r: seq<byte>, i: nat)
    requires IsBuffer(d) && IsBuffer(r) && |r| == |d| && NKeys(r) == NKeys(d) && PointerOk(d, i)
    requires r[PointerPos(i)..PointerPos(i) + 8] == d[PointerPos(i)..PointerPos(i) + 8]
    ensures PointerOk(r, i) && GetPointer(r, i) == GetPointer(d, i)
  {
    U64Same(r, d, PointerPos(i), PointerPos(i));
  }

  /** Offset i, and so kvpos(i), read the same in a buffer that agrees with d on its slot. */
  lemma {:induction false} OffsetSame(d: seq<byte>, r: seq<byte>, i: nat)
    requires IsBuffer(d) && IsBuffer(r) && |r| == |d| && NKeys(r) == NKeys(d) && OffsetOk(d, i)
    requires r[OffsetPos(NKeys(d), i)..OffsetPos(NKeys(d), i) + 2] == d[OffsetPos(NKeys(d), i)..OffsetPos(NKeys(d), i) + 2]
    ensures OffsetOk(r, i) && GetOffset(r, i) == GetOffset(d, i) && KvPos(r, i) == KvPos(d, i)
  {
    U16Same(r, d, OffsetPos(NKeys(d), i), OffsetPos(NKeys(d), i));
  }

  /** The header reads the same in a buffer that agrees with d on its first bytes. */
  lemma {:induction false} HeaderSame(d: seq<byte>, r: seq<byte>, b: nat)
    requires IsBuffer(d) && |r| == |d| && HEADER <= b <= |d| && r[0..b] == d[0..b]
    ensures IsBuffer(r) && BType(r) == BType(d) && NKeys(r) == NKeys(d)
  {
    SubSlice(r, d, 0, b, 0, 2);
    SubSlice(r, d, 0, b, 2, 4);
    U16Same(r, d, 0, 0);
    U16Same(r, d, 2, 2);
  }

  /** Pointer i and offset i read the same in a buffer that agrees with d before the blob. */
  lemma {:induction false} FrontSame(d: seq<byte>, r: seq<byte>, i: nat)
    requires IsBuffer(d) && |r| == |d| && i < NKeys(d) && HEADER + 10 * NKeys(d) <= |d|
    requires r[0..HEADER + 10 * NKeys(d)] == d[0..HEADER + 10 * NKeys(d)]
    ensures IsBuffer(r) && BType(r) == BType(d) && NKeys(r) == NKeys(d)
    ensures PointerOk(d, i) && PointerOk(r, i) && GetPointer(r, i) == GetPointer(d, i)
    ensures OffsetOk(d, i) && OffsetOk(r, i) && GetOffset(r, i) == GetOffset(d, i) && KvPos(r, i) == KvPos(d, i)
  {
    var b := HEADER + 10 * NKeys(d);
    HeaderSame(d, r, b);
    SubSlice(r, d, 0, b, PointerPos(i), PointerPos(i) + 8);
    PointerSame(d, r, i);
    SubSlice(r, d, 0, b, OffsetPos(NKeys(d), i), OffsetPos(NKeys(d), i) + 2);
    OffsetSame(d, r, i);
  }

  /** The entry at position a reads the same in a string that agrees with d on its bytes. */
  lemma {:induction false} FieldsSame(d: seq<byte>, r: seq<byte>, a: nat)
    requires a + HEADER <= |d| && EntryEnd(d, a) <= |d| && |r| == |d|
    requires r[a..EntryEnd(d, a)] == d[a..EntryEnd(d, a)]
    ensures a + HEADER <= |r| && EntryEnd(r, a) == EntryEnd(d, a)
    ensures KeyBytes(r, a) == KeyBytes(d, a) && ValueBytes(r, a) == ValueBytes(d, a)
  {
    var k, q := U16At(d, a), EntryEnd(d, a);
    SubSlice(r, d, a, q, a, a + 2);
    SubSlice(r, d, a, q, a + 2, a + 4);
    U16Same(r, d, a, a);
    U16Same(r, d, a + 2, a + 2);
    SubSlice(r, d, a, q, a + 4, a + 4 + k);
    SubSlice(r, d, a, q, a + 4 + k, q);
  }

  /** An entry's bytes copied from position a of x to position b of y decode the same there. */
  lemma {:induction false} EntryShift(x: seq<byte>, y: seq<byte>, a: nat, b: nat, key: seq<byte>, val: seq<byte>)
    requires EntryIs(x, a, key, val)
    requires a + HEADER + |key| + |val| <= |x| && b + HEADER + |key| + |val| <= |y|
    requires y[b..b + HEADER + |key| + |val|] == x[a..a + HEADER + |key| + |val|]
    ensures EntryIs(y, b, key, val)
  {
    EntryIsOpen(x, a, key, val);
    var k, w := |key|, HEADER + |key| + |val|;
    SliceOfSlice(x, a, w, 0, 2);
    SliceOfSlice(y, b, w, 0, 2);
    SliceOfSlice(x, a, w, 2, 4);
    SliceOfSlice(y, b, w, 2, 4);
    SliceOfSlice(x, a, w, 4, 4 + k);
    SliceOfSlice(y, b, w, 4, 4 + k);
    SliceOfSlice(x, a, w, 4 + k, w);
    SliceOfSlice(y, b, w, 4 + k, w);
    U16Same(y, x, b, a);
    U16Same(y, x, b + 2, a + 2);
    assert EntryIs(y, b, key, val, 0);
  }

  /** Entry i reads the same in a buffer that agrees with d on its offset slot and its bytes. */
  lemma {:induction false} EntrySame(d: seq<byte>, r: seq<byte>, i: nat)
    requires IsBuffer(d) && IsBuffer(r) && |r| == |d| && NKeys(r) == NKeys(d) && ValueOk(d, i)
    requires r[OffsetPos(NKeys(d), i)..OffsetPos(NKeys(d), i) + 2] == d[OffsetPos(NKeys(d), i)..OffsetPos(NKeys(d), i) + 2]
    requires r[KvPos(d, i)..EntryEnd(d, KvPos(d, i))] == d[KvPos(d, i)..EntryEnd(d, KvPos(d, i))]
    ensures OffsetOk(r, i) && KvPos(r, i) == KvPos(d, i)
    ensures ValueOk(r, i) && GetKey(r, i) == GetKey(d, i) && GetValue(r, i) == GetValue(d, i)
  {
    OffsetSame(d, r, i);
    FieldsSame(d, r, KvPos(d, i));
  }

  /** Entry i reads the same after a write that misses its offset slot and its bytes. */
  lemma {:induction false} EntryKept(d: seq<byte>, p: nat, s: seq<byte>, i: nat)
    requires IsBuffer(d) && ValueOk(d, i) && HEADER <= p && p + |s| <= |d|
    requires OffsetPos(NKeys(d), i) + 2 <= p || p + |s| <= OffsetPos(NKeys(d), i)
    requires var q := KvPos(d, i) + HEADER + |GetKey(d, i)| + |GetValue(d, i)|;
      q <= p || p + |s| <= KvPos(d, i)
    ensures var r := Write(d, p, s);
      && IsBuffer(r) && NKeys(r) == NKeys(d) && OffsetOk(r, i) && KvPos(r, i) == KvPos(d, i)
      && ValueOk(r, i) && GetKey(r, i) == GetKey(d, i) && GetValue(r, i) == GetValue(d, i)
  {
    var a := KvPos(d, i);
    var o := OffsetPos(NKeys(d), i);
    WriteKeepsHeader(d, p, s);
    SliceWrite(d, p, s, o, o + 2);
    SliceWrite(d, p, s, a, EntryEnd(d, a));
    EntrySame(d, Write(d, p, s), i);
  }

  /** Writing an entry at kvpos(i) in the blob: it reads back as entry i, and nothing else changes. */
  lemma {:induction false} EntryWrite(d: seq<byte>, i: nat, key: seq<byte>, val: seq<byte>)
    requires IsBuffer(d) && i < NKeys(d) && OffsetOk(d, i)
    requires |key| < U16_LIMIT && |val| < U16_LIMIT && KvPos(d, i) + HEADER + |key| + |val| <= |d|
    ensures var p, q := KvPos(d, i), KvPos(d, i) + HEADER + |key| + |val|;
      var r := PutEntry(d, p, key, val);
      && IsBuffer(r) && BType(r) == BType(d) && NKeys(r) == NKeys(d)
      && OffsetOk(r, i) && GetOffset(r, i) == GetOffset(d, i) && KvPos(r, i) == p
      && ValueOk(r, i) && GetKey(r, i) == key && GetValue(r, i) == val
      && r[0..p] == d[0..p] && r[q..|d|] == d[q..|d|]
  {
    var p := KvPos(d, i);
    var e := EntryBytes(key, val);
    var r := Write(d, p, e);
    OffsetWrite(d, p, e, i);
    WriteInside(d, p, e);
    EntryDecode(r, p, p + |e|, key, val);
    EntryAt(r, i, p, key, val);
    SliceWrite(d, p, e, 0, p);
    SliceWrite(d, p, e, p + |e|, |d|);
  }

  /** Recording offset i+1 leaves pointer i, offset i and entry i as they were. */
  lemma {:induction false} NextOffsetWrite(d: seq<byte>, i: nat, v: nat)
    requires IsBuffer(d) && PointerOk(d, i) && ValueOk(d, i) && v < U16_LIMIT
    requires i + 1 < NKeys(d) ==> OffsetOk(d, i + 1)
    ensures var r := SetOffset(d, i + 1, v);
      && IsBuffer(r) && |r| == |d| && BType(r) == BType(d) && NKeys(r) == NKeys(d)
      && PointerOk(r, i) && GetPointer(r, i) == GetPointer(d, i)
      && OffsetOk(r, i) && GetOffset(r, i) == GetOffset(d, i) && KvPos(r, i) == KvPos(d, i)
      && ValueOk(r, i) && GetKey(r, i) == GetKey(d, i) && GetValue(r, i) == GetValue(d, i)
      && (i + 1 < NKeys(d) ==> OffsetOk(r, i + 1) && GetOffset(r, i + 1) == v)
  {
    SetOffsetIs(d, i + 1, v);
    if i + 1 < NKeys(d) {
      var q := OffsetPos(NKeys(d), i + 1);
      PointerWrite(d, q, U16Bytes(v), i);
      OffsetWrite(d, q, U16Bytes(v), i);
      EntryKept(d, q, U16Bytes(v), i);
      U16RoundTrip(d, q, v);
    }
  }

  /** The first two writes of node_append_kv_pair: pointer i and entry i read back. */
  lemma {:induction false} PointerAndEntry(d: seq<byte>, ptr: nat, i: nat, key: seq<byte>, val: seq<byte>)
    requires IsBuffer(d) && ptr < U64_LIMIT && PointerOk(d, i) && OffsetOk(d, i)
    requires KvPos(d, i) + HEADER + |key| + |val| <= |d|
    ensures var d1 := SetPointer(d, i, ptr);
      && OffsetOk(d1, i) && KvPos(d1, i) == KvPos(d, i)
      && var r := PutEntry(d1, KvPos(d1, i), key, val);
      && IsBuffer(r) && |r| == |d| && BType(r) == BType(d) && NKeys(r) == NKeys(d)
      && PointerOk(r, i) && GetPointer(r, i) == ptr
      && OffsetOk(r, i) && GetOffset(r, i) == GetOffset(d, i) && KvPos(r, i) == KvPos(d, i)
      && ValueOk(r, i) && GetKey(r, i) == key && GetValue(r, i) == val
      && (i + 1 < NKeys(d) ==> OffsetOk(r, i + 1))
  {
    PointerRoundTrip(d, i, ptr);
    SetPointerIs(d, i, ptr);
    OffsetWrite(d, PointerPos(i), U64Bytes(ptr), i);
    var d1 := SetPointer(d, i, ptr);
    var p := KvPos(d, i);
    EntryWrite(d1, i, key, val);
    PointerWrite(d1, p, EntryBytes(key, val), i);
  }

  /**
    The three writes of AppendKVWrite, one after the other: d2 is the buffer
    after the pointer and the entry are written, v the offset recorded next.
  */
  lemma {:induction false} AppendKVWriteIs(d: seq<byte>, ptr: nat, i: nat, key: seq<byte>, val: seq<byte>, d2: seq<byte>, v: nat)
    requires IsBuffer(d) && ptr < U64_LIMIT && PointerOk(d, i) && OffsetOk(d, i)
    requires |key| < U16_LIMIT && |val| < U16_LIMIT && KvPos(d, i) + HEADER + |key| + |val| <= |d|
    requires v == GetOffset(d, i) + HEADER + |key| + |val| && v < U16_LIMIT
    requires d2 == PutEntry(SetPointer(d, i, ptr), KvPos(d, i), key, val)
    ensures IsBuffer(d2) && NKeys(d2) == NKeys(d) && (i + 1 < NKeys(d2) ==> OffsetOk(d2, i + 1))
    ensures AppendKVWrite(d, ptr, i, key, val) == SetOffset(d2, i + 1, v)
  {
    PointerRoundTrip(d, i, ptr);
    SetPointerIs(d, i, ptr);
    OffsetWrite(d, PointerPos(i), U64Bytes(ptr), i);
  }

  /** A successful node_append_kv_pair is the three writes of AppendKVWrite. */
  lemma {:induction false} AppendKVShape(d: seq<byte>, ptr: nat, i: nat, key: seq<byte>, val: seq<byte>)
    requires IsBuffer(d) && ptr < U64_LIMIT && AppendKV(d, ptr, i, key, val).Some?
    ensures PointerOk(d, i) && OffsetOk(d, i) && KvPos(d, i) + HEADER + |key| + |val| <= |d|
    ensures GetOffset(d, i) + HEADER + |key| + |val| < U16_LIMIT
    ensures AppendKV(d, ptr, i, key, val).value == AppendKVWrite(d, ptr, i, key, val)
  {
  }

  /** The three writes: entry i reads back as (ptr, key, val) and offset i+1 is set. */
  lemma {:induction false} AppendKVWriteReads(d: seq<byte>, ptr: nat, i: nat, key: seq<byte>, val: seq<byte>)
    requires IsBuffer(d) && ptr < U64_LIMIT && PointerOk(d, i) && OffsetOk(d, i)
    requires KvPos(d, i) + HEADER + |key| + |val| <= |d|
    requires GetOffset(d, i) + HEADER + |key| + |val| < U16_LIMIT
    ensures var r := AppendKVWrite(d, ptr, i, key, val);
      && BType(r) == BType(d) && NKeys(r) == NKeys(d)
      && PointerOk(r, i) && GetPointer(r, i) == ptr
      && OffsetOk(r, i) && GetOffset(r, i) == GetOffset(d, i) && KvPos(r, i) == KvPos(d, i)
      && ValueOk(r, i) && GetKey(r, i) == key && GetValue(r, i) == val
      && (i + 1 < NKeys(d) ==> OffsetOk(r, i + 1) && GetOffset(r, i + 1) == GetOffset(d, i) + HEADER + |key| + |val|)
  {
    PointerAndEntry(d, ptr, i, key, val);
    var d1 := SetPointer(d, i, ptr);
    var d2 := PutEntry(d1, KvPos(d1, i), key, val);
    NextOffsetWrite(d2, i, GetOffset(d, i) + HEADER + |key| + |val|);
  }

  /**
    After node_append_kv_pair, entry i reads back as (ptr, key, val) and the
    next offset slot, when there is one, points just past the new entry.
  */
  lemma {:induction false} AppendKVRoundTrip(d: seq<byte>, ptr: nat, i: nat, key: seq<byte>, val: seq<byte>)
    requires IsBuffer(d) && ptr < U64_LIMIT && AppendKV(d, ptr, i, key, val).Some?
    ensures var r := AppendKV(d, ptr, i, key, val).value;
      && IsBuffer(r) && |r| == |d| && BType(r) == BType(d) && NKeys(r) == NKeys(d)
      && PointerOk(r, i) && GetPointer(r, i) == ptr
      && OffsetOk(r, i) && GetOffset(r, i) == GetOffset(d, i) && KvPos(r, i) == KvPos(d, i)
      && ValueOk(r, i) && GetKey(r, i) == key && GetValue(r, i) == val
      && (i + 1 < NKeys(d) ==> OffsetOk(r, i + 1) && GetOffset(r, i + 1) == GetOffset(d, i) + HEADER + |key| + |val|)
  {
    AppendKVShape(d, ptr, i, key, val);
    AppendKVWriteReads(d, ptr, i, key, val);
  }

  // ---------------------------------------------------------------------------
  // lookup_key
  // ---------------------------------------------------------------------------

  /** The scan finishes without a panic when every key it may read is readable. */
  lemma {:induction false} ScanSome(ks: seq<Option<seq<byte>>>, key: seq<byte>, i: nat)
    requires i >= 1 && forall j :: i <= j < |ks| ==> ks[j].Some?
    ensures Scan(ks, key, i, i - 1).Some?
    decreases |ks| - i
  {
    if i < |ks| && ks[i].value != [] && LessEq(ks[i].value, key) {
      ScanSome(ks, key, i + 1);
    }
  }

  /** The slot the scan returns is at or past the starting candidate, and a slot once it moved. */
  lemma {:induction false} ScanBounds(ks: seq<Option<seq<byte>>>, key: seq<byte>, i: nat)
    requires i >= 1 && Scan(ks, key, i, i - 1).Some?
    ensures var r := Scan(ks, key, i, i - 1).value;
      i - 1 <= r && (r >= i ==> r < |ks|)
    decreases |ks| - i
  {
    if i < |ks| && ks[i].value != [] && LessEq(ks[i].value, key) {
      ScanBounds(ks, key, i + 1);
    }
  }

  /** Every slot the scan passes over holds a non-empty key at most key. */
  lemma {:induction false} ScanPasses(ks: seq<Option<seq<byte>>>, key: seq<byte>, i: nat)
    requires i >= 1 && Scan(ks, key, i, i - 1).Some?
    ensures var r := Scan(ks, key, i, i - 1).value;
      forall j :: i <= j <= r ==> j < |ks| && ks[j].Some? && ks[j].value != [] && LessEq(ks[j].value, key)
    decreases |ks| - i
  {
    if i < |ks| && ks[i].Some? && ks[i].value != [] && LessEq(ks[i].value, key) {
      assert Scan(ks, key, i, i - 1) == Scan(ks, key, i + 1, i);
      ScanPasses(ks, key, i + 1);
      ScanBounds(ks, key, i + 1);
    }
  }

  /** The scan stops at the end, at an empty key, or at a key greater than key. */
  lemma {:induction false} ScanStops(ks: seq<Option<seq<byte>>>, key: seq<byte>, i: nat)
    requires i >= 1 && Scan(ks, key, i, i - 1).Some?
    ensures var r := Scan(ks, key, i, i - 1).value;
      r + 1 < |ks| ==> ks[r + 1].Some? && (ks[r + 1].value == [] || Less(key, ks[r + 1].value))
    decreases |ks| - i
  {
    if i < |ks| && ks[i].value != [] {
      if LessEq(ks[i].value, key) {
        ScanStops(ks, key, i + 1);
      } else {
        NotLessEq(ks[i].value, key);
      }
    }
  }

  /**
    The scan, started at slot i, reaches slot j and finds its key unreadable:
    every slot before j holds a readable non-empty key at most key.
  */
  predicate ReachesUnreadable(ks: seq<Option<seq<byte>>>, key: seq<byte>, i: nat, j: nat)
  {
    && i <= j < |ks| && ks[j].None?
    && forall m :: i <= m < j ==> ks[m].Some? && ks[m].value != [] && LessEq(ks[m].value, key)
  }

  /** The scan panics exactly when it reaches a slot whose key cannot be read. */
  lemma {:induction false} ScanPanics(ks: seq<Option<seq<byte>>>, key: seq<byte>, i: nat)
    requires i >= 1
    ensures Scan(ks, key, i, i - 1).None? <==> exists j: nat :: ReachesUnreadable(ks, key, i, j)
    decreases |ks| - i
  {
    if i >= |ks| {
    } else if ks[i].None? {
      assert ReachesUnreadable(ks, key, i, i);
    } else if ks[i].value == [] || !LessEq(ks[i].value, key) {
      assert forall j: nat :: !ReachesUnreadable(ks, key, i, j) by {
        forall j: nat | ReachesUnreadable(ks, key, i, j) ensures false {
        }
      }
    } else {
      ScanPanics(ks, key, i + 1);
      assert Scan(ks, key, i, i - 1) == Scan(ks, key, i + 1, i);
      if Scan(ks, key, i, i - 1).None? {
        var j: nat :| ReachesUnreadable(ks, key, i + 1, j);
        assert ReachesUnreadable(ks, key, i, j);
      } else {
        forall j: nat | ReachesUnreadable(ks, key, i, j) ensures false {
          assert j != i;
          assert ReachesUnreadable(ks, key, i + 1, j);
        }
      }
    }
  }
}
