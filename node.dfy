/**
  The BNode of src/B_tree.rs as a class over its byte buffer. The writers
  change `data` in place and each is proved to leave exactly the bytes the
  functions of Codec and Range describe; node_append_range keeps the two
  `for` loops of the source and lookup_key its `while` loop, each with the
  invariant that ties the loop to its specification function.

  A method that can panic returns ok (or an Option); ok is false exactly
  where the source panics. What the buffer holds after a panic is not
  specified: node_append_range checks the bounds of its last slots before
  the loops start, so it may stop earlier than the source, which writes
  slots until it reaches the first one out of bounds.
*/
module Node {
  import opened Bytes
  import opened Order
  import opened Codec
  import opened Range

  class BNode {
    var data: seq<byte>

    /** BNode::new: one zeroed page. */
    constructor ()
      ensures data == Zeros(PAGE_SIZE)
    {
      data := Zeros(PAGE_SIZE);
    }

    /** A node over given bytes, as get() and the double-size scratch nodes build one. */
    constructor Of(d: seq<byte>)
      ensures data == d
    {
      data := d;
    }

    /** set_header: both fields read back and nothing past the header changes. */
    method SetHeader(btype: nat, nkeys: nat)
      requires IsBuffer(data) && btype < U16_LIMIT && nkeys < U16_LIMIT
      modifies this
      ensures data == Codec.SetHeader(old(data), btype, nkeys)
      ensures BType(data) == btype && NKeys(data) == nkeys && data[HEADER..] == old(data)[HEADER..]
    {
      HeaderRoundTrip(data, btype, nkeys);
      data := Codec.SetHeader(data, btype, nkeys);
    }

    /** set_pointer: panics unless index < nkeys and the slot is inside the buffer; the pointer reads back. */
    method SetPointer(i: nat, v: nat) returns (ok: bool)
      requires IsBuffer(data) && v < U64_LIMIT
      modifies this
      ensures ok == PointerOk(old(data), i)
      ensures ok ==> data == Codec.SetPointer(old(data), i, v) && GetPointer(data, i) == v
      ensures !ok ==> data == old(data)
    {
      ok := PointerOk(data, i);
      if ok {
        PointerRoundTrip(data, i, v);
        data := Codec.SetPointer(data, i, v);
      }
    }

    /** set_offset: writes only slots below nkeys, and panics when such a slot lies past the buffer. */
    method SetOffset(i: nat, v: nat) returns (ok: bool)
      requires IsBuffer(data) && v < U16_LIMIT
      modifies this
      ensures ok == (i < NKeys(old(data)) ==> OffsetOk(old(data), i))
      ensures ok ==> data == Codec.SetOffset(old(data), i, v)
      ensures ok && i < NKeys(old(data)) ==> GetOffset(data, i) == v
      ensures !ok || i >= NKeys(old(data)) ==> data == old(data)
    {
      ok := i < NKeys(data) ==> OffsetOk(data, i);
      if ok {
        OffsetRoundTrip(data, i, v);
        data := Codec.SetOffset(data, i, v);
      }
    }

    /**
      node_append_kv_pair: pointer i, the entry at kvpos(i), then offset i+1.
      The pointer, key and value of slot i read back, and offset i+1 records
      where the next entry goes.
    */
    method AppendPair(ptr: nat, i: nat, key: seq<byte>, val: seq<byte>) returns (ok: bool)
      requires IsBuffer(data) && ptr < U64_LIMIT
      modifies this
      ensures ok == Codec.AppendKV(old(data), ptr, i, key, val).Some?
      ensures ok ==> data == Codec.AppendKV(old(data), ptr, i, key, val).value
      ensures ok ==> && PointerOk(data, i) && GetPointer(data, i) == ptr
                     && ValueOk(data, i) && GetKey(data, i) == key && GetValue(data, i) == val
      ensures !ok ==> data == old(data)
    {
      if || !PointerOk(data, i) || !OffsetOk(data, i) || KvPos(data, i) + HEADER + |key| + |val| > |data|
         || GetOffset(data, i) + HEADER + |key| + |val| >= U16_LIMIT {
        return false;
      }
      AppendKVRoundTrip(data, ptr, i, key, val);
      var base := GetOffset(data, i);
      PointerRoundTrip(data, i, ptr);
      SetPointerIs(data, i, ptr);
      OffsetWrite(data, PointerPos(i), U64Bytes(ptr), i);
      data := Codec.SetPointer(data, i, ptr);
      data := PutEntry(data, KvPos(data, i), key, val);
      data := Codec.SetOffset(data, i + 1, base + HEADER + |key| + |val|);
      ok := true;
    }

    /**
      node_append_range(from, this, dst, src, n): the pointer loop, the offset
      loop, the byte copy and the closing set_offset, run in place. The new
      bytes are those of Range.AppendRange, and ok is false exactly where it
      is None.
    */
    method AppendRange(from: BNode, dst: nat, src: nat, n: nat) returns (ok: bool)
      requires from != this && IsBuffer(data) && IsBuffer(from.data)
      modifies this
      ensures ok == Range.AppendRange(from.data, old(data), dst, src, n).Some?
      ensures ok ==> data == Range.AppendRange(from.data, old(data), dst, src, n).value
    {
      RangeOpen(from.data, data, dst, src, n);
      if dst + n >= U16_LIMIT || dst + n > NKeys(data) || src + n >= U16_LIMIT {
        return false;
      }
      if src + n > NKeys(from.data) || n == 0 {
        return true;
      }
      if !PointerOk(from.data, src + n - 1) || !PointerOk(data, dst + n - 1) {
        return false;
      }
      CopyPointerSlots(from, dst, src, n);
      if !OffsetOk(data, dst + n - 1) || !OffsetOk(from.data, src + n - 1) {
        return false;
      }
      ok := RebaseOffsetSlots(from, dst, src, GetOffset(data, dst), GetOffset(from.data, src), n);
      if !ok {
        return;
      }
      ok := CopyBytes(from, dst, src, src + n);
      if !ok {
        return;
      }
      ok := CloseOffsets(dst + n);
    }

    /** The pointer loop of node_append_range: the stage CopyPointers. */
    method CopyPointerSlots(from: BNode, dst: nat, src: nat, n: nat)
      requires from != this && IsBuffer(data) && IsBuffer(from.data) && n >= 1
      requires PointerOk(from.data, src + n - 1) && PointerOk(data, dst + n - 1)
      modifies this
      ensures data == CopyPointers(from.data, old(data), dst, src, n)
    {
      var i := 0;
      while i < n
        invariant 0 <= i <= n
        invariant data == CopyPointers(from.data, old(data), dst, src, i)
      {
        data := Codec.SetPointer(data, dst + i, GetPointer(from.data, src + i));
        i := i + 1;
      }
    }

    /**
      The offset loop of node_append_range: slot dst+i takes ns + offset(src+i) - os,
      the stage RebaseOffsets; the u16 arithmetic panics on overflow and underflow.
    */
    method RebaseOffsetSlots(from: BNode, dst: nat, src: nat, ns: nat, os: nat, n: nat) returns (ok: bool)
      requires from != this && IsBuffer(data) && IsBuffer(from.data)
      requires n > 0 ==> OffsetOk(from.data, src + n - 1) && dst + n - 1 < NKeys(data) && OffsetOk(data, dst + n - 1)
      modifies this
      ensures ok == RebaseOffsets(from.data, old(data), dst, src, ns, os, n).Some?
      ensures ok ==> data == RebaseOffsets(from.data, old(data), dst, src, ns, os, n).value
    {
      ghost var into := data;
      var i := 0;
      while i < n
        invariant 0 <= i <= n
        invariant RebaseOffsets(from.data, into, dst, src, ns, os, i) == Some(data)
      {
        var v := ns + GetOffset(from.data, src + i);
        if v >= U16_LIMIT || v < os {
          RebaseStaysNone(from.data, into, dst, src, ns, os, i + 1, n);
          return false;
        }
        data := Codec.SetOffset(data, dst + i, v - os);
        i := i + 1;
      }
      ok := true;
    }

    /** The byte copy of node_append_range: the stage CopyBlob. */
    method CopyBytes(from: BNode, dst: nat, src: nat, index: nat) returns (ok: bool)
      requires from != this && IsBuffer(data) && IsBuffer(from.data) && src < index <= NKeys(from.data)
      requires OffsetOk(from.data, src) && OffsetOk(data, dst)
      modifies this
      ensures ok == CopyBlob(from.data, old(data), dst, src, index).Some?
      ensures ok ==> data == CopyBlob(from.data, old(data), dst, src, index).value
    {
      var end: nat;
      if index == NKeys(from.data) {
        if !ValueOk(from.data, index - 1) {
          return false;
        }
        end := KvPos(from.data, index - 1) + HEADER + |GetKey(from.data, index - 1)| + |GetValue(from.data, index - 1)|;
      } else {
        if !OffsetOk(from.data, index) {
          return false;
        }
        end := KvPos(from.data, index);
      }
      var begin, at := KvPos(from.data, src), KvPos(data, dst);
      if at + end < begin || end < begin || |from.data| < end || |data| < at + end - begin {
        return false;
      }
      data := Write(data, at, from.data[begin..end]);
      ok := true;
    }

    /** The closing set_offset of node_append_range: the stage CloseRange. */
    method CloseOffsets(k: nat) returns (ok: bool)
      requires IsBuffer(data) && 1 <= k
      modifies this
      ensures ok == CloseRange(old(data), k).Some?
      ensures ok ==> data == CloseRange(old(data), k).value
    {
      if !ValueOk(data, k - 1) {
        return false;
      }
      var v := GetOffset(data, k - 1) + HEADER + |GetKey(data, k - 1)| + |GetValue(data, k - 1)|;
      if v >= U16_LIMIT || (k < NKeys(data) && !OffsetOk(data, k)) {
        return false;
      }
      data := Codec.SetOffset(data, k, v);
      ok := true;
    }

    /**
      lookup_key: from slot 1, the last slot whose key is at most key, stopping
      at the first empty key or the first key above key; slot 0 when there is
      none. None where get_key panics.
    */
    method LookupKey(key: seq<byte>) returns (r: Option<nat>)
      requires IsBuffer(data)
      ensures r == Lookup(data, key)
    {
      var found, i := 0, 1;
      while i < NKeys(data)
        invariant 1 <= i
        invariant Scan(Keys(data), key, i, found) == Lookup(data, key)
        decreases NKeys(data) - i
      {
        if !KeyOk(data, i) {
          return None;
        }
        var k := GetKey(data, i);
        if k == [] {
          break;
        }
        if LessEq(k, key) {
          found := i;
        } else {
          break;
        }
        i := i + 1;
      }
      return Some(found);
    }
  }

  /** Once a round of the offset loop panics, the whole loop does. */
  lemma {:induction false} RebaseStaysNone(from: seq<byte>, into: seq<byte>, dst: nat, src: nat, ns: nat, os: nat, k: nat, m: nat)
    requires IsBuffer(from) && IsBuffer(into) && k <= m
    requires m > 0 ==> OffsetOk(from, src + m - 1) && dst + m - 1 < NKeys(into) && OffsetOk(into, dst + m - 1)
    requires k > 0 ==> OffsetOk(from, src + k - 1) && dst + k - 1 < NKeys(into) && OffsetOk(into, dst + k - 1)
    requires RebaseOffsets(from, into, dst, src, ns, os, k) == None
    ensures RebaseOffsets(from, into, dst, src, ns, os, m) == None
    decreases m - k
  {
    if k < m {
      RebaseStaysNone(from, into, dst, src, ns, os, k + 1, m);
    }
  }
}
