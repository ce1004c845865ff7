/**
  Bytes, fixed-width little-endian integers, and in-place writes into a byte
  string. The source stores its 16-bit and 64-bit fields in native byte order;
  this model fixes little-endian order.

  A field is read as the little-endian value of a slice, so two buffers whose
  slices at the field are equal read the same value, without looking at the
  bytes one by one.
*/
module Bytes {

  type byte = x: int | 0 <= x < 256

  /** The outcome of a computation that may abort: None stands for a panic. */
  datatype Option<+T> = None | Some(value: T)

  const U16_LIMIT: nat := 0x1_0000
  const U64_LIMIT: nat := 0x1_0000_0000_0000_0000

  /** 256 to the power n: the number of values n bytes can hold. */
  function Pow256(n: nat): nat
  {
    if n == 0 then 1 else 256 * Pow256(n - 1)
  }

  lemma {:induction false} Pow256Limits()
    ensures Pow256(2) == U16_LIMIT && Pow256(8) == U64_LIMIT
  {
  }

  /** The little-endian value of a byte string: first byte least significant. */
  function LE(s: seq<byte>): nat
  {
    if s == [] then 0 else s[0] + 256 * LE(s[1..])
  }

  /** The n-byte little-endian encoding of v. */
  function LEBytes(v: nat, n: nat): (s: seq<byte>)
    requires v < Pow256(n)
    ensures |s| == n
  {
    if n == 0 then [] else [v % 256] + LEBytes(v / 256, n - 1)
  }

  lemma {:induction false} LEBound(s: seq<byte>)
    ensures LE(s) < Pow256(|s|)
    decreases |s|
  {
    if s != [] {
      LEBound(s[1..]);
    }
  }

  /** Decoding an encoding gives back the value. */
  lemma {:induction false} LERoundTrip(v: nat, n: nat)
    requires v < Pow256(n)
    ensures LE(LEBytes(v, n)) == v
  {
    if n > 0 {
      var s := LEBytes(v, n);
      assert s[0] == v % 256 && s[1..] == LEBytes(v / 256, n - 1);
      LERoundTrip(v / 256, n - 1);
    }
  }

  /**
    A 16-bit little-endian field read at position p. The definition is kept
    behind `depth` unfoldings: a field read elsewhere in a proof stays a
    single term, and U16Open and U16Same look at its bytes.
  */
  function U16At(d: seq<byte>, p: nat, depth: nat := 2): (v: nat)
    requires p + 2 <= |d|
    ensures v < U16_LIMIT
    decreases |d|, depth
  {
    if depth > 0 then U16At(d, p, depth - 1)
    else
      LEBound(d[p..p + 2]);
      Pow256Limits();
      LE(d[p..p + 2])
  }

  lemma {:induction false} U16Open(d: seq<byte>, p: nat)
    requires p + 2 <= |d|
    ensures U16At(d, p) == LE(d[p..p + 2])
  {
    assert U16At(d, p, 0) == LE(d[p..p + 2]);
  }

  /** Equal bytes read as equal fields. */
  lemma {:induction false} U16Same(d: seq<byte>, e: seq<byte>, p: nat, q: nat)
    requires p + 2 <= |d| && q + 2 <= |e| && d[p..p + 2] == e[q..q + 2]
    ensures U16At(d, p) == U16At(e, q)
  {
    U16Open(d, p);
    U16Open(e, q);
  }

  function U16Bytes(v: nat): (s: seq<byte>)
    requires v < U16_LIMIT
    ensures |s| == 2
  {
    Pow256Limits();
    LEBytes(v, 2)
  }

  /** A 64-bit little-endian field read at position p, kept behind `depth` unfoldings like U16At. */
  function U64At(d: seq<byte>, p: nat, depth: nat := 2): (v: nat)
    requires p + 8 <= |d|
    ensures v < U64_LIMIT
    decreases |d|, depth
  {
    if depth > 0 then U64At(d, p, depth - 1)
    else
      LEBound(d[p..p + 8]);
      Pow256Limits();
      LE(d[p..p + 8])
  }

  lemma {:induction false} U64Open(d: seq<byte>, p: nat)
    requires p + 8 <= |d|
    ensures U64At(d, p) == LE(d[p..p + 8])
  {
    assert U64At(d, p, 0) == LE(d[p..p + 8]);
  }

  /** Equal bytes read as equal fields. */
  lemma {:induction false} U64Same(d: seq<byte>, e: seq<byte>, p: nat, q: nat)
    requires p + 8 <= |d| && q + 8 <= |e| && d[p..p + 8] == e[q..q + 8]
    ensures U64At(d, p) == U64At(e, q)
  {
    U64Open(d, p);
    U64Open(e, q);
  }

  function U64Bytes(v: nat): (s: seq<byte>)
    requires v < U64_LIMIT
    ensures |s| == 8
  {
    Pow256Limits();
    LEBytes(v, 8)
  }

  /**
    d with the bytes from position p on replaced by s (a slice copy), one
    byte at a time. The definition is kept behind `depth` unfoldings, so that
    proofs about buffers see a write only through WriteAt and the lemmas
    built on it.
  */
  function Write(d: seq<byte>, p: nat, s: seq<byte>, depth: nat := 2): (r: seq<byte>)
    requires p + |s| <= |d|
    ensures |r| == |d|
    decreases |s|, depth
  {
    if depth > 0 then Write(d, p, s, depth - 1)
    else if s == [] then d
    else Write(d[p := s[0]], p + 1, s[1..], 0)
  }

  /** Byte j after a write: from s inside the written range, from d outside it. */
  lemma {:induction false} WriteAt(d: seq<byte>, p: nat, s: seq<byte>, j: nat)
    requires p + |s| <= |d| && j < |d|
    ensures Write(d, p, s)[j] == if p <= j < p + |s| then s[j - p] else d[j]
    decreases |s|
  {
    assert Write(d, p, s) == Write(d, p, s, 0);
    if s != [] {
      WriteAt(d[p := s[0]], p + 1, s[1..], j);
      assert Write(d[p := s[0]], p + 1, s[1..]) == Write(d[p := s[0]], p + 1, s[1..], 0);
    }
  }

  /** All bytes zero: a freshly allocated buffer. */
  function Zeros(n: nat): (r: seq<byte>)
    ensures |r| == n && forall j :: 0 <= j < n ==> r[j] == 0
  {
    seq(n, _ => 0)
  }

  /** A write puts s at position p. */
  lemma {:induction false} WriteInside(d: seq<byte>, p: nat, s: seq<byte>)
    requires p + |s| <= |d|
    ensures Write(d, p, s)[p..p + |s|] == s
  {
    var r := Write(d, p, s);
    forall k | 0 <= k < |s|
      ensures r[p..p + |s|][k] == s[k]
    {
      WriteAt(d, p, s, p + k);
    }
  }

  /** A write leaves alone every slice it does not overlap. */
  lemma {:induction false} SliceWrite(d: seq<byte>, p: nat, s: seq<byte>, lo: nat, hi: nat)
    requires p + |s| <= |d| && lo <= hi <= |d| && (hi <= p || p + |s| <= lo)
    ensures Write(d, p, s)[lo..hi] == d[lo..hi]
  {
    var r := Write(d, p, s);
    forall k | 0 <= k < hi - lo
      ensures r[lo..hi][k] == d[lo..hi][k]
    {
      WriteAt(d, p, s, lo + k);
    }
  }

  /** A slice is the concatenation of its two halves. */
  lemma {:induction false} SliceSplit(d: seq<byte>, lo: nat, mid: nat, hi: nat)
    requires lo <= mid <= hi <= |d|
    ensures d[lo..hi] == d[lo..mid] + d[mid..hi]
  {
  }

  /** A slice of a slice is a slice of the whole. */
  lemma {:induction false} SliceOfSlice(d: seq<byte>, b: nat, len: nat, lo: nat, hi: nat)
    requires b + len <= |d| && lo <= hi <= len
    ensures d[b..b + len][lo..hi] == d[b + lo..b + hi]
  {
    var s, t := d[b..b + len][lo..hi], d[b + lo..b + hi];
    assert forall k :: 0 <= k < |s| ==> s[k] == t[k];
  }

  /** Two strings equal on a slice are equal on every slice inside it. */
  lemma {:induction false} SubSlice(d: seq<byte>, e: seq<byte>, lo: nat, hi: nat, lo': nat, hi': nat)
    requires lo <= lo' <= hi' <= hi <= |d| && hi <= |e| && d[lo..hi] == e[lo..hi]
    ensures d[lo'..hi'] == e[lo'..hi']
  {
    SliceOfSlice(d, lo, hi - lo, lo' - lo, hi' - lo);
    SliceOfSlice(e, lo, hi - lo, lo' - lo, hi' - lo);
  }

  /** A slice inside the first n bytes reads the same in the prefix. */
  lemma {:induction false} PrefixSlice(d: seq<byte>, n: nat, a: nat, b: nat)
    requires a <= b <= n <= |d|
    ensures d[..n][a..b] == d[a..b]
  {
    assert forall k :: 0 <= k < b - a ==> d[..n][a..b][k] == d[a..b][k];
  }

  /** Reading back the bytes of a 16-bit field gives its value. */
  lemma {:induction false} U16Decode(d: seq<byte>, p: nat, v: nat)
    requires p + 2 <= |d| && v < U16_LIMIT && d[p..p + 2] == U16Bytes(v)
    ensures U16At(d, p) == v
  {
    Pow256Limits();
    LERoundTrip(v, 2);
    U16Open(d, p);
  }

  lemma {:induction false} U64Decode(d: seq<byte>, p: nat, v: nat)
    requires p + 8 <= |d| && v < U64_LIMIT && d[p..p + 8] == U64Bytes(v)
    ensures U64At(d, p) == v
  {
    Pow256Limits();
    LERoundTrip(v, 8);
    U64Open(d, p);
  }

  /** Writing a 16-bit field and reading it back gives the value written. */
  lemma {:induction false} U16RoundTrip(d: seq<byte>, p: nat, v: nat)
    requires p + 2 <= |d| && v < U16_LIMIT
    ensures U16At(Write(d, p, U16Bytes(v)), p) == v
  {
    WriteInside(d, p, U16Bytes(v));
    U16Decode(Write(d, p, U16Bytes(v)), p, v);
  }

  lemma {:induction false} U64RoundTrip(d: seq<byte>, p: nat, v: nat)
    requires p + 8 <= |d| && v < U64_LIMIT
    ensures U64At(Write(d, p, U64Bytes(v)), p) == v
  {
    WriteInside(d, p, U64Bytes(v));
    U64Decode(Write(d, p, U64Bytes(v)), p, v);
  }
}
