/**
  Facts about slices and concatenations of sequences, kept apart from the
  node modules so that each is proved in a small context.
*/
module Seqs {
  /** A slice from the start is a prefix. */
  lemma {:induction false} FromStart<T>(s: seq<T>, i: nat)
    requires i <= |s|
    ensures [] + s[0..i] == s[..i]
  {
  }

  /** The prefixes of s with x inserted at i, and the whole rebuilt from them. */
  lemma {:induction false} Insert<T>(s: seq<T>, i: nat, x: T)
    requires i <= |s|
    ensures (s[..i] + [x] + s[i..])[..i] == s[..i]
    ensures (s[..i] + [x] + s[i..])[..i + 1] == s[..i] + [x]
    ensures s[..i] + [x] + s[i..i + (|s| - i)] == s[..i] + [x] + s[i..]
  {
    var t := s[..i] + [x] + s[i..];
    assert t[..i + 1] == s[..i] + [x];
  }

  /** The prefix of s with element i removed, and the whole rebuilt from it. */
  lemma {:induction false} Remove<T>(s: seq<T>, i: nat)
    requires i < |s|
    ensures (s[..i] + s[i + 1..])[..i] == s[..i]
    ensures s[..i] + s[i + 1..i + 1 + (|s| - i - 1)] == s[..i] + s[i + 1..]
  {
  }

  /** The front of a concatenation, and each part as a slice of itself. */
  lemma {:induction false} Concat<T>(a: seq<T>, b: seq<T>)
    ensures (a + b)[..|a|] == a && [] + a[0..|a|] == a && b[0..|b|] == b
  {
  }

  /** A slice as a slice from the start of itself, and the two ends as prefix and suffix. */
  lemma {:induction false} Slice<T>(s: seq<T>, lo: nat, hi: nat)
    requires lo <= hi <= |s|
    ensures [] + s[lo..lo + (hi - lo)] == s[lo..hi]
    ensures s[0..hi] == s[..hi] && s[lo..|s|] == s[lo..]
  {
  }

  /** The prefixes of s with the k elements from i replaced by x, and the whole rebuilt from them. */
  lemma {:induction false} Splice<T>(s: seq<T>, i: nat, x: T, k: nat)
    requires i + k <= |s|
    ensures [] + s[0..i] == s[..i]
    ensures (s[..i] + [x] + s[i + k..])[..i] == s[..i]
    ensures (s[..i] + [x] + s[i + k..])[..i + 1] == s[..i] + [x]
    ensures s[..i] + [x] + s[i + k..i + k + (|s| - i - k)] == s[..i] + [x] + s[i + k..]
  {
    var t := s[..i] + [x] + s[i + k..];
    assert t[..i + 1] == s[..i] + [x];
  }

  /** The prefixes of s with the k elements from i replaced by xs, and the whole rebuilt from them. */
  lemma {:induction false} SpliceN<T>(s: seq<T>, i: nat, xs: seq<T>, k: nat)
    requires i + k <= |s|
    ensures [] + s[0..i] == s[..i]
    ensures (s[..i] + xs + s[i + k..])[..i] == s[..i]
    ensures (s[..i] + xs + s[i + k..])[..i + |xs|] == s[..i] + xs
    ensures s[..i] + xs + s[i + k..i + k + (|s| - i - k)] == s[..i] + xs + s[i + k..]
  {
    var t := s[..i] + xs + s[i + k..];
    assert t[..i + |xs|] == s[..i] + xs;
  }

  /** ps + xs is ps + xs without its last element, then that element. */
  lemma {:induction false} LastOf<T>(ps: seq<T>, xs: seq<T>)
    requires xs != []
    ensures (ps + xs[..|xs| - 1]) + [xs[|xs| - 1]] == ps + xs
    ensures (ps + xs)[..|ps| + |xs| - 1] == ps + xs[..|xs| - 1]
  {
    assert xs[..|xs| - 1] + [xs[|xs| - 1]] == xs;
  }
}
