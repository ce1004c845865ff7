/**
  The ordering of keys: byte strings compared lexicographically, a proper
  prefix sorting first (the ordering of Rust's Vec<u8>).
*/
module Order {
  import opened Bytes

  predicate Less(a: seq<byte>, b: seq<byte>)
  {
    if a == [] then b != []
    else if b == [] then false
    else a[0] < b[0] || (a[0] == b[0] && Less(a[1..], b[1..]))
  }

  predicate LessEq(a: seq<byte>, b: seq<byte>)
  {
    a == b || Less(a, b)
  }

  lemma {:induction false} LessIrreflexive(a: seq<byte>)
    ensures !Less(a, a)
  {
    if a != [] {
      LessIrreflexive(a[1..]);
    }
  }

  lemma {:induction false} LessTransitive(a: seq<byte>, b: seq<byte>, c: seq<byte>)
    requires Less(a, b) && Less(b, c)
    ensures Less(a, c)
  {
    if a != [] && b != [] && c != [] && a[0] == b[0] == c[0] {
      LessTransitive(a[1..], b[1..], c[1..]);
    }
  }

  /** Any two distinct keys are ordered one way or the other. */
  lemma {:induction false} LessTotal(a: seq<byte>, b: seq<byte>)
    ensures a == b || Less(a, b) || Less(b, a)
  {
    if a != [] && b != [] && a[0] == b[0] {
      LessTotal(a[1..], b[1..]);
      if a[1..] == b[1..] {
        assert a == [a[0]] + a[1..] && b == [b[0]] + b[1..];
      }
    }
  }

  /** Not less-or-equal means strictly greater. */
  lemma {:induction false} NotLessEq(a: seq<byte>, b: seq<byte>)
    ensures !LessEq(a, b) <==> Less(b, a)
  {
    LessTotal(a, b);
    if Less(b, a) && LessEq(a, b) {
      if a == b {
        LessIrreflexive(a);
      } else {
        LessTransitive(a, b, a);
        LessIrreflexive(a);
      }
    }
  }

  lemma {:induction false} LessEqLessTransitive(a: seq<byte>, b: seq<byte>, c: seq<byte>)
    requires LessEq(a, b) && Less(b, c)
    ensures Less(a, c)
  {
    if a != b {
      LessTransitive(a, b, c);
    }
  }
}
