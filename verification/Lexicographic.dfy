// The order of byte strings.
module Lexicographic {
  import opened Bytes

  // a comes before b: the first byte that differs decides, and a proper prefix comes first.
  predicate Precedes(a: seq<byte>, b: seq<byte>)
    decreases |a|
  {
    if b == [] then false
    else if a == [] then true
    else a[0] < b[0] || (a[0] == b[0] && Precedes(a[1..], b[1..]))
  }

  lemma {:induction false} PrecedesTotal(a: seq<byte>, b: seq<byte>)
    ensures Precedes(a, b) || Precedes(b, a) || a == b
    ensures !(Precedes(a, b) && Precedes(b, a)) && !Precedes(a, a)
    decreases |a|
  {
    if a != [] {
      PrecedesTotal(a[1..], a[1..]);
      if b != [] {
        PrecedesTotal(a[1..], b[1..]);
        assert a == [a[0]] + a[1..] && b == [b[0]] + b[1..];
      }
    }
  }

  lemma {:induction false} PrecedesTransitive(a: seq<byte>, b: seq<byte>, c: seq<byte>)
    requires Precedes(a, b) && Precedes(b, c)
    ensures Precedes(a, c)
    decreases |a|
  {
    if a != [] && a[0] == b[0] && b[0] == c[0] {
      PrecedesTransitive(a[1..], b[1..], c[1..]);
    }
  }

  // What starts with z lies together: a name between two such names starts with z too.
  lemma {:induction false} PrefixBetween(z: seq<byte>, a: seq<byte>, b: seq<byte>, c: seq<byte>)
    requires z <= a && z <= c && !Precedes(b, a) && !Precedes(c, b)
    ensures z <= b
    decreases |z|
  {
    if z != [] {
      assert a != [] && c != [] && a[0] == z[0] == c[0];
      PrecedesTotal(b, a);
      PrecedesTotal(c, b);
      assert b != [];
      assert b[0] == z[0];
      assert z[1..] <= a[1..] && z[1..] <= c[1..];
      PrefixBetween(z[1..], a[1..], b[1..], c[1..]);
      assert z == [z[0]] + z[1..] && b == [b[0]] + b[1..];
    }
  }
}
