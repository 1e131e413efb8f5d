// Octets, the option shape, and sequences put together.
module Bytes {
  type byte = x: int | 0 <= x < 256

  datatype Option<+T> = None | Some(value: T)

  lemma Associative<T>(a: seq<T>, b: seq<T>, c: seq<T>)
    ensures a + (b + c) == (a + b) + c
  {
  }

  // One more element copied over what was there.
  lemma CopyOne<T>(was: seq<T>, data: seq<T>, at: nat, i: nat)
    requires at + i < |was| && i < |data|
    ensures (was[..at] + data[..i] + was[at + i..])[at + i := data[i]] == was[..at] + data[..i + 1] + was[at + i + 1..]
  {
  }

  // The pieces, one after the other.
  function Concat<T>(ds: seq<seq<T>>): (d: seq<T>)
  {
    if ds == [] then [] else ds[0] + Concat(ds[1..])
  }

  lemma {:induction false} ConcatBoth<T>(a: seq<seq<T>>, b: seq<seq<T>>)
    ensures Concat(a + b) == Concat(a) + Concat(b)
  {
    if a == [] {
      assert a + b == b && [] + Concat(b) == Concat(b);
    } else {
      ConcatBoth(a[1..], b);
      assert (a + b)[1..] == a[1..] + b;
      Associative(a[0], Concat(a[1..]), Concat(b));
    }
  }

  lemma ConcatOne<T>(d: seq<T>)
    ensures Concat([d]) == d
  {
    assert [d][1..] == [];
    assert d + [] == d;
  }

  lemma ConcatMore<T>(ds: seq<seq<T>>, d: seq<T>)
    ensures Concat(ds + [d]) == Concat(ds) + d
  {
    ConcatBoth(ds, [d]);
    ConcatOne(d);
  }

  lemma ConcatNext<T>(ds: seq<seq<T>>, i: nat)
    requires i < |ds|
    ensures Concat(ds[..i + 1]) == Concat(ds[..i]) + ds[i]
  {
    assert ds[..i + 1] == ds[..i] + [ds[i]];
    ConcatMore(ds[..i], ds[i]);
  }
}
