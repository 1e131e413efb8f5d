// The first phase of qsufsort (bsdiff.c:126-137): suffixes sorted by their first byte.
module BucketSort {
  import opened Bytes
  import opened SuffixOrder
  import opened SuffixRanks

  // How many of the first n bytes of s equal c.
  function Occurs(s: seq<byte>, n: nat, c: int): (r: nat)
    requires n <= |s|
    ensures r <= n
  {
    if n == 0 then 0 else Occurs(s, n - 1, c) + if s[n - 1] == c then 1 else 0
  }

  // How many bytes of s are below c.
  function Below(s: seq<byte>, c: nat): (r: nat)
  {
    if c == 0 then 0 else Below(s, c - 1) + Occurs(s, |s|, c - 1)
  }

  lemma {:induction false} BelowMonotone(s: seq<byte>, c: nat, d: nat)
    requires c <= d
    ensures Below(s, c) <= Below(s, d)
    decreases d
  {
    if c < d {
      BelowMonotone(s, c, d - 1);
    }
  }

  // Bytes below c among the first n, to count them all.
  function BelowIn(s: seq<byte>, n: nat, c: nat): (r: nat)
    requires n <= |s|
  {
    if c == 0 then 0 else BelowIn(s, n, c - 1) + Occurs(s, n, c - 1)
  }

  lemma {:induction false} BelowInStep(s: seq<byte>, n: nat, c: nat)
    requires n < |s|
    ensures BelowIn(s, n + 1, c) == BelowIn(s, n, c) + if s[n] < c then 1 else 0
  {
    if c > 0 {
      BelowInStep(s, n, c - 1);
    }
  }

  lemma {:induction false} BelowInAll(s: seq<byte>, n: nat)
    requires n <= |s|
    ensures BelowIn(s, n, 256) == n
  {
    if n > 0 {
      BelowInAll(s, n - 1);
      BelowInStep(s, n - 1, 256);
    } else {
      BelowInNone(s, 256);
    }
  }

  lemma {:induction false} BelowInNone(s: seq<byte>, c: nat)
    ensures BelowIn(s, 0, c) == 0
  {
    if c > 0 {
      BelowInNone(s, c - 1);
    }
  }

  lemma {:induction false} BelowIsBelowIn(s: seq<byte>, c: nat)
    ensures Below(s, c) == BelowIn(s, |s|, c)
  {
    if c > 0 {
      BelowIsBelowIn(s, c - 1);
    }
  }

  lemma BelowAll(s: seq<byte>)
    ensures Below(s, 256) == |s|
  {
    BelowIsBelowIn(s, 256);
    BelowInAll(s, |s|);
  }

  lemma {:induction false} OccursMonotone(s: seq<byte>, n: nat, m: nat, c: int)
    requires n <= m <= |s|
    ensures Occurs(s, n, c) <= Occurs(s, m, c)
    decreases m
  {
    if n < m {
      OccursMonotone(s, n, m - 1, c);
    }
  }

  // The byte whose bucket holds position k, for positions 1..|s|.
  lemma {:induction false} BucketOf(s: seq<byte>, k: int, c: nat) returns (d: nat)
    requires 0 < k <= Below(s, c)
    ensures d < c && Below(s, d) < k <= Below(s, d + 1)
  {
    if k <= Below(s, c - 1) {
      d := BucketOf(s, k, c - 1);
    } else {
      d := c - 1;
    }
  }

  // Count the bytes, then turn the counts into the last position before each bucket
  // (bsdiff.c:126-130).
  method FillBuckets(s: seq<byte>) returns (buckets: array<int>)
    ensures fresh(buckets) && buckets.Length == 256
    ensures Ends(s, 0, buckets[..])
  {
    buckets := new int[256](_ => 0);
    var i := 0;
    while i < |s|
      invariant 0 <= i <= |s|
      invariant forall c :: 0 <= c < 256 ==> buckets[c] == Occurs(s, i, c)
    {
      buckets[s[i]] := buckets[s[i]] + 1;
      i := i + 1;
    }
    i := 1;
    assert Below(s, 1) == Below(s, 0) + Occurs(s, |s|, 0);
    while i < 256
      invariant 1 <= i <= 256
      invariant forall c :: 0 <= c < i ==> buckets[c] == Below(s, c + 1)
      invariant forall c :: i <= c < 256 ==> buckets[c] == Occurs(s, |s|, c)
    {
      buckets[i] := buckets[i] + buckets[i - 1];
      i := i + 1;
    }
    i := 255;
    while i > 0
      invariant 0 <= i <= 255
      invariant forall c :: 0 <= c <= i ==> buckets[c] == Below(s, c + 1)
      invariant forall c :: i < c < 256 ==> buckets[c] == Below(s, c)
    {
      buckets[i] := buckets[i - 1];
      i := i - 1;
    }
    buckets[0] := 0;
  }

  // B holds the ends of the buckets after the first n suffixes.
  ghost predicate Ends(s: seq<byte>, n: nat, B: seq<int>)
  {
    n <= |s| && |B| == 256 && forall c :: 0 <= c < 256 ==> B[c] == Below(s, c) + Occurs(s, n, c)
  }

  // The first n suffixes stand in I, at the positions Q gives, within their buckets.
  ghost predicate Standing(s: seq<byte>, n: nat, B: seq<int>, I: seq<int>, Q: seq<int>)
  {
    && n <= |s| && |B| == 256 && |I| == |s| + 1 == |Q|
    && (forall a :: 0 <= a < n ==> Below(s, s[a]) < Q[a] <= B[s[a]] && Q[a] <= |s| && I[Q[a]] == a)
  }

  // The filled part of every bucket holds suffixes that belong there.
  ghost predicate Filled(s: seq<byte>, n: nat, B: seq<int>, I: seq<int>, Q: seq<int>)
  {
    && n <= |s| && |B| == 256 && |I| == |s| + 1 == |Q|
    && (forall c, k {:trigger Below(s, c), I[k]} :: 0 <= c < 256 && Below(s, c) < k <= B[c] && k <= |s| ==>
          0 <= I[k] < n && s[I[k]] == c && Q[I[k]] == k)
  }

  ghost predicate Placed(s: seq<byte>, n: nat, B: seq<int>, I: seq<int>, Q: seq<int>)
  {
    Ends(s, n, B) && Standing(s, n, B, I, Q) && Filled(s, n, B, I, Q)
  }

  lemma BucketRoom(s: seq<byte>, n: nat, c: nat)
    requires n <= |s| && c < 256
    ensures Below(s, c) + Occurs(s, n, c) <= Below(s, c + 1) <= |s|
  {
    OccursMonotone(s, n, |s|, c);
    BelowMonotone(s, c + 1, 256);
    BelowAll(s);
  }

  // Distinct bytes have disjoint buckets.
  lemma BucketsApart(s: seq<byte>, c: nat, d: nat, k: int)
    requires c < 256 && d < 256 && Below(s, c) < k <= Below(s, c + 1) && Below(s, d) < k <= Below(s, d + 1)
    ensures c == d
  {
    if c < d {
      BelowMonotone(s, c + 1, d);
    } else if d < c {
      BelowMonotone(s, d + 1, c);
    }
  }

  // The slot the next suffix goes to is in no bucket's filled part.
  lemma SlotFree(s: seq<byte>, n: nat, d: nat, k: int)
    requires n < |s| && d < 256 && k == Below(s, s[n]) + Occurs(s, n, s[n]) + 1
    ensures 0 < k <= |s|
    ensures !(Below(s, d) < k <= Below(s, d) + Occurs(s, n, d))
  {
    BucketRoom(s, n + 1, s[n]);
    BucketRoom(s, n, d);
    if Below(s, d) < k <= Below(s, d) + Occurs(s, n, d) {
      BucketsApart(s, d, s[n], k);
    }
  }

  lemma PlaceEnds(s: seq<byte>, n: nat, B: seq<int>)
    requires Ends(s, n, B) && n < |s|
    ensures Ends(s, n + 1, B[s[n] := B[s[n]] + 1])
  {
  }

  lemma PlaceStanding(s: seq<byte>, n: nat, B: seq<int>, I: seq<int>, Q: seq<int>, k: int)
    requires Standing(s, n, B, I, Q) && n < |s| && k == B[s[n]] + 1 && Below(s, s[n]) < k <= |s|
    requires forall a :: 0 <= a < n ==> Q[a] != k
    ensures Standing(s, n + 1, B[s[n] := k], I[k := n], Q[n := k])
  {
  }

  lemma PlaceFilled(s: seq<byte>, n: nat, B: seq<int>, I: seq<int>, Q: seq<int>, k: int)
    requires Filled(s, n, B, I, Q) && n < |s| && k == B[s[n]] + 1 && 0 < k <= |s|
    requires forall d :: 0 <= d < 256 ==> !(Below(s, d) < k <= B[d])
    ensures Filled(s, n + 1, B[s[n] := k], I[k := n], Q[n := k])
  {
    var B', I', Q' := B[s[n] := k], I[k := n], Q[n := k];
    forall d, l {:trigger Below(s, d), I'[l]} | 0 <= d < 256 && Below(s, d) < l <= B'[d] && l <= |s|
      ensures 0 <= I'[l] < n + 1 && s[I'[l]] == d && Q'[I'[l]] == l
    {
      if l != k {
        assert l <= B[d] && I'[l] == I[l];
      }
    }
  }

  lemma PlaceNext(s: seq<byte>, n: nat, B: seq<int>, I: seq<int>, Q: seq<int>, k: int)
    requires Placed(s, n, B, I, Q) && n < |s| && k == B[s[n]] + 1
    ensures 0 < k <= |s| && Placed(s, n + 1, B[s[n] := k], I[k := n], Q[n := k])
  {
    SlotFree(s, n, s[n], k);
    forall a | 0 <= a < n
      ensures Q[a] != k
    {
      SlotFree(s, n, s[a], k);
    }
    forall d | 0 <= d < 256
      ensures !(Below(s, d) < k <= B[d])
    {
      SlotFree(s, n, d, k);
    }
    PlaceEnds(s, n, B);
    PlaceStanding(s, n, B, I, Q, k);
    PlaceFilled(s, n, B, I, Q, k);
  }

  lemma PlacedNone(s: seq<byte>, B: seq<int>, I: seq<int>, Q: seq<int>)
    requires Ends(s, 0, B) && |I| == |s| + 1 == |Q|
    ensures Placed(s, 0, B, I, Q)
  {
  }

  // Put one suffix at the end of its bucket's filled part.
  method PlaceOne(I: array<int>, buckets: array<int>, s: seq<byte>, i: nat, ghost Q0: seq<int>)
    returns (ghost Q: seq<int>)
    requires I != buckets && i < |s| && Placed(s, i, buckets[..], I[..], Q0)
    modifies I, buckets
    ensures Placed(s, i + 1, buckets[..], I[..], Q)
  {
    ghost var B, J := buckets[..], I[..];
    var k := buckets[s[i]] + 1;
    PlaceNext(s, i, B, J, Q0, k);
    buckets[s[i]] := k;
    I[k] := i;
    assert buckets[..] == B[s[i] := k] && I[..] == J[k := i];
    Q := Q0[i := k];
  }

  // Put every suffix into its bucket (bsdiff.c:132).
  method PlaceAll(I: array<int>, buckets: array<int>, s: seq<byte>) returns (ghost Q: seq<int>)
    requires I != buckets && I.Length == |s| + 1 && Ends(s, 0, buckets[..])
    modifies I, buckets
    ensures Placed(s, |s|, buckets[..], I[..], Q)
  {
    Q := seq(|s| + 1, _ => 0);
    PlacedNone(s, buckets[..], I[..], Q);
    var i := 0;
    while i < |s|
      invariant 0 <= i <= |s| && Placed(s, i, buckets[..], I[..], Q)
    {
      Q := PlaceOne(I, buckets, s, i, Q);
      i := i + 1;
    }
  }

  // The number of a suffix after the bucket sort: the last position of its bucket.
  function FirstRank(s: seq<byte>, a: nat): (r: int)
    requires a <= |s|
  {
    if a == |s| then 0 else Below(s, s[a]) + Occurs(s, |s|, s[a])
  }

  ghost predicate FirstRanks(s: seq<byte>, V: seq<int>)
  {
    |V| == |s| + 1 && forall a :: 0 <= a <= |s| ==> V[a] == FirstRank(s, a)
  }

  lemma OccursSome(s: seq<byte>, a: nat, n: nat)
    requires a < n <= |s|
    ensures 0 < Occurs(s, n, s[a])
  {
    OccursMonotone(s, a + 1, n, s[a]);
  }

  // The first byte decides the first rank.
  lemma FirstRankOrder(s: seq<byte>, a: nat, b: nat)
    requires a <= |s| && b <= |s|
    ensures FirstRank(s, a) < FirstRank(s, b) ==> Less(s, a, s, b)
    ensures FirstRank(s, a) == FirstRank(s, b) && a != b ==> 1 <= Lcp(s, a, s, b)
  {
    if a < |s| {
      OccursSome(s, a, |s|);
    }
    if b < |s| {
      OccursSome(s, b, |s|);
    }
    if a < |s| && b < |s| {
      var c: nat, d: nat := s[a], s[b];
      if c < d {
        BelowMonotone(s, c + 1, d);
      } else if d < c {
        BelowMonotone(s, d + 1, c);
      }
    }
  }

  lemma FirstRanksOrdered(s: seq<byte>, V: seq<int>)
    requires FirstRanks(s, V)
    ensures Ordered(s, V) && Agreeing(s, V, 1)
  {
    forall a, b | 0 <= a <= |s| && 0 <= b <= |s| && V[a] < V[b]
      ensures Less(s, a, s, b)
    {
      FirstRankOrder(s, a, b);
    }
    forall a, b | 0 <= a <= |s| && 0 <= b <= |s| && V[a] == V[b] && a != b
      ensures 1 <= Lcp(s, a, s, b)
    {
      FirstRankOrder(s, a, b);
    }
  }

  // The byte at the head of the suffix at position k, and the bucket it stands in.
  lemma StandsIn(s: seq<byte>, B: seq<int>, I: seq<int>, Q: seq<int>, k: int)
    requires Placed(s, |s|, B, I, Q) && 0 < k <= |s|
    ensures 0 <= I[k] < |s| && Q[I[k]] == k
    ensures Below(s, s[I[k]]) < k <= FirstRank(s, I[k]) <= |s|
  {
    BelowAll(s);
    var d := BucketOf(s, k, 256);
    assert B[d] == Below(s, d) + Occurs(s, |s|, d);
    assert Below(s, d) < k <= B[d] && I[k] == I[k];
    BucketRoom(s, |s|, d);
  }

  lemma PlacedPerm(s: seq<byte>, B: seq<int>, I: seq<int>, Q: seq<int>)
    requires Placed(s, |s|, B, I, Q)
    ensures Perm(I[0 := |s|], Q[|s| := 0], |s| + 1)
  {
    forall k | 0 < k <= |s|
      ensures 0 <= I[k] < |s| && Q[I[k]] == k
    {
      StandsIn(s, B, I, Q, k);
    }
  }

  lemma SameBucket(s: seq<byte>, B: seq<int>, I: seq<int>, Q: seq<int>, j: int, k: int)
    requires Placed(s, |s|, B, I, Q) && 0 < k < j <= |s| && 0 <= I[k] < |s| && 0 <= I[j] < |s|
             && j <= FirstRank(s, I[k])
    ensures FirstRank(s, I[j]) == FirstRank(s, I[k])
  {
    StandsIn(s, B, I, Q, k);
    StandsIn(s, B, I, Q, j);
    BucketRoom(s, |s|, s[I[k]]);
    BucketRoom(s, |s|, s[I[j]]);
    BucketsApart(s, s[I[k]], s[I[j]], j);
  }

  lemma PlacedGrouped(s: seq<byte>, B: seq<int>, I: seq<int>, Q: seq<int>, V: seq<int>)
    requires Placed(s, |s|, B, I, Q) && FirstRanks(s, V)
    ensures Grouped(V, I[0 := |s|], 0, |s| + 1)
  {
    var P := I[0 := |s|];
    forall k | 0 < k <= |s|
      ensures 0 <= P[k] < |s| && k <= V[P[k]] <= |s|
    {
      StandsIn(s, B, I, Q, k);
    }
    forall j, k | 0 <= k <= j <= |s| && j <= V[P[k]]
      ensures V[P[j]] == V[P[k]]
    {
      if 0 < k < j {
        assert V[P[k]] == FirstRank(s, I[k]) && V[P[j]] == FirstRank(s, I[j]);
        SameBucket(s, B, I, Q, j, k);
      }
    }
  }
}
