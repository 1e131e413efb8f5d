// qsufsort (bsdiff.c:121-157): bucket sort on the first byte, then passes that double the
// depth of agreement until every suffix stands alone.
module SuffixSort {
  import opened Bytes
  import opened SuffixOrder
  import opened SuffixRanks
  import opened SuffixSplit
  import opened BucketSort

  // I lists every suffix of s once, in strictly increasing order.
  ghost predicate SuffixArray(s: seq<byte>, I: seq<int>)
  {
    && |I| == |s| + 1
    && (forall k :: 0 <= k <= |s| ==> 0 <= I[k] <= |s|)
    && (forall a :: 0 <= a <= |s| ==> a in I)
    && (forall j, k {:trigger Less(s, I[j], s, I[k])} :: 0 <= j < k <= |s| ==> Less(s, I[j], s, I[k]))
  }

  // There is only one such list.
  lemma {:induction false} SuffixArrayUnique(s: seq<byte>, I: seq<int>, J: seq<int>, k: nat)
    requires SuffixArray(s, I) && SuffixArray(s, J) && k <= |s|
    ensures I[k] == J[k]
  {
    forall j | 0 <= j < k
      ensures I[j] == J[j]
    {
      SuffixArrayUnique(s, I, J, j);
    }
    ComesNoEarlier(s, I, J, k);
    ComesNoEarlier(s, J, I, k);
    if I[k] != J[k] {
      LessAsymmetric(s, I[k], s, J[k]);
    }
  }

  // With the entries before k the same, I[k] is J[k] or a later entry of J.
  lemma ComesNoEarlier(s: seq<byte>, I: seq<int>, J: seq<int>, k: nat)
    requires SuffixArray(s, I) && SuffixArray(s, J) && k <= |s| && forall j :: 0 <= j < k ==> I[j] == J[j]
    ensures I[k] == J[k] || Less(s, J[k], s, I[k])
  {
    LessIrreflexive(s, I[k]);
    assert forall j :: 0 <= j < k ==> Less(s, I[j], s, I[k]) && J[j] != I[k];
    assert I[k] in J;
    var m :| 0 <= m < |J| && J[m] == I[k];
    if m > k {
      assert Less(s, J[k], s, J[m]);
    }
  }

  // A negative mark at k covers a run of groups of one; any other entry names its suffix.
  // Marks left inside longer runs keep this property, so it needs no notion of where a
  // run starts.
  ghost predicate Runs(I: seq<int>, V: seq<int>, P: seq<int>)
  {
    && |I| == |V| == |P|
    && (forall k :: 0 <= k < |P| ==> 0 <= P[k] < |V|)
    && (forall k :: 0 <= k < |I| && I[k] < 0 ==> k - I[k] <= |I|)
    && (forall k, j :: 0 <= k < |I| && I[k] < 0 && k <= j < k - I[k] ==> I[j] < 0 && Single(V, P, j))
    && (forall k :: 0 <= k < |I| && 0 <= I[k] ==> I[k] == P[k])
  }

  // The state of a pass at depth h that has dealt with the positions below i: they are
  // sorted to depth 2h, and no group reaches across i.
  ghost predicate Passing(s: seq<byte>, I: seq<int>, V: seq<int>, P: seq<int>, Q: seq<int>, h: nat, i: int)
  {
    && Perm(P, Q, |s| + 1) && Ordered(s, V) && Agreeing(s, V, h)
    && Runs(I, V, P) && 0 <= i <= |s| + 1
    && Grouped(V, P, 0, i) && Grouped(V, P, i, |s| + 1)
    && Deep(s, V, P, 2 * h, 0, i)
    && (forall k :: 0 <= k < i && 0 <= I[k] ==> !Single(V, P, k))
    && (forall k :: i <= k <= |s| && 0 <= I[k] ==> P[k] + h <= |s|)
  }

  // Members of a larger group are not groups of one.
  lemma GroupNotSingle(V: seq<int>, P: seq<int>, lo: int, hi: int, i: int, k: int)
    requires Grouped(V, P, lo, hi) && lo <= i <= k < hi && k <= V[P[i]] && i < V[P[i]]
    requires forall j :: 0 <= j < |P| ==> 0 <= P[j] < |V|
    ensures V[P[k]] == V[P[i]] && !Single(V, P, k)
  {
    assert k > i ==> V[P[k - 1]] == V[P[i]];
  }

  lemma PassingSplittable(s: seq<byte>, I: seq<int>, V: seq<int>, P: seq<int>, Q: seq<int>, h: nat, i: int)
    requires Passing(s, I, V, P, Q, h, i) && i <= |s| && 0 <= I[i]
    ensures I[i] == P[i] && i <= V[P[i]] <= |s| && Splittable(s, I, V, P, Q, h, i, V[P[i]] + 1, V[P[i]])
  {
    var e := V[P[i]];
    forall k | i <= k <= e
      ensures V[P[k]] == e && 0 <= I[k]
    {
      if i < e {
        GroupNotSingle(V, P, i, |s| + 1, i, k);
      }
    }
  }

  lemma DeepJoin(s: seq<byte>, V: seq<int>, P: seq<int>, g: nat, lo: int, m: int, hi: int)
    requires |V| == |s| + 1 && Grouped(V, P, lo, m) && Grouped(V, P, m, hi)
    requires Deep(s, V, P, g, lo, m) && Deep(s, V, P, g, m, hi)
    ensures Grouped(V, P, lo, hi) && Deep(s, V, P, g, lo, hi)
  {
  }

  // Groups of one can be counted off the front of a stretch.
  lemma SinglesGrouped(s: seq<byte>, V: seq<int>, P: seq<int>, g: nat, i: int, m: int, n: int)
    requires |V| == |s| + 1 && Grouped(V, P, i, n) && i <= m <= n && forall j :: 0 <= j < |P| ==> 0 <= P[j] < |V|
    requires forall j :: i <= j < m ==> Single(V, P, j)
    ensures Grouped(V, P, i, m) && Grouped(V, P, m, n) && Deep(s, V, P, g, i, m)
  {
    forall k | i <= k < m
      ensures V[P[k]] == k
    {
      assert Single(V, P, k);
    }
  }

  lemma GroupedFramed(I: seq<int>, V: seq<int>, P: seq<int>, I': seq<int>, V': seq<int>, P': seq<int>,
                      lo: int, hi: int, i: int, j: int)
    requires Framed(I, V, P, I', V', P', i, j) && Grouped(V, P, lo, hi) && (hi <= i || j <= lo)
    ensures Grouped(V', P', lo, hi)
  {
  }

  lemma DeepFramed(s: seq<byte>, I: seq<int>, V: seq<int>, P: seq<int>, I': seq<int>, V': seq<int>, P': seq<int>,
                   g: nat, i: int, j: int)
    requires Framed(I, V, P, I', V', P', i, j) && |V| == |s| + 1
    requires Grouped(V, P, 0, i) && Deep(s, V, P, g, 0, i)
    ensures Grouped(V', P', 0, i) && Deep(s, V', P', g, 0, i)
  {
  }

  // Which positions are groups of one, after the group at i..j has been split.
  lemma SingleFramed(I: seq<int>, V: seq<int>, P: seq<int>, I': seq<int>, V': seq<int>, P': seq<int>, i: int, j: int,
                     k: int)
    requires Framed(I, V, P, I', V', P', i, j) && 0 <= i < j <= |P| && 0 <= k < |P|
    requires Grouped(V, P, i, |P|) && Grouped(V', P', i, j) && V[P[i]] == j - 1
    ensures k < i || j <= k ==> (Single(V', P', k) <==> Single(V, P, k))
    ensures i <= k < j && Single(V, P, k) ==> j == i + 1
    ensures j == i + 1 && (i > 0 ==> V[P[i - 1]] < i) ==> Single(V', P', i)
  {
    if i <= k < j && i + 1 < j {
      GroupNotSingle(V, P, i, |P|, i, k);
    }
    if j <= k {
      if k == j {
        assert V[P[j - 1]] == j - 1;
      }
    }
  }

  lemma RunsSplit(s: seq<byte>, I: seq<int>, V: seq<int>, P: seq<int>, I': seq<int>, V': seq<int>, P': seq<int>,
                  g: nat, i: int, j: int)
    requires Runs(I, V, P) && Framed(I, V, P, I', V', P', i, j) && 0 <= i < j <= |P|
    requires Grouped(V, P, 0, i) && Grouped(V, P, i, |P|) && V[P[i]] == j - 1 && Fine(s, I', V', P', g, i, j)
    ensures Runs(I', V', P')
  {
    forall k, l | 0 <= k < |I| && I'[k] < 0 && k <= l < k - I'[k]
      ensures k - I'[k] <= |I| && I'[l] < 0 && Single(V', P', l)
    {
      if i <= k < j {
        assert l == k && Single(V', P', k);
      } else {
        SingleFramed(I, V, P, I', V', P', i, j, l);
      }
    }
  }

  lemma PassingSplit(s: seq<byte>, I: seq<int>, V: seq<int>, P: seq<int>, Q: seq<int>,
                     I': seq<int>, V': seq<int>, P': seq<int>, Q': seq<int>, h: nat, i: int, j: int, e: int)
    requires Passing(s, I, V, P, Q, h, i) && i <= |s| && 0 <= I[i] && V[P[i]] == e && j == e + 1
    requires SplitDone(s, I, V, P, I', V', P', Q', h, i, j, e)
    ensures Passing(s, I', V', P', Q', h, j)
  {
    RunsSplit(s, I, V, P, I', V', P', 2 * h, i, j);
    DeepFramed(s, I, V, P, I', V', P', 2 * h, i, j);
    DeepJoin(s, V', P', 2 * h, 0, i, j);
    GroupRest(V, P, i, j);
    GroupedFramed(I, V, P, I', V', P', j, |P|, i, j);
    forall k | 0 <= k < j && 0 <= I'[k]
      ensures !Single(V', P', k)
    {
      SingleFramed(I, V, P, I', V', P', i, j, k);
    }
  }

  // What follows a group is made of whole groups.
  lemma GroupRest(V: seq<int>, P: seq<int>, i: int, j: int)
    requires Grouped(V, P, i, |P|) && 0 <= i < j <= |P| && V[P[i]] == j - 1
    ensures Grouped(V, P, j, |P|)
  {
  }

  lemma PassingRun(s: seq<byte>, I: seq<int>, V: seq<int>, P: seq<int>, Q: seq<int>, h: nat, i: int, j: int)
    requires Passing(s, I, V, P, Q, h, i) && i <= |s| && I[i] < 0 && j == i - I[i]
    ensures i < j <= |s| + 1 && Passing(s, I, V, P, Q, h, j)
    ensures forall k :: i <= k < j ==> Single(V, P, k)
  {
    SinglesGrouped(s, V, P, 2 * h, i, j, |P|);
    DeepJoin(s, V, P, 2 * h, 0, i, j);
  }

  lemma PassingMark(s: seq<byte>, I: seq<int>, V: seq<int>, P: seq<int>, Q: seq<int>, h: nat, i: int, len: int)
    requires Passing(s, I, V, P, Q, h, i) && 0 < len <= i
    requires forall j :: i - len <= j < i ==> Single(V, P, j)
    ensures Passing(s, I[i - len := -len], V, P, Q, h, i)
  {
  }

  // A group of two or more has another member, with which it agrees.
  lemma Companion(s: seq<byte>, V: seq<int>, P: seq<int>, Q: seq<int>, g: nat, k: int)
    requires Perm(P, Q, |s| + 1) && |V| == |s| + 1 && Grouped(V, P, 0, |P|) && Deep(s, V, P, g, 0, |P|)
    requires 0 <= k <= |s| && !Single(V, P, k)
    ensures P[k] + g <= |s|
  {
    var j := if V[P[k]] > k then k + 1 else k - 1;
    assert V[P[j]] == V[P[k]];
    assert Q[P[j]] != Q[P[k]];
    assert g <= Lcp(s, P[k], s, P[j]);
  }

  // The end of a pass is the beginning of the next, at twice the depth.
  lemma PassingAgain(s: seq<byte>, I: seq<int>, V: seq<int>, P: seq<int>, Q: seq<int>, h: nat)
    requires Passing(s, I, V, P, Q, h, |s| + 1)
    ensures Passing(s, I, V, P, Q, 2 * h, 0)
  {
    forall a, b | 0 <= a <= |s| && 0 <= b <= |s| && V[a] == V[b] && a != b
      ensures 2 * h <= Lcp(s, a, s, b)
    {
      assert P[Q[a]] == a && P[Q[b]] == b;
      assert 2 * h <= Lcp(s, P[Q[a]], s, P[Q[b]]);
    }
    forall k | 0 <= k <= |s| && 0 <= I[k]
      ensures P[k] + 2 * h <= |s|
    {
      Companion(s, V, P, Q, 2 * h, k);
    }
  }

  lemma AllSingle(s: seq<byte>, I: seq<int>, V: seq<int>, P: seq<int>, Q: seq<int>, h: nat)
    requires Passing(s, I, V, P, Q, h, 0) && I[0] == -(|s| + 1)
    ensures V == Q && SuffixArray(s, P)
  {
    forall k | 0 <= k <= |s|
      ensures V[P[k]] == k
    {
      assert Single(V, P, k);
    }
    forall a | 0 <= a <= |s|
      ensures V[a] == Q[a] && a in P
    {
      assert P[Q[a]] == a;
    }
  }

  // The bucket sort as a whole (bsdiff.c:126-137).
  method Buckets(I: array<int>, V: array<int>, s: seq<byte>) returns (ghost P: seq<int>, ghost Q: seq<int>)
    requires I != V && I.Length == V.Length == |s| + 1
    modifies I, V
    ensures Passing(s, I[..], V[..], P, Q, 1, 0) && I[0] == -1
  {
    var buckets := FillBuckets(s);
    ghost var F := PlaceAll(I, buckets, s);
    ghost var J := I[..];
    I[0] := |s|;
    P, Q := I[..], F[|s| := 0];
    assert P == J[0 := |s|];
    ghost var b := buckets[..];
    FirstNumbers(V, buckets, s);
    MarkBuckets(I, buckets, s);
    PlacedPassing(s, b, J, F, I[..], V[..]);
  }

  // Number every suffix by the end of its bucket (bsdiff.c:134-135).
  method FirstNumbers(V: array<int>, buckets: array<int>, s: seq<byte>)
    requires V != buckets && V.Length == |s| + 1 && Ends(s, |s|, buckets[..])
    modifies V
    ensures FirstRanks(s, V[..])
  {
    var i := 0;
    while i < |s|
      invariant 0 <= i <= |s| && buckets[..] == old(buckets[..])
      invariant forall a :: 0 <= a < i ==> V[a] == FirstRank(s, a)
    {
      assert buckets[s[i]] == buckets[..][s[i]] == FirstRank(s, i);
      V[i] := buckets[s[i]];
      i := i + 1;
    }
    V[|s|] := 0;
  }

  // Position k is the whole bucket of one of the bytes 1..limit.
  ghost predicate WholeBucket(s: seq<byte>, k: int, limit: int)
  {
    exists c: nat :: 1 <= c < limit && Below(s, c) + 1 == k == Below(s, c) + Occurs(s, |s|, c)
  }

  // I is P with the empty suffix, and the buckets of one but the first bucket, marked.
  ghost predicate BucketsMarked(s: seq<byte>, P: seq<int>, I: seq<int>)
  {
    && |I| == |P| == |s| + 1 && I[0] == -1
    && (forall k :: 0 < k <= |s| ==> I[k] == if WholeBucket(s, k, 256) then -1 else P[k])
  }

  // Mark the buckets of one, from the second bucket on, and the empty suffix
  // (bsdiff.c:136-137).
  method MarkBuckets(I: array<int>, buckets: array<int>, s: seq<byte>)
    requires I != buckets && I.Length == |s| + 1 && Ends(s, |s|, buckets[..])
    modifies I
    ensures BucketsMarked(s, old(I[..]), I[..])
  {
    ghost var B := buckets[..];
    var i := 1;
    while i < 256
      invariant 1 <= i <= 256 && buckets[..] == B
      invariant forall k :: 0 < k <= |s| ==> I[k] == if WholeBucket(s, k, i) then -1 else old(I[k])
    {
      assert buckets[i] == B[i] && buckets[i - 1] == B[i - 1];
      BucketRoom(s, |s|, i);
      assert Below(s, i) == buckets[i - 1] && Below(s, i) + Occurs(s, |s|, i) == buckets[i];
      WholeBucketNext(s, i);
      if buckets[i] == buckets[i - 1] + 1 {
        I[buckets[i]] := -1;
      }
      i := i + 1;
    }
    I[0] := -1;
  }

  lemma WholeBucketNext(s: seq<byte>, c: nat)
    requires 1 <= c
    ensures forall k :: WholeBucket(s, k, c + 1) <==>
                        WholeBucket(s, k, c) || Below(s, c) + 1 == k == Below(s, c) + Occurs(s, |s|, c)
  {
    forall k | WholeBucket(s, k, c + 1)
      ensures WholeBucket(s, k, c) || Below(s, c) + 1 == k == Below(s, c) + Occurs(s, |s|, c)
    {
      var d: nat :| 1 <= d < c + 1 && Below(s, d) + 1 == k == Below(s, d) + Occurs(s, |s|, d);
    }
  }

  // A whole bucket is a group of one.
  lemma WholeBucketSingle(s: seq<byte>, B: seq<int>, J: seq<int>, F: seq<int>, V: seq<int>, k: int)
    requires Placed(s, |s|, B, J, F) && FirstRanks(s, V) && 0 < k <= |s| && WholeBucket(s, k, 256)
    ensures var P := J[0 := |s|];
            0 <= P[k] <= |s| && 0 <= P[k - 1] <= |s| && Single(V, P, k)
  {
    StandsIn(s, B, J, F, k);
    var c: nat :| 1 <= c < 256 && Below(s, c) + 1 == k == Below(s, c) + Occurs(s, |s|, c);
    BucketRoom(s, |s|, c);
    BucketsApart(s, c, s[J[k]], k);
    if k > 1 {
      StandsIn(s, B, J, F, k - 1);
      EarlierBucketEnds(s, c, s[J[k - 1]], k);
    }
  }

  // A bucket that starts before position k - 1 ends before k, when k is where another starts.
  lemma EarlierBucketEnds(s: seq<byte>, c: nat, d: nat, k: int)
    requires d < 256 && Below(s, c) + 1 == k && Below(s, d) < k - 1
    ensures Below(s, d) + Occurs(s, |s|, d) < k
  {
    if d < c {
      BelowMonotone(s, d + 1, c);
    } else {
      BelowMonotone(s, c, d);
    }
  }

  lemma MarkedRuns(s: seq<byte>, P: seq<int>, I: seq<int>, V: seq<int>)
    requires BucketsMarked(s, P, I) && |V| == |s| + 1 && P[0] == |s| && V[|s|] == 0
    requires forall k :: 0 <= k <= |s| ==> 0 <= P[k] <= |s|
    requires forall k :: 0 < k <= |s| && WholeBucket(s, k, 256) ==> Single(V, P, k)
    ensures Runs(I, V, P)
  {
    forall k, j | 0 <= k < |I| && I[k] < 0 && k <= j < k - I[k]
      ensures j == k && I[j] < 0 && Single(V, P, j)
    {
      if k == 0 {
        assert Single(V, P, 0);
      } else {
        assert I[k] == -1 && WholeBucket(s, k, 256);
      }
    }
  }

  // After the bucket sort the first pass can start.
  lemma PlacedPassing(s: seq<byte>, B: seq<int>, J: seq<int>, F: seq<int>, I: seq<int>, V: seq<int>)
    requires Placed(s, |s|, B, J, F) && FirstRanks(s, V) && BucketsMarked(s, J[0 := |s|], I)
    ensures Passing(s, I, V, J[0 := |s|], F[|s| := 0], 1, 0)
  {
    PlacedPerm(s, B, J, F);
    PlacedGrouped(s, B, J, F, V);
    FirstRanksOrdered(s, V);
    forall k | 0 < k <= |s| && WholeBucket(s, k, 256)
      ensures Single(V, J[0 := |s|], k)
    {
      WholeBucketSingle(s, B, J, F, V, k);
    }
    MarkedRuns(s, J[0 := |s|], I, V);
    PlacedReach(s, J[0 := |s|], F[|s| := 0], I);
  }

  lemma PlacedReach(s: seq<byte>, P: seq<int>, Q: seq<int>, I: seq<int>)
    requires Perm(P, Q, |s| + 1) && P[0] == |s| && BucketsMarked(s, P, I)
    ensures forall k :: 0 <= k <= |s| && 0 <= I[k] ==> P[k] + 1 <= |s|
  {
  }

  // A pass at position i, behind which stand len groups of one not yet collected.
  ghost predicate Collecting(s: seq<byte>, I: seq<int>, V: seq<int>, P: seq<int>, Q: seq<int>, h: nat, i: int, len: int)
  {
    && Passing(s, I, V, P, Q, h, i)
    && 0 <= len <= i && (forall k :: i - len <= k < i ==> Single(V, P, k))
  }

  // One turn of a pass (bsdiff.c:142-152).
  method PassStep(I: array<int>, V: array<int>, h: nat, i: int, len: int, ghost s: seq<byte>, ghost P0: seq<int>,
                  ghost Q0: seq<int>)
    returns (i': int, len': int, ghost P: seq<int>, ghost Q: seq<int>)
    requires I != V && I.Length == V.Length == |s| + 1 && i <= |s| && Collecting(s, I[..], V[..], P0, Q0, h, i, len)
    modifies I, V
    ensures i < i' && Collecting(s, I[..], V[..], P, Q, h, i', len')
    ensures old(I[i]) < 0 ==> I[..] == old(I[..]) && len' - len == i' - i
  {
    if I[i] < 0 {
      PassingRun(s, I[..], V[..], P0, Q0, h, i, i - I[i]);
      P, Q, i', len' := P0, Q0, i - I[i], len - I[i];
    } else {
      P, Q, i' := PassGroup(I, V, h, i, len, s, P0, Q0);
      len' := 0;
    }
  }

  // One pass over I (bsdiff.c:140-153).
  method Pass(I: array<int>, V: array<int>, h: nat, ghost s: seq<byte>, ghost P0: seq<int>, ghost Q0: seq<int>)
    returns (ghost P: seq<int>, ghost Q: seq<int>)
    requires I != V && I.Length == V.Length == |s| + 1 && Passing(s, I[..], V[..], P0, Q0, h, 0)
    modifies I, V
    ensures Passing(s, I[..], V[..], P, Q, h, |s| + 1)
    ensures AllMarked(old(I[..])) ==> I[0] == -(|s| + 1)
  {
    P, Q := P0, Q0;
    var len, i := 0, 0;
    ghost var i0 := I[..];
    while i < I.Length
      invariant 0 <= i <= I.Length && Collecting(s, I[..], V[..], P, Q, h, i, len)
      invariant AllMarked(i0) ==> len == i && I[..] == i0
    {
      i, len, P, Q := PassStep(I, V, h, i, len, s, P, Q);
    }
    RecordRun(I, V, h, i, len, s, P, Q);
  }

  // Collect the marks of the len groups of one before i into one run.
  method RecordRun(I: array<int>, V: array<int>, ghost h: nat, i: int, len: int, ghost s: seq<byte>, ghost P: seq<int>,
                   ghost Q: seq<int>)
    requires I != V && I.Length == V.Length == |s| + 1 && Passing(s, I[..], V[..], P, Q, h, i)
    requires 0 <= len <= i && forall k :: i - len <= k < i ==> Single(V[..], P, k)
    modifies I
    ensures Passing(s, I[..], V[..], P, Q, h, i) && V[..] == old(V[..])
    ensures if len == 0 then I[..] == old(I[..]) else I[i - len] == -len
    ensures forall k :: i <= k <= |s| ==> I[k] == old(I[k])
  {
    if len != 0 {
      PassingMark(s, I[..], V[..], P, Q, h, i, len);
      ghost var J := I[..];
      I[i - len] := -len;
      assert I[..] == J[i - len := -len];
    }
  }

  // Record the run that ends at i, and split the group that starts there
  // (bsdiff.c:146-150).
  method PassGroup(I: array<int>, V: array<int>, h: nat, i: int, len: int, ghost s: seq<byte>, ghost P0: seq<int>,
                   ghost Q0: seq<int>)
    returns (ghost P: seq<int>, ghost Q: seq<int>, j: int)
    requires I != V && I.Length == V.Length == |s| + 1 && Passing(s, I[..], V[..], P0, Q0, h, i)
    requires i <= |s| && 0 <= I[i] && 0 <= len <= i && forall k :: i - len <= k < i ==> Single(V[..], P0, k)
    modifies I, V
    ensures i < j && Passing(s, I[..], V[..], P, Q, h, j)
  {
    RecordRun(I, V, h, i, len, s, P0, Q0);
    P, Q, j := SplitGroup(I, V, h, i, s, P0, Q0);
  }

  // Split the group that starts at i (bsdiff.c:147-149).
  method SplitGroup(I: array<int>, V: array<int>, h: nat, i: int, ghost s: seq<byte>, ghost P0: seq<int>,
                    ghost Q0: seq<int>)
    returns (ghost P: seq<int>, ghost Q: seq<int>, j: int)
    requires I != V && I.Length == V.Length == |s| + 1 && Passing(s, I[..], V[..], P0, Q0, h, i)
    requires i <= |s| && 0 <= I[i]
    modifies I, V
    ensures i < j && Passing(s, I[..], V[..], P, Q, h, j)
  {
    ghost var i0, v0 := I[..], V[..];
    PassingSplittable(s, i0, v0, P0, Q0, h, i);
    var e := V[I[i]];
    assert e == v0[P0[i]] by { assert I[i] == i0[i]; }
    var len := e + 1 - i;
    j := i + len;
    P, Q := Split(I, V, i, len, h, s, e, P0, Q0);
    PassingSplit(s, i0, v0, P0, Q0, I[..], V[..], P, Q, h, i, j, e);
  }

  ghost predicate AllMarked(I: seq<int>)
  {
    forall k :: 0 <= k < |I| ==> I[k] < 0
  }

  // A bound on the passes still to come: once everything is marked, one more pass
  // collects the marks into a single run.
  ghost function Remaining(s: seq<byte>, I: seq<int>, h: nat): int
    requires |I| == |s| + 1
  {
    if I[0] == -(|s| + 1) then 0 else if AllMarked(I) then 1 else 2 + |s| - h
  }

  lemma DepthBound(s: seq<byte>, I: seq<int>, V: seq<int>, P: seq<int>, Q: seq<int>, h: nat)
    requires Passing(s, I, V, P, Q, h, 0)
    ensures AllMarked(I) || h <= |s|
  {
  }

  // The whole sort (bsdiff.c:121-157): I becomes the suffix array of s, V its inverse.
  method Qsufsort(I: array<int>, V: array<int>, s: seq<byte>)
    requires I != V && I.Length == V.Length == |s| + 1
    modifies I, V
    ensures SuffixArray(s, I[..])
    ensures forall k :: 0 <= k <= |s| ==> 0 <= I[k] <= |s| && V[I[k]] == k
  {
    ghost var P, Q := Buckets(I, V, s);
    var h := 1;
    while I[0] != -(|s| + 1)
      invariant 1 <= h && Passing(s, I[..], V[..], P, Q, h, 0)
      decreases Remaining(s, I[..], h)
    {
      DepthBound(s, I[..], V[..], P, Q, h);
      P, Q := Pass(I, V, h, s, P, Q);
      PassingAgain(s, I[..], V[..], P, Q, h);
      h := h + h;
      DepthBound(s, I[..], V[..], P, Q, h);
    }
    AllSingle(s, I[..], V[..], P, Q, h);
    var i := 0;
    while i < |s| + 1
      invariant 0 <= i <= |s| + 1
      invariant V[..] == Q
      invariant forall a :: 0 <= a < i ==> I[V[a]] == a
    {
      I[V[i]] := i;
      i := i + 1;
    }
    assert I[..] == P;
  }
}
