// The state the suffix sorter keeps between its steps, over plain sequences.
// P lists the suffixes by position and Q is its inverse; V gives each suffix the number
// of its group, which is the last position the group occupies.  In the sorter itself P
// is only partly there: a position whose suffix is final holds a negative mark instead.
module SuffixRanks {
  import opened Bytes
  import opened SuffixOrder

  // P is a permutation of 0..n-1 and Q is its inverse.
  ghost predicate Perm(P: seq<int>, Q: seq<int>, n: nat)
  {
    && |P| == n && |Q| == n
    && (forall k :: 0 <= k < n ==> 0 <= P[k] < n && Q[P[k]] == k)
    && (forall a :: 0 <= a < n ==> 0 <= Q[a] < n && P[Q[a]] == a)
  }

  // A smaller number means an earlier suffix.
  ghost predicate Ordered(s: seq<byte>, V: seq<int>)
  {
    && |V| == |s| + 1
    && (forall a, b {:trigger Less(s, a, s, b)} ::
          0 <= a <= |s| && 0 <= b <= |s| && V[a] < V[b] ==> Less(s, a, s, b))
  }

  // Equal numbers mean the suffixes agree on h bytes.
  ghost predicate Agreeing(s: seq<byte>, V: seq<int>, h: nat)
  {
    && |V| == |s| + 1
    && (forall a, b {:trigger Lcp(s, a, s, b)} ::
          0 <= a <= |s| && 0 <= b <= |s| && V[a] == V[b] && a != b ==> h <= Lcp(s, a, s, b))
  }

  // The positions lo..hi hold suffixes that still share the number e, everything is
  // ordered, and what lies outside has numbers of its own side.
  ghost predicate Coarse(s: seq<byte>, V: seq<int>, P: seq<int>, Q: seq<int>, h: nat, lo: int, hi: int, e: int)
  {
    && Perm(P, Q, |s| + 1)
    && 0 <= lo <= hi <= |s| + 1
    && hi - 1 <= e
    && Ordered(s, V) && Agreeing(s, V, h)
    && (forall k :: lo <= k < hi ==> V[P[k]] == e && P[k] + h <= |s|)
    && (forall k :: 0 <= k < lo ==> V[P[k]] < lo)
    && (forall k :: hi <= k <= |s| ==> hi <= V[P[k]])
    && (forall k, l {:trigger Less(s, P[k], s, P[l])} :: lo <= k < hi <= l <= |s| ==> Less(s, P[k], s, P[l]))
  }

  function Swap(P: seq<int>, i: int, j: int): (r: seq<int>)
    requires 0 <= i < |P| && 0 <= j < |P|
  {
    P[i := P[j]][j := P[i]]
  }

  // The inverse of the swapped permutation.
  function SwapInverse(P: seq<int>, Q: seq<int>, i: int, j: int): (r: seq<int>)
    requires 0 <= i < |P| && 0 <= j < |P| && 0 <= P[i] < |Q| && 0 <= P[j] < |Q|
  {
    Q[P[i] := j][P[j] := i]
  }

  lemma SwapPerm(P: seq<int>, Q: seq<int>, n: nat, i: int, j: int)
    requires Perm(P, Q, n) && 0 <= i < n && 0 <= j < n
    ensures Perm(Swap(P, i, j), SwapInverse(P, Q, i, j), n)
  {
  }

  // P' lists the same suffixes as P, rearranged within positions lo..hi.
  ghost predicate Rearranged(P: seq<int>, Q: seq<int>, P': seq<int>, Q': seq<int>, lo: int, hi: int)
  {
    && Perm(P, Q, |P|) && Perm(P', Q', |P|)
    && (forall k :: 0 <= k < |P| && !(lo <= k < hi) ==> P'[k] == P[k])
  }

  lemma RearrangedHome(P: seq<int>, Q: seq<int>, P': seq<int>, Q': seq<int>, lo: int, hi: int, k: int)
    requires Rearranged(P, Q, P', Q', lo, hi) && 0 <= lo <= k < hi <= |P|
    ensures lo <= Q[P'[k]] < hi && P[Q[P'[k]]] == P'[k]
  {
  }

  // Rearranging the suffixes of the open block changes nothing that matters.
  lemma RearrangedCoarse(s: seq<byte>, V: seq<int>, P: seq<int>, Q: seq<int>, P': seq<int>, Q': seq<int>,
                         h: nat, lo: int, hi: int, e: int)
    requires Coarse(s, V, P, Q, h, lo, hi, e) && Rearranged(P, Q, P', Q', lo, hi)
    ensures Coarse(s, V, P', Q', h, lo, hi, e)
  {
    forall k | lo <= k < hi
      ensures lo <= Q[P'[k]] < hi && P[Q[P'[k]]] == P'[k]
    {
      RearrangedHome(P, Q, P', Q', lo, hi, k);
    }
  }

  // The sort key at distance h orders two suffixes that agree on h bytes.
  lemma KeyLess(s: seq<byte>, V: seq<int>, h: nat, a: nat, b: nat)
    requires Ordered(s, V) && Agreeing(s, V, h)
    requires a + h <= |s| && b + h <= |s| && V[a] == V[b] && V[a + h] < V[b + h]
    ensures Less(s, a, s, b)
  {
    assert Less(s, a + h, s, b + h);
    if a == b {
      assert false;
    }
    LcpShift(s, a, s, b, h);
  }

  // Equal sort keys double the agreement.
  lemma KeyEqual(s: seq<byte>, V: seq<int>, h: nat, a: nat, b: nat)
    requires Agreeing(s, V, h)
    requires a + h <= |s| && b + h <= |s| && a != b && V[a] == V[b] && V[a + h] == V[b + h]
    ensures 2 * h <= Lcp(s, a, s, b)
  {
    assert h <= Lcp(s, a + h, s, b + h);
    LcpShift(s, a, s, b, h);
  }

  // Where a suffix stands is visible in its number.
  lemma Located(s: seq<byte>, V: seq<int>, P: seq<int>, Q: seq<int>, h: nat, lo: int, hi: int, e: int, a: int)
    requires Coarse(s, V, P, Q, h, lo, hi, e) && 0 <= a <= |s|
    ensures Q[a] < lo ==> V[a] < lo
    ensures lo <= Q[a] < hi ==> V[a] == e
    ensures hi <= Q[a] ==> hi <= V[a]
  {
    assert P[Q[a]] == a;
  }

  // W is V after the suffixes at positions lo..m have been given the number m - 1.
  ghost predicate Assigned(V: seq<int>, W: seq<int>, Q: seq<int>, lo: int, m: int)
  {
    && |V| == |W| == |Q|
    && (forall a :: 0 <= a < |V| ==> W[a] == if lo <= Q[a] < m then m - 1 else V[a])
  }

  // The first part lo..m of the block precedes the rest.
  ghost predicate Precedes(s: seq<byte>, P: seq<int>, lo: int, m: int, hi: int)
    requires 0 <= lo <= m <= hi <= |P| == |s| + 1 && forall k :: 0 <= k < |P| ==> 0 <= P[k] <= |s|
  {
    forall k, l {:trigger Less(s, P[k], s, P[l])} :: lo <= k < m <= l < hi ==> Less(s, P[k], s, P[l])
  }

  lemma AssignOrdered(s: seq<byte>, V: seq<int>, W: seq<int>, P: seq<int>, Q: seq<int>, h: nat, lo: int, m: int,
                      hi: int, e: int)
    requires Coarse(s, V, P, Q, h, lo, hi, e) && lo < m <= hi
    requires Assigned(V, W, Q, lo, m) && Precedes(s, P, lo, m, hi)
    ensures Ordered(s, W)
  {
    forall a, b | 0 <= a <= |s| && 0 <= b <= |s| && W[a] < W[b]
      ensures Less(s, a, s, b)
    {
      Located(s, V, P, Q, h, lo, hi, e, a);
      Located(s, V, P, Q, h, lo, hi, e, b);
      if lo <= Q[a] < m && m <= Q[b] {
        assert Less(s, P[Q[a]], s, P[Q[b]]);
      }
    }
  }

  lemma AssignAgreeing(s: seq<byte>, V: seq<int>, W: seq<int>, P: seq<int>, Q: seq<int>, h: nat, lo: int, m: int,
                       hi: int, e: int)
    requires Coarse(s, V, P, Q, h, lo, hi, e) && lo < m <= hi
    requires Assigned(V, W, Q, lo, m)
    ensures Agreeing(s, W, h)
  {
    forall a, b | 0 <= a <= |s| && 0 <= b <= |s| && W[a] == W[b] && a != b
      ensures h <= Lcp(s, a, s, b)
    {
      Located(s, V, P, Q, h, lo, hi, e, a);
      Located(s, V, P, Q, h, lo, hi, e, b);
    }
  }

  // Numbering the first part of a block leaves the rest as a block of its own.
  lemma AssignCoarse(s: seq<byte>, V: seq<int>, W: seq<int>, P: seq<int>, Q: seq<int>, h: nat, lo: int, m: int,
                     hi: int, e: int)
    requires Coarse(s, V, P, Q, h, lo, hi, e) && lo < m <= hi
    requires Assigned(V, W, Q, lo, m) && Precedes(s, P, lo, m, hi)
    ensures Coarse(s, W, P, Q, h, m, hi, e)
  {
    AssignOrdered(s, V, W, P, Q, h, lo, m, hi, e);
    AssignAgreeing(s, V, W, P, Q, h, lo, m, hi, e);
  }

  // The groups on positions lo..hi do not straddle its ends, and each member carries
  // the group's last position.
  ghost predicate Grouped(V: seq<int>, P: seq<int>, lo: int, hi: int)
  {
    && 0 <= lo <= hi <= |P|
    && (forall k :: lo <= k < hi ==> 0 <= P[k] < |V| && k <= V[P[k]] < hi)
    && (forall j, k :: lo <= k <= j < hi && j <= V[P[k]] ==> V[P[j]] == V[P[k]])
  }

  // Suffixes of positions lo..hi that share a number agree on g bytes.
  ghost predicate Deep(s: seq<byte>, V: seq<int>, P: seq<int>, g: nat, lo: int, hi: int)
    requires Grouped(V, P, lo, hi) && |V| == |s| + 1
  {
    forall j, k {:trigger Lcp(s, P[j], s, P[k])} ::
      lo <= j < hi && lo <= k < hi && P[j] != P[k] && V[P[j]] == V[P[k]] ==> g <= Lcp(s, P[j], s, P[k])
  }

  // Position k is a group of its own.
  ghost predicate Single(V: seq<int>, P: seq<int>, k: int)
    requires 0 <= k < |P| && 0 <= P[k] < |V| && (k > 0 ==> 0 <= P[k - 1] < |V|)
  {
    V[P[k]] == k && (k > 0 ==> V[P[k - 1]] < k)
  }

  // In positions lo..hi exactly the groups of one are marked -1; the others still name
  // their suffixes.
  ghost predicate Marked(I: seq<int>, V: seq<int>, P: seq<int>, lo: int, hi: int)
    requires 0 <= lo <= hi <= |P| <= |I| && forall k :: 0 <= k < |P| ==> 0 <= P[k] < |V|
  {
    forall k :: lo <= k < hi ==> I[k] == if Single(V, P, k) then -1 else P[k]
  }

  // Positions lo..hi are sorted to depth g: whole groups, numbered, deep and marked.
  ghost predicate Fine(s: seq<byte>, I: seq<int>, V: seq<int>, P: seq<int>, g: nat, lo: int, hi: int)
  {
    && |V| == |s| + 1 == |P| == |I|
    && (forall k :: 0 <= k < |P| ==> 0 <= P[k] < |V|)
    && Grouped(V, P, lo, hi) && Deep(s, V, P, g, lo, hi) && Marked(I, V, P, lo, hi)
  }

  // A step that works on positions lo..hi leaves the other positions, their marks and
  // the numbers of their suffixes alone.
  ghost predicate Framed(I: seq<int>, V: seq<int>, P: seq<int>, I': seq<int>, V': seq<int>, P': seq<int>, lo: int,
                         hi: int)
  {
    && |I| == |V| == |P| == |I'| == |V'| == |P'|
    && (forall k :: 0 <= k < |P| ==> 0 <= P[k] < |P| && 0 <= P'[k] < |P|)
    && (forall k :: 0 <= k < |P| && !(lo <= k < hi) ==> P'[k] == P[k] && I'[k] == I[k] && V'[P[k]] == V[P[k]])
  }

  // What was sorted to the left of a step stays sorted.
  lemma FineFramed(s: seq<byte>, I: seq<int>, V: seq<int>, P: seq<int>, I': seq<int>, V': seq<int>, P': seq<int>,
                   g: nat, lo: int, m: int, hi: int)
    requires Fine(s, I, V, P, g, lo, m) && Framed(I, V, P, I', V', P', m, hi)
    ensures Fine(s, I', V', P', g, lo, m)
  {
  }

  lemma FineJoin(s: seq<byte>, I: seq<int>, V: seq<int>, P: seq<int>, g: nat, lo: int, m: int, hi: int)
    requires Fine(s, I, V, P, g, lo, m) && Fine(s, I, V, P, g, m, hi)
    ensures Fine(s, I, V, P, g, lo, hi)
  {
  }

  // The suffixes at positions lo..m carry one number, and nothing to the left reaches it.
  ghost predicate OneGroup(V: seq<int>, P: seq<int>, lo: int, m: int)
  {
    && 0 <= lo < m <= |P| == |V|
    && (forall k :: 0 <= k < |P| ==> 0 <= P[k] < |V|)
    && (forall k :: lo <= k < m ==> V[P[k]] == m - 1)
    && (lo > 0 ==> V[P[lo - 1]] < lo)
  }

  lemma OneGroupMarked(I: seq<int>, V: seq<int>, P: seq<int>, lo: int, m: int)
    requires OneGroup(V, P, lo, m) && |I| == |P|
    requires forall k :: lo <= k < m ==> I[k] == if m == lo + 1 then -1 else P[k]
    ensures Grouped(V, P, lo, m) && Marked(I, V, P, lo, m)
  {
    forall k | lo <= k < m
      ensures Single(V, P, k) <==> m == lo + 1
    {
      if k > lo {
        assert V[P[k - 1]] == m - 1;
      }
    }
  }

  lemma AssignedOneGroup(s: seq<byte>, V: seq<int>, W: seq<int>, P: seq<int>, Q: seq<int>, h: nat, lo: int, m: int,
                         hi: int, e: int)
    requires Coarse(s, V, P, Q, h, lo, hi, e) && lo < m <= hi && Assigned(V, W, Q, lo, m)
    ensures OneGroup(W, P, lo, m)
  {
    if lo > 0 {
      assert Q[P[lo - 1]] == lo - 1;
    }
  }

  // The suffixes at positions lo..m agree on g bytes.
  ghost predicate Alike(s: seq<byte>, P: seq<int>, g: nat, lo: int, m: int)
  {
    && 0 <= lo <= m <= |P|
    && (forall k :: lo <= k < m ==> 0 <= P[k] <= |s|)
    && (forall j, k {:trigger Lcp(s, P[j], s, P[k])} ::
          lo <= j < m && lo <= k < m && P[j] != P[k] ==> g <= Lcp(s, P[j], s, P[k]))
  }

  // Equal sort keys double the agreement of a block.
  lemma EqualKeysAlike(s: seq<byte>, V: seq<int>, P: seq<int>, h: nat, lo: int, m: int, e: int, x: int)
    requires Agreeing(s, V, h) && 0 <= lo <= m <= |P|
    requires forall k :: lo <= k < m ==> 0 <= P[k] && P[k] + h <= |s| && V[P[k]] == e && V[P[k] + h] == x
    ensures Alike(s, P, 2 * h, lo, m)
  {
    forall j, k | lo <= j < m && lo <= k < m && P[j] != P[k]
      ensures 2 * h <= Lcp(s, P[j], s, P[k])
    {
      KeyEqual(s, V, h, P[j], P[k]);
    }
  }

  // One newly numbered group of suffixes that agree on g bytes is sorted to depth g.
  lemma FineGroup(s: seq<byte>, I: seq<int>, V: seq<int>, W: seq<int>, P: seq<int>, Q: seq<int>, h: nat, g: nat,
                  lo: int, m: int, hi: int, e: int)
    requires Coarse(s, V, P, Q, h, lo, hi, e) && lo < m <= hi && Assigned(V, W, Q, lo, m)
    requires Alike(s, P, g, lo, m)
    requires |I| == |P|
    requires forall k :: lo <= k < m ==> I[k] == if m == lo + 1 then -1 else P[k]
    ensures Fine(s, I, W, P, g, lo, m)
  {
    AssignedOneGroup(s, V, W, P, Q, h, lo, m, hi, e);
    OneGroupMarked(I, W, P, lo, m);
  }

  // Suffixes with smaller sort keys precede the others.
  lemma KeysPrecede(s: seq<byte>, V: seq<int>, P: seq<int>, Q: seq<int>, h: nat, lo: int, m: int, hi: int, e: int)
    requires Coarse(s, V, P, Q, h, lo, hi, e) && lo <= m <= hi
    requires forall k, l :: lo <= k < m <= l < hi ==> V[P[k] + h] < V[P[l] + h]
    ensures Precedes(s, P, lo, m, hi)
  {
    forall k, l | lo <= k < m <= l < hi
      ensures Less(s, P[k], s, P[l])
    {
      KeyLess(s, V, h, P[k], P[l]);
    }
  }

  // The first part of a block whose parts are in order is a block.
  lemma NarrowCoarse(s: seq<byte>, V: seq<int>, P: seq<int>, Q: seq<int>, h: nat, lo: int, m: int, hi: int, e: int)
    requires Coarse(s, V, P, Q, h, lo, hi, e) && lo <= m <= hi && Precedes(s, P, lo, m, hi)
    ensures Coarse(s, V, P, Q, h, lo, m, e)
  {
  }

  // Once the first part is done, the untouched second part is the open block.
  lemma ResumeCoarse(s: seq<byte>, V: seq<int>, P: seq<int>, Q: seq<int>, V': seq<int>, P': seq<int>, Q': seq<int>,
                     I: seq<int>, I': seq<int>, h: nat, lo: int, m: int, hi: int, e: int)
    requires Coarse(s, V, P, Q, h, lo, hi, e) && lo <= m <= hi
    requires Coarse(s, V', P', Q', h, m, m, e) && Framed(I, V, P, I', V', P', lo, m)
    ensures Coarse(s, V', P', Q', h, m, hi, e)
  {
  }
}
