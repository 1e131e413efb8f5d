// One refinement step of the suffix sorter: a block of suffixes that agree on h bytes
// is split by the group numbers found h bytes further on.
module SuffixSplit {
  import opened Bytes
  import opened SuffixOrder
  import opened SuffixRanks

  // The sort key of the suffix at position k.
  function Key(V: seq<int>, P: seq<int>, h: nat, k: int): int
    requires 0 <= k < |P| && 0 <= P[k] + h < |V|
  {
    V[P[k] + h]
  }

  // The block lo..hi of I spells out its suffixes, and each has a sort key.
  ghost predicate Block(I: seq<int>, V: seq<int>, P: seq<int>, h: nat, lo: int, hi: int)
  {
    && 0 <= lo <= hi <= |P| == |I| == |V|
    && (forall k :: lo <= k < hi ==> I[k] == P[k] && 0 <= P[k] && P[k] + h < |V|)
  }

  // Nothing outside positions lo..hi has changed.
  ghost predicate Kept(I: seq<int>, I': seq<int>, lo: int, hi: int)
  {
    |I| == |I'| && forall l :: 0 <= l < |I| && !(lo <= l < hi) ==> I'[l] == I[l]
  }

  // Exchange two entries of the block.
  method SwapEntries(I: array<int>, V: array<int>, a: int, b: int, h: nat, ghost lo: int, ghost hi: int,
                     ghost P0: seq<int>, ghost Q0: seq<int>, ghost P: seq<int>, ghost Q: seq<int>)
    returns (ghost P': seq<int>, ghost Q': seq<int>)
    requires I != V && Block(I[..], V[..], P, h, lo, hi) && Rearranged(P0, Q0, P, Q, lo, hi)
    requires lo <= a < hi && lo <= b < hi
    modifies I
    ensures V[..] == old(V[..])
    ensures P' == Swap(P, a, b)
    ensures Block(I[..], V[..], P', h, lo, hi) && Rearranged(P0, Q0, P', Q', lo, hi)
    ensures Kept(old(I[..]), I[..], lo, hi)
  {
    var tmp := I[a];
    I[a] := I[b];
    I[b] := tmp;
    P', Q' := Swap(P, a, b), SwapInverse(P, Q, a, b);
    SwapPerm(P, Q, |P|, a, b);
  }

  // The front of positions k..m has the key x, and what follows it has greater keys.
  ghost predicate LeastFront(V: seq<int>, P: seq<int>, h: nat, x: int, k: int, j: int, m: int)
  {
    && 0 <= k <= k + j <= m <= |P|
    && (forall l :: k <= l < m ==> 0 <= P[l] && P[l] + h < |V|)
    && (forall l :: k <= l < k + j ==> Key(V, P, h, l) == x)
    && (forall l :: k + j <= l < m ==> x < Key(V, P, h, l))
  }

  lemma LeastFrontSwap(V: seq<int>, P: seq<int>, h: nat, x: int, k: int, j: int, m: int)
    requires LeastFront(V, P, h, x, k, j, m) && 0 <= j && m < |P|
    requires 0 <= P[m] && P[m] + h < |V| && Key(V, P, h, m) == x
    ensures LeastFront(V, Swap(P, k + j, m), h, x, k, j + 1, m + 1)
  {
    var R := Swap(P, k + j, m);
    forall l | k <= l < m + 1
      ensures 0 <= R[l] && R[l] + h < |V|
      ensures Key(V, R, h, l) == Key(V, P, h, if l == k + j then m else if l == m then k + j else l)
    {
    }
  }

  // An entry after the front with a lesser key starts a new front; one with a greater key
  // is left behind.
  lemma LeastFrontNext(V: seq<int>, P: seq<int>, h: nat, x: int, k: int, j: int, m: int, y: int)
    requires LeastFront(V, P, h, x, k, j, m) && 0 <= j && m < |P|
    requires 0 <= P[m] && P[m] + h < |V| && Key(V, P, h, m) == y
    ensures y < x ==> LeastFront(V, P, h, y, k, 0, m)
    ensures x < y ==> LeastFront(V, P, h, x, k, j, m + 1)
  {
  }

  // One turn of that loop: the entry at k + i joins the front, replaces it, or stays.
  method SelectStep(I: array<int>, V: array<int>, k: int, i: int, hi: int, h: nat, x: int, j: int,
                    ghost P0: seq<int>, ghost Q0: seq<int>, ghost P: seq<int>, ghost Q: seq<int>)
    returns (x': int, j': int, ghost P': seq<int>, ghost Q': seq<int>)
    requires I != V && 1 <= j <= i && k + i < hi
    requires Block(I[..], V[..], P, h, k, hi) && Rearranged(P0, Q0, P, Q, k, hi)
    requires LeastFront(V[..], P, h, x, k, j, k + i)
    modifies I
    ensures V[..] == old(V[..])
    ensures 1 <= j' <= i + 1 && Kept(old(I[..]), I[..], k, hi)
    ensures Block(I[..], V[..], P', h, k, hi) && Rearranged(P0, Q0, P', Q', k, hi)
    ensures LeastFront(V[..], P', h, x', k, j', k + i + 1)
  {
    x', j', P', Q' := x, j, P, Q;
    ghost var v := V[..];
    var y := V[I[k + i] + h];
    assert y == Key(v, P, h, k + i) by { assert I[..][k + i] == P[k + i]; }
    LeastFrontNext(v, P, h, x, k, j, k + i, y);
    if y < x {
      x', j' := y, 0;
    }
    if y == x' {
      LeastFrontSwap(v, P, h, x', k, j', k + i);
      P', Q' := SwapEntries(I, V, k + j', k + i, h, k, hi, P0, Q0, P, Q);
      j' := j' + 1;
    }
  }

  // The inner loop of the selection case (bsdiff.c:66-76): bring the suffixes with the
  // least sort key to the front of the block, and count them.
  method SelectLeast(I: array<int>, V: array<int>, k: int, hi: int, h: nat, ghost P0: seq<int>, ghost Q0: seq<int>)
    returns (j: int, ghost P: seq<int>, ghost Q: seq<int>)
    requires I != V && k < hi && Block(I[..], V[..], P0, h, k, hi) && Perm(P0, Q0, |P0|)
    modifies I
    ensures V[..] == old(V[..])
    ensures Block(I[..], V[..], P, h, k, hi) && Rearranged(P0, Q0, P, Q, k, hi) && Kept(old(I[..]), I[..], k, hi)
    ensures 1 <= j && k + j <= hi && LeastFront(V[..], P, h, Key(V[..], P, h, k), k, j, hi)
  {
    P, Q := P0, Q0;
    ghost var v := V[..];
    j := 1;
    var x := V[I[k] + h];
    assert x == Key(v, P, h, k) by { assert I[..][k] == P[k]; }
    var i := 1;
    while k + i < hi
      invariant V[..] == v && 1 <= j <= i && k + i <= hi
      invariant Block(I[..], v, P, h, k, hi) && Rearranged(P0, Q0, P, Q, k, hi) && Kept(old(I[..]), I[..], k, hi)
      invariant LeastFront(v, P, h, x, k, j, k + i)
    {
      x, j, P, Q := SelectStep(I, V, k, i, hi, h, x, j, P0, Q0, P, Q);
      i := i + 1;
    }
  }

  // Number the group at positions k..k+j and mark it when it stands alone
  // (bsdiff.c:77-78 and 115-116).
  method NumberGroup(I: array<int>, V: array<int>, k: int, j: int, ghost P: seq<int>, ghost Q: seq<int>)
    requires I != V && I.Length == V.Length && Perm(P, Q, I.Length)
    requires 0 <= k && 1 <= j && k + j <= I.Length && I[k..k + j] == P[k..k + j]
    modifies I, V
    ensures Assigned(old(V[..]), V[..], Q, k, k + j)
    ensures I[..] == if j == 1 then old(I[..])[k := -1] else old(I[..])
  {
    var i := 0;
    while i < j
      invariant 0 <= i <= j
      invariant I[..] == old(I[..])
      invariant forall a :: 0 <= a < V.Length ==> V[a] == if k <= Q[a] < k + i then k + j - 1 else old(V[a])
    {
      assert I[k + i] == old(I[k..k + j])[i] == P[k + i];
      V[I[k + i]] := k + j - 1;
      i := i + 1;
    }
    if j == 1 {
      I[k] := -1;
    }
  }

  // Where a suffix belongs: 0, 1 or 2 as its sort key is below, equal to or above the
  // pivot, and 3 outside the block.
  function Side(y: int, x: int): int
  {
    if y < x then 0 else if y == x then 1 else 2
  }

  function Sides(V: seq<int>, P: seq<int>, h: nat, x: int, lo: int, hi: int): (r: seq<int>)
    requires Keyed(V, P, h, lo, hi)
    ensures |r| == |P|
    ensures forall k :: 0 <= k < |P| ==> r[k] == if lo <= k < hi then Side(Key(V, P, h, k), x) else 3
  {
    seq(|P|, k requires 0 <= k < |P| => if lo <= k < hi then Side(Key(V, P, h, k), x) else 3)
  }

  ghost predicate Keyed(V: seq<int>, P: seq<int>, h: nat, lo: int, hi: int)
  {
    0 <= lo <= hi <= |P| && forall k :: lo <= k < hi ==> 0 <= P[k] && P[k] + h < |V|
  }

  // How often v occurs in C.
  function Count(C: seq<int>, v: int): (n: nat)
    ensures n <= |C|
  {
    if C == [] then 0 else Count(C[..|C| - 1], v) + if C[|C| - 1] == v then 1 else 0
  }

  lemma {:induction false} CountConcat(C: seq<int>, D: seq<int>, v: int)
    ensures Count(C + D, v) == Count(C, v) + Count(D, v)
  {
    if D == [] {
      assert C + D == C;
    } else {
      CountConcat(C, D[..|D| - 1], v);
      assert (C + D)[..|C + D| - 1] == C + D[..|D| - 1];
    }
  }

  lemma CountUpdate(C: seq<int>, p: int, w: int, v: int)
    requires 0 <= p < |C|
    ensures Count(C[p := w], v) + (if C[p] == v then 1 else 0) == Count(C, v) + (if w == v then 1 else 0)
  {
    assert C == C[..p] + ([C[p]] + C[p + 1..]);
    assert C[p := w] == C[..p] + ([w] + C[p + 1..]);
    CountConcat(C[..p], [C[p]] + C[p + 1..], v);
    CountConcat(C[..p], [w] + C[p + 1..], v);
    CountConcat([C[p]], C[p + 1..], v);
    CountConcat([w], C[p + 1..], v);
  }

  lemma SwapCounts(C: seq<int>, a: int, b: int, v: int)
    requires 0 <= a < |C| && 0 <= b < |C|
    ensures Count(Swap(C, a, b), v) == Count(C, v)
  {
    CountUpdate(C, a, C[b], v);
    CountUpdate(C[a := C[b]], b, C[a], v);
  }

  lemma {:induction false} RunCount(C: seq<int>, v: int)
    requires forall k :: 0 <= k < |C| ==> C[k] == v
    ensures Count(C, v) == |C|
  {
    if C != [] {
      RunCount(C[..|C| - 1], v);
    }
  }

  lemma CountSlice(C: seq<int>, a: int, b: int, v: int)
    requires 0 <= a <= b <= |C|
    ensures Count(C[a..b], v) <= Count(C, v)
  {
    CountConcat(C[..b], C[b..], v);
    CountConcat(C[..b][..a], C[..b][a..], v);
    assert C == C[..b] + C[b..] && C[..b] == C[..b][..a] + C[..b][a..] && C[..b][a..] == C[a..b];
  }

  // A run of equal sides, and one more outside the run, count more than the run.
  lemma RunAndOne(C: seq<int>, v: int, a: int, b: int, i: int)
    requires 0 <= a <= b <= |C| && 0 <= i < |C| && !(a <= i < b) && C[i] == v
    requires forall k :: a <= k < b ==> C[k] == v
    ensures Count(C, v) > b - a
  {
    var D := C[i := v + 1];
    CountUpdate(C, i, v + 1, v);
    CountSlice(D, a, b, v);
    RunCount(D[a..b], v);
  }

  // The three parts have their sizes.
  ghost predicate Counted(C: seq<int>, lo: int, jj: int, kk: int, hi: int)
  {
    && 0 <= lo <= jj <= kk <= hi <= |C|
    && Count(C, 0) == jj - lo && Count(C, 1) == kk - jj && Count(C, 2) == hi - kk
  }

  lemma CountedSwap(C: seq<int>, lo: int, jj: int, kk: int, hi: int, a: int, b: int)
    requires Counted(C, lo, jj, kk, hi) && 0 <= a < |C| && 0 <= b < |C|
    ensures Counted(Swap(C, a, b), lo, jj, kk, hi)
  {
    SwapCounts(C, a, b, 0);
    SwapCounts(C, a, b, 1);
    SwapCounts(C, a, b, 2);
  }

  // The run a..b of C has one value.
  ghost predicate Run(C: seq<int>, a: int, b: int, v: int)
  {
    0 <= a <= b <= |C| && forall l :: a <= l < b ==> C[l] == v
  }

  // An exchange outside a run keeps it; one that brings its value to its end extends it.
  lemma RunKept(C: seq<int>, a: int, b: int, v: int, p: int, q: int)
    requires Run(C, a, b, v) && 0 <= p < |C| && 0 <= q < |C|
    requires !(a <= p < b) && !(a <= q < b)
    ensures Run(Swap(C, p, q), a, b, v)
    ensures b < |C| && q == b && C[p] == v ==> Run(Swap(C, p, q), a, b + 1, v)
  {
  }

  // How far the partition of lo..hi has come: the entries below the pivot reach i from
  // lo, the equal ones reach ij from jj, the greater ones reach ik from kk.
  ghost predicate Parted(C: seq<int>, lo: int, jj: int, kk: int, hi: int, i: int, ij: int, ik: int)
  {
    && Counted(C, lo, jj, kk, hi) && i <= jj && ij <= kk && ik <= hi
    && Run(C, lo, i, 0) && Run(C, jj, ij, 1) && Run(C, kk, ik, 2)
    && (forall l :: lo <= l < hi ==> 0 <= C[l] <= 2)
  }

  // An entry outside its part has room there; after the first part is full, none of the
  // smallest remain.
  lemma PartedRoom(C: seq<int>, lo: int, jj: int, kk: int, hi: int, i: int, ij: int, ik: int, p: int)
    requires Parted(C, lo, jj, kk, hi, i, ij, ik) && i <= p < kk && !(jj <= p < ij)
    ensures p < jj && C[p] == 1 ==> ij < kk
    ensures C[p] == 2 ==> ik < hi
    ensures i == jj ==> C[p] != 0
  {
    if C[p] == 1 {
      RunAndOne(C, 1, jj, ij, p);
    } else if C[p] == 2 {
      RunAndOne(C, 2, kk, ik, p);
    } else if i == jj {
      RunAndOne(C, 0, lo, jj, p);
    }
  }

  // When the first two parts are full, the third holds exactly the greater keys.
  lemma PartedDone(C: seq<int>, lo: int, jj: int, kk: int, hi: int, ik: int)
    requires Parted(C, lo, jj, kk, hi, jj, kk, ik)
    ensures Run(C, kk, hi, 2)
  {
    forall l | kk <= l < hi
      ensures C[l] == 2
    {
      if C[l] == 0 {
        RunAndOne(C, 0, lo, jj, l);
      } else if C[l] == 1 {
        RunAndOne(C, 1, jj, kk, l);
      }
    }
  }

  // One step of the partition at entry p: an entry that belongs where it stands extends
  // its part, any other is exchanged with the end of its own part.
  ghost predicate PartedStep(C: seq<int>, C': seq<int>, p: int, i: int, ij: int, ik: int, i': int, ij': int, ik': int)
  {
    && 0 <= p < |C| && 0 <= C[p] <= 2
    && (C[p] == 0 ==> C' == C && i' == i + 1 && ij' == ij && ik' == ik)
    && (C[p] == 1 ==>
          0 <= ij < |C| && C' == (if p == ij then C else Swap(C, p, ij)) && i' == i && ij' == ij + 1 && ik' == ik)
    && (C[p] == 2 ==> 0 <= ik < |C| && C' == Swap(C, p, ik) && i' == i && ij' == ij && ik' == ik + 1)
  }

  lemma PartedStepKeeps(C: seq<int>, C': seq<int>, lo: int, jj: int, kk: int, hi: int, p: int,
                        i: int, ij: int, ik: int, i': int, ij': int, ik': int)
    requires Parted(C, lo, jj, kk, hi, i, ij, ik) && PartedStep(C, C', p, i, ij, ik, i', ij', ik')
    requires (p == i < jj) || (i == jj && p == ij < kk)
    ensures i' + ij' + ik' == i + ij + ik + 1
    ensures Parted(C', lo, jj, kk, hi, i', ij', ik')
  {
    PartedRoom(C, lo, jj, kk, hi, i, ij, ik, p);
    if C[p] == 1 && p != ij {
      CountedSwap(C, lo, jj, kk, hi, p, ij);
      RunKept(C, lo, i, 0, p, ij);
      RunKept(C, jj, ij, 1, p, ij);
      RunKept(C, kk, ik, 2, p, ij);
    } else if C[p] == 2 {
      CountedSwap(C, lo, jj, kk, hi, p, ik);
      RunKept(C, lo, i, 0, p, ik);
      RunKept(C, jj, ij, 1, p, ik);
      RunKept(C, kk, ik, 2, p, ik);
    }
  }

  lemma SwapSides(V: seq<int>, P: seq<int>, h: nat, x: int, lo: int, hi: int, a: int, b: int)
    requires Keyed(V, P, h, lo, hi) && lo <= a < hi && lo <= b < hi
    ensures Keyed(V, Swap(P, a, b), h, lo, hi)
    ensures Sides(V, Swap(P, a, b), h, x, lo, hi) == Swap(Sides(V, P, h, x, lo, hi), a, b)
  {
    var R := Swap(P, a, b);
    var C := Sides(V, P, h, x, lo, hi);
    forall k | 0 <= k < |P|
      ensures Sides(V, R, h, x, lo, hi)[k] == Swap(C, a, b)[k]
    {
      if lo <= k < hi {
        assert Key(V, R, h, k) == Key(V, P, h, if k == b then a else if k == a then b else k);
      }
    }
  }

  // The tally of the positions start..i.
  ghost predicate Tallied(C: seq<int>, start: int, i: int, jj: int, kk: int)
  {
    0 <= start <= i <= |C| && Count(C[..i], 0) == jj && Count(C[..i], 1) == kk
    && Count(C[..i], 2) == i - start - jj - kk
  }

  lemma TallyNext(C: seq<int>, start: int, i: int, jj: int, kk: int, jj': int, kk': int)
    requires Tallied(C, start, i, jj, kk) && i < |C| && 0 <= C[i] <= 2
    requires jj' == jj + (if C[i] == 0 then 1 else 0) && kk' == kk + (if C[i] == 1 then 1 else 0)
    ensures Tallied(C, start, i + 1, jj', kk')
  {
    assert C[..i + 1][..i] == C[..i];
  }

  lemma TallyDone(C: seq<int>, start: int, hi: int, jj: int, kk: int)
    requires Tallied(C, start, hi, jj, kk) && forall k :: hi <= k < |C| ==> C[k] == 3
    ensures Counted(C, start, start + jj, start + jj + kk, hi)
  {
    CountUpTo(C, hi);
  }

  // The pivot's counts (bsdiff.c:84-89).
  method CountSides(I: array<int>, V: array<int>, start: int, len: int, h: nat, x: int, ghost P: seq<int>,
                    ghost C: seq<int>)
    returns (jj: int, kk: int)
    requires Sided(I[..], V[..], P, C, h, x, start, start + len)
    ensures Counted(C, start, jj, kk, start + len)
  {
    jj, kk := 0, 0;
    ghost var hi := start + len;
    CountOutside(C, start);
    var i := start;
    while i < start + len
      invariant start <= i <= hi && Tallied(C, start, i, jj, kk)
    {
      SideOfEntry(I[..], V[..], P, C, h, x, start, hi, i);
      ghost var jj0, kk0 := jj, kk;
      if V[I[i] + h] < x {
        jj := jj + 1;
      }
      if V[I[i] + h] == x {
        kk := kk + 1;
      }
      TallyNext(C, start, i, jj0, kk0, jj, kk);
      i := i + 1;
    }
    TallyDone(C, start, hi, jj, kk);
    jj := jj + start;
    kk := kk + jj;
  }

  lemma CountUpTo(C: seq<int>, n: int)
    requires 0 <= n <= |C| && forall k :: n <= k < |C| ==> C[k] == 3
    ensures Count(C[..n], 0) == Count(C, 0) && Count(C[..n], 1) == Count(C, 1) && Count(C[..n], 2) == Count(C, 2)
  {
    var D, E := C[..n], C[n..];
    CountOutside(E, |E|);
    assert C == D + E && E[..|E|] == E;
    CountConcat(D, E, 0);
    CountConcat(D, E, 1);
    CountConcat(D, E, 2);
  }

  lemma {:induction false} CountOutside(C: seq<int>, n: int)
    requires 0 <= n <= |C| && forall k :: 0 <= k < n ==> C[k] == 3
    ensures Count(C[..n], 0) == 0 && Count(C[..n], 1) == 0 && Count(C[..n], 2) == 0
    decreases n
  {
    if n > 0 {
      CountOutside(C, n - 1);
      assert C[..n][..n - 1] == C[..n - 1];
    }
  }

  // The block and the sides of its suffixes.
  ghost predicate Sided(I: seq<int>, V: seq<int>, P: seq<int>, C: seq<int>, h: nat, x: int, lo: int, hi: int)
  {
    Block(I, V, P, h, lo, hi) && Keyed(V, P, h, lo, hi) && C == Sides(V, P, h, x, lo, hi)
  }

  lemma SideOfEntry(I: seq<int>, V: seq<int>, P: seq<int>, C: seq<int>, h: nat, x: int, lo: int, hi: int, k: int)
    requires Sided(I, V, P, C, h, x, lo, hi) && lo <= k < hi
    ensures |C| == |I| && I[k] == P[k] && 0 <= I[k] + h < |V| && C[k] == Side(V[I[k] + h], x)
  {
  }

  // One exchange of the partition, seen through the sides.
  method SwapAcross(I: array<int>, V: array<int>, a: int, b: int, h: nat, ghost x: int, ghost lo: int, ghost hi: int,
                    ghost P0: seq<int>, ghost Q0: seq<int>, ghost P: seq<int>, ghost Q: seq<int>, ghost C: seq<int>)
    returns (ghost P': seq<int>, ghost Q': seq<int>)
    requires I != V && Sided(I[..], V[..], P, C, h, x, lo, hi) && Rearranged(P0, Q0, P, Q, lo, hi)
    requires lo <= a < hi && lo <= b < hi
    modifies I
    ensures V[..] == old(V[..]) && Kept(old(I[..]), I[..], lo, hi) && Rearranged(P0, Q0, P', Q', lo, hi)
    ensures |C| == |I[..]| && Sided(I[..], V[..], P', Swap(C, a, b), h, x, lo, hi)
  {
    SwapSides(V[..], P, h, x, lo, hi, a, b);
    P', Q' := SwapEntries(I, V, a, b, h, lo, hi, P0, Q0, P, Q);
  }

  // One turn of the first loop (bsdiff.c:93-101).
  method PartitionStep(I: array<int>, V: array<int>, h: nat, x: int, i: int, ij: int, ik: int,
                       ghost lo: int, ghost hi: int, ghost C: seq<int>,
                       ghost P0: seq<int>, ghost Q0: seq<int>, ghost P: seq<int>, ghost Q: seq<int>)
    returns (i': int, ij': int, ik': int, ghost C': seq<int>, ghost P': seq<int>, ghost Q': seq<int>)
    requires I != V && Rearranged(P0, Q0, P, Q, lo, hi) && lo <= i < hi && i < ij
    requires Sided(I[..], V[..], P, C, h, x, lo, hi)
    requires |C| == |I[..]| && (C[i] == 1 ==> lo <= ij < hi) && (C[i] == 2 ==> lo <= ik < hi)
    modifies I
    ensures V[..] == old(V[..]) && Kept(old(I[..]), I[..], lo, hi) && Rearranged(P0, Q0, P', Q', lo, hi)
    ensures Sided(I[..], V[..], P', C', h, x, lo, hi)
    ensures PartedStep(C, C', i, i, ij, ik, i', ij', ik')
  {
    i', ij', ik', C', P', Q' := i, ij, ik, C, P, Q;
    SideOfEntry(I[..], V[..], P, C, h, x, lo, hi, i);
    if V[I[i] + h] < x {
      i' := i + 1;
    } else if V[I[i] + h] == x {
      P', Q' := SwapAcross(I, V, i, ij, h, x, lo, hi, P0, Q0, P, Q, C);
      C', ij' := Swap(C, i, ij), ij + 1;
    } else {
      P', Q' := SwapAcross(I, V, i, ik, h, x, lo, hi, P0, Q0, P, Q, C);
      C', ik' := Swap(C, i, ik), ik + 1;
    }
  }

  // The same, seen from the parts.
  method FrontTurn(I: array<int>, V: array<int>, h: nat, x: int, i: int, ij: int, ik: int,
                   ghost lo: int, ghost jj: int, ghost kk: int, ghost hi: int, ghost C: seq<int>,
                   ghost P0: seq<int>, ghost Q0: seq<int>, ghost P: seq<int>, ghost Q: seq<int>)
    returns (i': int, ij': int, ik': int, ghost C': seq<int>, ghost P': seq<int>, ghost Q': seq<int>)
    requires I != V && Rearranged(P0, Q0, P, Q, lo, hi) && lo <= i < jj
    requires Sided(I[..], V[..], P, C, h, x, lo, hi) && Parted(C, lo, jj, kk, hi, i, ij, ik) && jj <= ij && kk <= ik
    modifies I
    ensures V[..] == old(V[..]) && Kept(old(I[..]), I[..], lo, hi) && Rearranged(P0, Q0, P', Q', lo, hi)
    ensures Sided(I[..], V[..], P', C', h, x, lo, hi)
    ensures Parted(C', lo, jj, kk, hi, i', ij', ik') && i <= i' && jj <= ij' && kk <= ik'
    ensures i' + ij' + ik' == i + ij + ik + 1
  {
    PartedRoom(C, lo, jj, kk, hi, i, ij, ik, i);
    i', ij', ik', C', P', Q' := PartitionStep(I, V, h, x, i, ij, ik, lo, hi, C, P0, Q0, P, Q);
    PartedStepKeeps(C, C', lo, jj, kk, hi, i, i, ij, ik, i', ij', ik');
  }

  // One turn of the second loop (bsdiff.c:105-110).
  method PartitionTail(I: array<int>, V: array<int>, h: nat, x: int, ghost i: int, ij: int, ik: int,
                       ghost lo: int, ghost hi: int, ghost C: seq<int>,
                       ghost P0: seq<int>, ghost Q0: seq<int>, ghost P: seq<int>, ghost Q: seq<int>)
    returns (ij': int, ik': int, ghost C': seq<int>, ghost P': seq<int>, ghost Q': seq<int>)
    requires I != V && Rearranged(P0, Q0, P, Q, lo, hi) && lo <= ij < hi
    requires Sided(I[..], V[..], P, C, h, x, lo, hi)
    requires |C| == |I[..]| && C[ij] != 0 && (C[ij] == 2 ==> lo <= ik < hi)
    modifies I
    ensures V[..] == old(V[..]) && Kept(old(I[..]), I[..], lo, hi) && Rearranged(P0, Q0, P', Q', lo, hi)
    ensures Sided(I[..], V[..], P', C', h, x, lo, hi)
    ensures PartedStep(C, C', ij, i, ij, ik, i, ij', ik')
  {
    ij', ik', C', P', Q' := ij, ik, C, P, Q;
    SideOfEntry(I[..], V[..], P, C, h, x, lo, hi, ij);
    if V[I[ij] + h] == x {
      ij' := ij + 1;
    } else {
      P', Q' := SwapAcross(I, V, ij, ik, h, x, lo, hi, P0, Q0, P, Q, C);
      C', ik' := Swap(C, ij, ik), ik + 1;
    }
  }

  // The first loop of the three-way partition (bsdiff.c:91-102): the front holds the
  // suffixes below the pivot x.  The ends jj + j and kk + k of the other two parts are
  // kept as ij and ik.
  method PartitionFront(I: array<int>, V: array<int>, start: int, len: int, h: nat, x: int, jj: int, kk: int,
                        ghost P0: seq<int>, ghost Q0: seq<int>, ghost C0: seq<int>)
    returns (ij: int, ik: int, ghost C: seq<int>, ghost P: seq<int>, ghost Q: seq<int>)
    requires I != V && Perm(P0, Q0, |P0|) && Sided(I[..], V[..], P0, C0, h, x, start, start + len)
    requires Parted(C0, start, jj, kk, start + len, start, jj, kk)
    modifies I
    ensures V[..] == old(V[..]) && Kept(old(I[..]), I[..], start, start + len)
    ensures Sided(I[..], V[..], P, C, h, x, start, start + len) && Rearranged(P0, Q0, P, Q, start, start + len)
    ensures Parted(C, start, jj, kk, start + len, jj, ij, ik)
  {
    C, P, Q := C0, P0, Q0;
    ghost var v, hi := V[..], start + len;
    var i := start;
    ij, ik := jj, kk;
    while i < jj
      invariant V[..] == v && Kept(old(I[..]), I[..], start, hi) && Rearranged(P0, Q0, P, Q, start, hi)
      invariant start <= i <= jj && Sided(I[..], v, P, C, h, x, start, hi)
      invariant Parted(C, start, jj, kk, hi, i, ij, ik) && jj <= ij && kk <= ik
      decreases jj + kk + start + len - i - ij - ik
    {
      i, ij, ik, C, P, Q := FrontTurn(I, V, h, x, i, ij, ik, start, jj, kk, hi, C, P0, Q0, P, Q);
    }
  }

  // The second loop (bsdiff.c:104-111): the middle holds the suffixes equal to the pivot.
  method PartitionBack(I: array<int>, V: array<int>, start: int, len: int, h: nat, x: int, jj: int, kk: int, ij0: int,
                       ik0: int,
                       ghost P0: seq<int>, ghost Q0: seq<int>, ghost P1: seq<int>, ghost Q1: seq<int>,
                       ghost C1: seq<int>)
    returns (ghost C: seq<int>, ghost P: seq<int>, ghost Q: seq<int>)
    requires I != V && Sided(I[..], V[..], P1, C1, h, x, start, start + len)
    requires Rearranged(P0, Q0, P1, Q1, start, start + len)
    requires Parted(C1, start, jj, kk, start + len, jj, ij0, ik0)
    modifies I
    ensures V[..] == old(V[..]) && Kept(old(I[..]), I[..], start, start + len)
    ensures Sided(I[..], V[..], P, C, h, x, start, start + len) && Rearranged(P0, Q0, P, Q, start, start + len)
    ensures Run(C, start, jj, 0) && Run(C, jj, kk, 1) && Run(C, kk, start + len, 2)
  {
    C, P, Q := C1, P1, Q1;
    ghost var v, hi := V[..], start + len;
    var ij, ik := ij0, ik0;
    while ij < kk
      invariant V[..] == v && Kept(old(I[..]), I[..], start, hi) && Rearranged(P0, Q0, P, Q, start, hi)
      invariant Sided(I[..], v, P, C, h, x, start, hi)
      invariant Parted(C, start, jj, kk, hi, jj, ij, ik)
      decreases kk + start + len - ij - ik
    {
      PartedRoom(C, start, jj, kk, hi, jj, ij, ik, ij);
      ghost var D, ij1, ik1 := C, ij, ik;
      ij, ik, C, P, Q := PartitionTail(I, V, h, x, jj, ij, ik, start, hi, C, P0, Q0, P, Q);
      PartedStepKeeps(D, C, start, jj, kk, hi, ij1, jj, ij1, ik1, jj, ij, ik);
    }
    PartedDone(C, start, jj, kk, hi, ik);
  }

  // The selection case, for a small block (bsdiff.c:65-79).
  method SplitSmall(I: array<int>, V: array<int>, start: int, len: int, h: nat, ghost s: seq<byte>, ghost e: int,
                    ghost P0: seq<int>, ghost Q0: seq<int>)
    returns (ghost P: seq<int>, ghost Q: seq<int>)
    requires I != V && 0 < len && Splittable(s, I[..], V[..], P0, Q0, h, start, start + len, e)
    modifies I, V
    ensures SplitDone(s, old(I[..]), old(V[..]), P0, I[..], V[..], P, Q, h, start, start + len, e)
  {
    ghost var hi, i0, v0 := start + len, I[..], V[..];
    SplitNothing(s, i0, v0, P0, Q0, h, start, hi, e);
    P, Q := SplitGroups(I, V, start, len, h, s, e, i0, v0, P0, P0, Q0);
    SplitAll(s, i0, v0, P0, I[..], V[..], P, Q, h, start, hi, e);
  }

  // Its loop: the groups are split off one at a time, the least first.
  method SplitGroups(I: array<int>, V: array<int>, start: int, len: int, h: nat, ghost s: seq<byte>, ghost e: int,
                     ghost I0: seq<int>, ghost V0: seq<int>, ghost P0: seq<int>, ghost P1: seq<int>, ghost Q1: seq<int>)
    returns (ghost P: seq<int>, ghost Q: seq<int>)
    requires I != V && 0 < len && SplitUpTo(s, I0, V0, P0, I[..], V[..], P1, Q1, h, start, start, start + len, e)
    modifies I, V
    ensures SplitUpTo(s, I0, V0, P0, I[..], V[..], P, Q, h, start, start + len, start + len, e)
  {
    P, Q := P1, Q1;
    var k := start;
    while k < start + len
      invariant start <= k <= start + len
      invariant SplitUpTo(s, I0, V0, P0, I[..], V[..], P, Q, h, start, k, start + len, e)
    {
      var j;
      j, P, Q := SplitOne(I, V, start, k, start + len, h, s, e, I0, V0, P0, P, Q);
      k := k + j;
    }
  }

  // A block ready to be split.
  ghost predicate Splittable(s: seq<byte>, I: seq<int>, V: seq<int>, P: seq<int>, Q: seq<int>, h: nat, lo: int,
                             hi: int, e: int)
  {
    Coarse(s, V, P, Q, h, lo, hi, e) && Block(I, V, P, h, lo, hi)
  }

  // A block split: its groups agree on twice as many bytes, and nothing else moved.
  ghost predicate SplitDone(s: seq<byte>, I0: seq<int>, V0: seq<int>, P0: seq<int>,
                            I: seq<int>, V: seq<int>, P: seq<int>, Q: seq<int>, h: nat, lo: int, hi: int, e: int)
  {
    && Coarse(s, V, P, Q, h, hi, hi, e)
    && Fine(s, I, V, P, 2 * h, lo, hi)
    && Framed(I0, V0, P0, I, V, P, lo, hi)
  }

  // Positions lo..k are done, k..hi is still a block, and nothing outside lo..hi has changed.
  ghost predicate SplitUpTo(s: seq<byte>, I0: seq<int>, V0: seq<int>, P0: seq<int>,
                            I: seq<int>, V: seq<int>, P: seq<int>, Q: seq<int>,
                            h: nat, lo: int, k: int, hi: int, e: int)
  {
    Splittable(s, I, V, P, Q, h, k, hi, e) && Fine(s, I, V, P, 2 * h, lo, k) && Framed(I0, V0, P0, I, V, P, lo, hi)
  }

  lemma SplitNothing(s: seq<byte>, I: seq<int>, V: seq<int>, P: seq<int>, Q: seq<int>, h: nat, lo: int, hi: int, e: int)
    requires Splittable(s, I, V, P, Q, h, lo, hi, e)
    ensures SplitUpTo(s, I, V, P, I, V, P, Q, h, lo, lo, hi, e)
  {
  }

  lemma SplitAll(s: seq<byte>, I0: seq<int>, V0: seq<int>, P0: seq<int>,
                 I: seq<int>, V: seq<int>, P: seq<int>, Q: seq<int>, h: nat, lo: int, hi: int, e: int)
    requires SplitUpTo(s, I0, V0, P0, I, V, P, Q, h, lo, hi, hi, e)
    ensures SplitDone(s, I0, V0, P0, I, V, P, Q, h, lo, hi, e)
  {
  }

  // One turn of the selection case: the least group is brought forward and numbered.
  method SplitOne(I: array<int>, V: array<int>, ghost lo: int, k: int, hi: int, h: nat, ghost s: seq<byte>,
                  ghost e: int,
                  ghost I0: seq<int>, ghost V0: seq<int>, ghost P0: seq<int>, ghost P1: seq<int>, ghost Q1: seq<int>)
    returns (j: int, ghost P: seq<int>, ghost Q: seq<int>)
    requires I != V && lo <= k < hi && SplitUpTo(s, I0, V0, P0, I[..], V[..], P1, Q1, h, lo, k, hi, e)
    modifies I, V
    ensures 1 <= j && k + j <= hi && SplitUpTo(s, I0, V0, P0, I[..], V[..], P, Q, h, lo, k + j, hi, e)
  {
    ghost var i1, v1 := I[..], V[..];
    j, P, Q := SelectLeast(I, V, k, hi, h, P1, Q1);
    ghost var i2 := I[..];
    RearrangedCoarse(s, v1, P1, Q1, P, Q, h, k, hi, e);
    NumberGroup(I, V, k, j, P, Q);
    LeastSplit(s, v1, P, Q, i2, I[..], V[..], h, k, j, hi, e);
    LeastAdvance(s, I0, V0, P0, i1, v1, P1, Q1, i2, I[..], V[..], P, Q, 2 * h, lo, k, j, hi);
  }

  lemma LeastAdvance(s: seq<byte>, I0: seq<int>, V0: seq<int>, P0: seq<int>, I1: seq<int>, V1: seq<int>, P1: seq<int>,
                     Q1: seq<int>,
                     I2: seq<int>, I: seq<int>, V: seq<int>, P: seq<int>, Q: seq<int>,
                     g: nat, lo: int, k: int, j: int, hi: int)
    requires 0 <= lo <= k < k + j <= hi <= |P1|
    requires Fine(s, I1, V1, P1, g, lo, k) && Framed(I0, V0, P0, I1, V1, P1, lo, hi)
    requires Rearranged(P1, Q1, P, Q, k, hi) && Kept(I1, I2, k, hi)
    requires Assigned(V1, V, Q, k, k + j) && I == if j == 1 then I2[k := -1] else I2
    requires Fine(s, I, V, P, g, k, k + j)
    ensures Fine(s, I, V, P, g, lo, k + j) && Framed(I0, V0, P0, I, V, P, lo, hi)
  {
    FramedLeast(I1, V1, P1, Q1, I2, I, V, P, Q, k, j, hi);
    FineAdvance(s, I0, V0, P0, I1, V1, P1, I, V, P, g, lo, k, k + j, hi);
  }

  lemma LeastSplit(s: seq<byte>, V1: seq<int>, P: seq<int>, Q: seq<int>, I2: seq<int>, I: seq<int>, V: seq<int>,
                   h: nat, k: int, j: int, hi: int, e: int)
    requires k < k + j <= hi
    requires Coarse(s, V1, P, Q, h, k, hi, e) && Block(I2, V1, P, h, k, hi)
    requires LeastFront(V1, P, h, Key(V1, P, h, k), k, j, hi)
    requires Assigned(V1, V, Q, k, k + j) && I == if j == 1 then I2[k := -1] else I2
    ensures Splittable(s, I, V, P, Q, h, k + j, hi, e)
    ensures Fine(s, I, V, P, 2 * h, k, k + j)
  {
    LeastPrecedes(s, V1, P, Q, h, k, j, hi, e);
    LeastGroup(s, I2, V1, P, Q, I, V, h, k, j, hi, e);
  }

  lemma FramedLeast(I1: seq<int>, V1: seq<int>, P1: seq<int>, Q1: seq<int>, I2: seq<int>, I: seq<int>, V: seq<int>,
                    P: seq<int>, Q: seq<int>, k: int, j: int, hi: int)
    requires Rearranged(P1, Q1, P, Q, k, hi) && Kept(I1, I2, k, hi) && |I1| == |P1| && 0 <= k < k + j <= hi <= |P1|
    requires Assigned(V1, V, Q, k, k + j) && I == if j == 1 then I2[k := -1] else I2
    ensures Framed(I1, V1, P1, I, V, P, k, hi)
  {
    FramedAssign(I1, V1, P1, Q1, I2, I, V, P, Q, k, k + j, hi);
  }

  // The least group has one key, and precedes the rest of the block.
  lemma LeastPrecedes(s: seq<byte>, V: seq<int>, P: seq<int>, Q: seq<int>, h: nat, k: int, j: int, hi: int, e: int)
    requires k < k + j <= hi && Coarse(s, V, P, Q, h, k, hi, e)
    requires LeastFront(V, P, h, Key(V, P, h, k), k, j, hi)
    ensures Precedes(s, P, k, k + j, hi) && Alike(s, P, 2 * h, k, k + j)
  {
    forall a, b | k <= a < k + j <= b < hi
      ensures V[P[a] + h] < V[P[b] + h]
    {
      assert Key(V, P, h, a) < Key(V, P, h, b);
    }
    KeysPrecede(s, V, P, Q, h, k, k + j, hi, e);
    forall a | k <= a < k + j
      ensures V[P[a] + h] == V[P[k] + h]
    {
      assert Key(V, P, h, a) == Key(V, P, h, k);
    }
    EqualKeysAlike(s, V, P, h, k, k + j, e, V[P[k] + h]);
  }

  // The least group, once numbered, is done and leaves the rest open.
  lemma LeastGroup(s: seq<byte>, I2: seq<int>, V1: seq<int>, P: seq<int>, Q: seq<int>, I: seq<int>, V: seq<int>,
                   h: nat, k: int, j: int, hi: int, e: int)
    requires k < k + j <= hi
    requires Coarse(s, V1, P, Q, h, k, hi, e) && Block(I2, V1, P, h, k, hi)
    requires Precedes(s, P, k, k + j, hi) && Alike(s, P, 2 * h, k, k + j)
    requires Assigned(V1, V, Q, k, k + j) && I == if j == 1 then I2[k := -1] else I2
    ensures Splittable(s, I, V, P, Q, h, k + j, hi, e)
    ensures Fine(s, I, V, P, 2 * h, k, k + j)
  {
    AssignCoarse(s, V1, V, P, Q, h, k, k + j, hi, e);
    FineGroup(s, I, V1, V, P, Q, h, 2 * h, k, k + j, hi, e);
  }

  lemma FineAdvance(s: seq<byte>, I0: seq<int>, V0: seq<int>, P0: seq<int>, I1: seq<int>, V1: seq<int>, P1: seq<int>,
                    I: seq<int>, V: seq<int>, P: seq<int>, g: nat, lo: int, k: int, m: int, hi: int)
    requires lo <= k && Fine(s, I1, V1, P1, g, lo, k) && Framed(I0, V0, P0, I1, V1, P1, lo, hi)
    requires Fine(s, I, V, P, g, k, m) && Framed(I1, V1, P1, I, V, P, k, hi)
    ensures Fine(s, I, V, P, g, lo, m) && Framed(I0, V0, P0, I, V, P, lo, hi)
  {
    FineFramed(s, I1, V1, P1, I, V, P, g, lo, k, hi);
    FineJoin(s, I, V, P, g, lo, k, m);
    FramedTrans(I0, V0, P0, I1, V1, P1, I, V, P, lo, k, hi);
  }

  lemma FramedAssign(I1: seq<int>, V1: seq<int>, P1: seq<int>, Q1: seq<int>, I2: seq<int>, I: seq<int>, V: seq<int>,
                     P: seq<int>, Q: seq<int>, lo: int, m: int, hi: int)
    requires Rearranged(P1, Q1, P, Q, lo, hi) && Kept(I1, I2, lo, hi) && |I1| == |P1| && 0 <= lo < m <= hi <= |P1|
    requires Assigned(V1, V, Q, lo, m)
    requires forall l :: 0 <= l < |I2| && !(lo <= l < hi) && |I| == |I2| ==> I[l] == I2[l]
    requires |I| == |I2|
    ensures Framed(I1, V1, P1, I, V, P, lo, hi)
  {
  }

  lemma FramedTrans(I0: seq<int>, V0: seq<int>, P0: seq<int>, I1: seq<int>, V1: seq<int>, P1: seq<int>,
                    I: seq<int>, V: seq<int>, P: seq<int>, lo: int, k: int, hi: int)
    requires Framed(I0, V0, P0, I1, V1, P1, lo, hi) && Framed(I1, V1, P1, I, V, P, k, hi) && lo <= k
    ensures Framed(I0, V0, P0, I, V, P, lo, hi)
  {
  }

  // What the partition gives: the three parts are in order, and the middle has one key.
  lemma SidesPrecede(s: seq<byte>, V: seq<int>, P: seq<int>, Q: seq<int>, C: seq<int>, h: nat, x: int,
                     lo: int, jj: int, kk: int, hi: int, e: int)
    requires Coarse(s, V, P, Q, h, lo, hi, e) && Keyed(V, P, h, lo, hi) && C == Sides(V, P, h, x, lo, hi)
    requires 0 <= lo <= jj <= kk <= hi <= |C| && Run(C, lo, jj, 0) && Run(C, jj, kk, 1) && Run(C, kk, hi, 2)
    ensures Precedes(s, P, lo, jj, hi) && Precedes(s, P, jj, kk, hi)
    ensures Alike(s, P, 2 * h, jj, kk)
  {
    assert forall k :: lo <= k < hi ==> C[k] == Side(V[P[k] + h], x);
    forall k, l | lo <= k < jj <= l < hi
      ensures Less(s, P[k], s, P[l])
    {
      assert C[k] == 0 && C[l] != 0;
      KeyLess(s, V, h, P[k], P[l]);
    }
    forall k, l | jj <= k < kk <= l < hi
      ensures Less(s, P[k], s, P[l])
    {
      assert C[k] == 1 && C[l] == 2;
      KeyLess(s, V, h, P[k], P[l]);
    }
    assert forall k :: jj <= k < kk ==> C[k] == 1 && V[P[k] + h] == x;
    EqualKeysAlike(s, V, P, h, jj, kk, e, x);
  }

  // Partition a large block around its middle element (bsdiff.c:83-111).
  method PartitionBlock(I: array<int>, V: array<int>, start: int, len: int, h: nat, ghost s: seq<byte>, ghost e: int,
                        ghost P0: seq<int>, ghost Q0: seq<int>)
    returns (jj: int, kk: int, ghost P: seq<int>, ghost Q: seq<int>)
    requires I != V && 0 < len && Splittable(s, I[..], V[..], P0, Q0, h, start, start + len, e)
    modifies I
    ensures V[..] == old(V[..]) && Kept(old(I[..]), I[..], start, start + len)
    ensures Splittable(s, I[..], V[..], P, Q, h, start, start + len, e) && Rearranged(P0, Q0, P, Q, start, start + len)
    ensures start <= jj < kk <= start + len
    ensures Precedes(s, P, start, jj, start + len) && Precedes(s, P, jj, kk, start + len)
    ensures Alike(s, P, 2 * h, jj, kk)
  {
    ghost var v, hi, C := V[..], start + len, [];
    ghost var x;
    jj, kk, x, C, P, Q := PartitionSides(I, V, start, len, h, P0, Q0);
    RearrangedCoarse(s, v, P0, Q0, P, Q, h, start, hi, e);
    SidesPrecede(s, v, P, Q, C, h, x, start, jj, kk, hi, e);
  }

  method PartitionSides(I: array<int>, V: array<int>, start: int, len: int, h: nat, ghost P0: seq<int>,
                        ghost Q0: seq<int>)
    returns (jj: int, kk: int, ghost x: int, ghost C: seq<int>, ghost P: seq<int>, ghost Q: seq<int>)
    requires I != V && 0 < len && Block(I[..], V[..], P0, h, start, start + len) && Perm(P0, Q0, |P0|)
    modifies I
    ensures V[..] == old(V[..]) && Kept(old(I[..]), I[..], start, start + len)
    ensures Sided(I[..], V[..], P, C, h, x, start, start + len) && Rearranged(P0, Q0, P, Q, start, start + len)
    ensures start <= jj < kk <= start + len
    ensures Run(C, start, jj, 0) && Run(C, jj, kk, 1) && Run(C, kk, start + len, 2)
  {
    var y := V[I[start + len / 2] + h];
    x := y;
    C := Sides(V[..], P0, h, x, start, start + len);
    SideOfEntry(I[..], V[..], P0, C, h, x, start, start + len, start + len / 2);
    jj, kk := CountSides(I, V, start, len, h, y, P0, C);
    RunAndOne(C, 1, 0, 0, start + len / 2);
    var ij, ik;
    ij, ik, C, P, Q := PartitionFront(I, V, start, len, h, y, jj, kk, P0, Q0, C);
    C, P, Q := PartitionBack(I, V, start, len, h, y, jj, kk, ij, ik, P0, Q0, P, Q, C);
  }

  // Split the block of len suffixes at start, which agree on h bytes and share the number
  // e, by their sort keys (bsdiff.c:60-119).
  method Split(I: array<int>, V: array<int>, start: int, len: int, h: nat, ghost s: seq<byte>, ghost e: int,
               ghost P0: seq<int>, ghost Q0: seq<int>)
    returns (ghost P: seq<int>, ghost Q: seq<int>)
    requires I != V && 0 < len && Splittable(s, I[..], V[..], P0, Q0, h, start, start + len, e)
    modifies I, V
    ensures SplitDone(s, old(I[..]), old(V[..]), P0, I[..], V[..], P, Q, h, start, start + len, e)
    decreases len, 1
  {
    if len < 16 {
      P, Q := SplitSmall(I, V, start, len, h, s, e, P0, Q0);
      return;
    }
    ghost var i0, v0 := I[..], V[..];
    var jj, kk;
    jj, kk, P, Q := SplitFront(I, V, start, len, h, s, e, P0, Q0);
    P, Q := SplitMiddle(I, V, start, jj, kk, start + len, h, s, e, i0, v0, P0, P, Q);
    P, Q := SplitRight(I, V, start, kk, start + len, h, s, e, i0, v0, P0, P, Q);
  }

  // The partition and the recursive call on its first part (bsdiff.c:83-113).
  method SplitFront(I: array<int>, V: array<int>, start: int, len: int, h: nat, ghost s: seq<byte>, ghost e: int,
                    ghost P0: seq<int>, ghost Q0: seq<int>)
    returns (jj: int, kk: int, ghost P: seq<int>, ghost Q: seq<int>)
    requires I != V && 0 < len && Splittable(s, I[..], V[..], P0, Q0, h, start, start + len, e)
    modifies I, V
    ensures start <= jj < kk <= start + len
    ensures SplitUpTo(s, old(I[..]), old(V[..]), P0, I[..], V[..], P, Q, h, start, jj, start + len, e)
    ensures Precedes(s, P, jj, kk, start + len) && Alike(s, P, 2 * h, jj, kk)
    decreases len, 0
  {
    jj, kk, P, Q := PartitionBlock(I, V, start, len, h, s, e, P0, Q0);
    ghost var i1, P1, Q1 := I[..], P, Q;
    P, Q := SplitLeft(I, V, start, jj, kk, start + len, h, s, e, P, Q);
    SplitFramed(s, old(I[..]), old(V[..]), P0, Q0, i1, P1, Q1, I[..], V[..], P, Q, h, start, jj, start + len, e);
  }

  // Numbering the middle part (bsdiff.c:115-116).
  method SplitMiddle(I: array<int>, V: array<int>, ghost lo: int, jj: int, kk: int, ghost hi: int, ghost h: nat,
                     ghost s: seq<byte>, ghost e: int, ghost I0: seq<int>, ghost V0: seq<int>, ghost P0: seq<int>,
                     ghost P2: seq<int>, ghost Q2: seq<int>)
    returns (ghost P: seq<int>, ghost Q: seq<int>)
    requires I != V && lo <= jj < kk <= hi && SplitUpTo(s, I0, V0, P0, I[..], V[..], P2, Q2, h, lo, jj, hi, e)
    requires Precedes(s, P2, jj, kk, hi) && Alike(s, P2, 2 * h, jj, kk)
    modifies I, V
    ensures SplitUpTo(s, I0, V0, P0, I[..], V[..], P, Q, h, lo, kk, hi, e)
  {
    P, Q := P2, Q2;
    ghost var i2, v2 := I[..], V[..];
    NumberGroup(I, V, jj, kk - jj, P, Q);
    MiddleDone(s, I0, V0, P0, i2, v2, P, Q, I[..], V[..], h, lo, jj, kk, hi, e);
  }

  // The recursive call on the suffixes below the pivot (bsdiff.c:113).
  method SplitLeft(I: array<int>, V: array<int>, start: int, jj: int, ghost kk: int, ghost hi: int, h: nat,
                   ghost s: seq<byte>, ghost e: int, ghost P1: seq<int>, ghost Q1: seq<int>)
    returns (ghost P: seq<int>, ghost Q: seq<int>)
    requires I != V && start <= jj < kk <= hi && Splittable(s, I[..], V[..], P1, Q1, h, start, hi, e)
    requires Precedes(s, P1, start, jj, hi) && Precedes(s, P1, jj, kk, hi) && Alike(s, P1, 2 * h, jj, kk)
    modifies I, V
    ensures SplitUpTo(s, old(I[..]), old(V[..]), P1, I[..], V[..], P, Q, h, start, jj, hi, e)
    ensures Precedes(s, P, jj, kk, hi) && Alike(s, P, 2 * h, jj, kk)
    decreases jj - start, 2
  {
    P, Q := P1, Q1;
    ghost var i1, v1 := I[..], V[..];
    if jj > start {
      NarrowCoarse(s, V[..], P, Q, h, start, jj, hi, e);
      P, Q := Split(I, V, start, jj - start, h, s, e, P, Q);
    }
    LeftDone(s, i1, v1, P1, Q1, I[..], V[..], P, Q, h, start, jj, kk, hi, e);
  }

  // The recursive call on the suffixes above the pivot (bsdiff.c:118).
  method SplitRight(I: array<int>, V: array<int>, ghost lo: int, kk: int, hi: int, h: nat, ghost s: seq<byte>,
                    ghost e: int,
                    ghost I0: seq<int>, ghost V0: seq<int>, ghost P0: seq<int>, ghost P3: seq<int>, ghost Q3: seq<int>)
    returns (ghost P: seq<int>, ghost Q: seq<int>)
    requires I != V && SplitUpTo(s, I0, V0, P0, I[..], V[..], P3, Q3, h, lo, kk, hi, e)
    modifies I, V
    ensures SplitDone(s, I0, V0, P0, I[..], V[..], P, Q, h, lo, hi, e)
    decreases hi - kk, 2
  {
    P, Q := P3, Q3;
    ghost var i3, v3 := I[..], V[..];
    if hi > kk {
      P, Q := Split(I, V, kk, hi - kk, h, s, e, P, Q);
      RightDone(s, I0, V0, P0, i3, v3, P3, I[..], V[..], P, Q, h, lo, kk, hi, e);
    }
  }

  lemma LeftDone(s: seq<byte>, I1: seq<int>, V1: seq<int>, P1: seq<int>, Q1: seq<int>,
                 I2: seq<int>, V2: seq<int>, P2: seq<int>, Q2: seq<int>,
                 h: nat, lo: int, jj: int, kk: int, hi: int, e: int)
    requires lo <= jj < kk <= hi && Splittable(s, I1, V1, P1, Q1, h, lo, hi, e)
    requires Precedes(s, P1, jj, kk, hi) && Alike(s, P1, 2 * h, jj, kk)
    requires if jj > lo then SplitDone(s, I1, V1, P1, I2, V2, P2, Q2, h, lo, jj, e)
             else I2 == I1 && V2 == V1 && P2 == P1 && Q2 == Q1
    ensures SplitUpTo(s, I1, V1, P1, I2, V2, P2, Q2, h, lo, jj, hi, e)
    ensures Precedes(s, P2, jj, kk, hi) && Alike(s, P2, 2 * h, jj, kk)
  {
    if jj > lo {
      ResumeCoarse(s, V1, P1, Q1, V2, P2, Q2, I1, I2, h, lo, jj, hi, e);
    }
  }

  // The partition only rearranged the block, so the step as a whole is framed too.
  lemma SplitFramed(s: seq<byte>, I0: seq<int>, V0: seq<int>, P0: seq<int>, Q0: seq<int>, I1: seq<int>, P1: seq<int>,
                    Q1: seq<int>,
                    I: seq<int>, V: seq<int>, P: seq<int>, Q: seq<int>, h: nat, lo: int, m: int, hi: int, e: int)
    requires Kept(I0, I1, lo, hi) && Rearranged(P0, Q0, P1, Q1, lo, hi)
    requires SplitUpTo(s, I1, V0, P1, I, V, P, Q, h, lo, m, hi, e)
    ensures SplitUpTo(s, I0, V0, P0, I, V, P, Q, h, lo, m, hi, e)
  {
  }

  lemma MiddleDone(s: seq<byte>, I0: seq<int>, V0: seq<int>, P0: seq<int>,
                   I2: seq<int>, V2: seq<int>, P: seq<int>, Q: seq<int>, I3: seq<int>, V3: seq<int>,
                   h: nat, lo: int, jj: int, kk: int, hi: int, e: int)
    requires SplitUpTo(s, I0, V0, P0, I2, V2, P, Q, h, lo, jj, hi, e)
    requires lo <= jj < kk <= hi && Precedes(s, P, jj, kk, hi) && Alike(s, P, 2 * h, jj, kk)
    requires Assigned(V2, V3, Q, jj, kk) && I3 == if kk - jj == 1 then I2[jj := -1] else I2
    ensures SplitUpTo(s, I0, V0, P0, I3, V3, P, Q, h, lo, kk, hi, e)
  {
    AssignCoarse(s, V2, V3, P, Q, h, jj, kk, hi, e);
    FineGroup(s, I3, V2, V3, P, Q, h, 2 * h, jj, kk, hi, e);
    AssignFramed(I2, V2, I3, V3, P, Q, jj, kk, hi);
    FineAdvance(s, I0, V0, P0, I2, V2, P, I3, V3, P, 2 * h, lo, jj, kk, hi);
  }

  lemma AssignFramed(I2: seq<int>, V2: seq<int>, I3: seq<int>, V3: seq<int>, P: seq<int>, Q: seq<int>, jj: int,
                     kk: int, hi: int)
    requires Perm(P, Q, |P|) && |I2| == |P| && 0 <= jj < kk <= hi <= |P|
    requires Assigned(V2, V3, Q, jj, kk) && I3 == if kk - jj == 1 then I2[jj := -1] else I2
    ensures Framed(I2, V2, P, I3, V3, P, jj, hi)
  {
  }

  lemma RightDone(s: seq<byte>, I0: seq<int>, V0: seq<int>, P0: seq<int>, I3: seq<int>, V3: seq<int>, P3: seq<int>,
                  I: seq<int>, V: seq<int>, P: seq<int>, Q: seq<int>, h: nat, lo: int, kk: int, hi: int, e: int)
    requires lo <= kk < hi && Fine(s, I3, V3, P3, 2 * h, lo, kk) && Framed(I0, V0, P0, I3, V3, P3, lo, hi)
    requires SplitDone(s, I3, V3, P3, I, V, P, Q, h, kk, hi, e)
    ensures SplitDone(s, I0, V0, P0, I, V, P, Q, h, lo, hi, e)
  {
    FineAdvance(s, I0, V0, P0, I3, V3, P3, I, V, P, 2 * h, lo, kk, hi, hi);
  }
}