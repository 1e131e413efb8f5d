// matchlen and search (bsdiff.c:159-193): bisection of the suffix array for the suffix
// of the old data that best matches the new data from some position on.
module MatchSearch {
  import opened Bytes
  import opened SuffixOrder
  import opened SuffixSort

  // matchlen: the length of the common prefix.
  method MatchLen(s: seq<byte>, a: nat, t: seq<byte>, b: nat) returns (i: nat)
    requires a <= |s| && b <= |t|
    ensures i == Lcp(s, a, t, b)
  {
    i := 0;
    while a + i < |s| && b + i < |t|
      invariant a + i <= |s| && b + i <= |t|
      invariant Lcp(s, a, t, b) == i + Lcp(s, a + i, t, b + i)
    {
      if s[a + i] != t[b + i] {
        break;
      }
      i := i + 1;
    }
  }

  // memcmp over the bytes both strings have is negative.  When one string runs out first
  // there is no such byte, and memcmp calls the strings equal.
  predicate BelowOnCommon(s: seq<byte>, a: nat, t: seq<byte>, b: nat)
    requires a <= |s| && b <= |t|
  {
    var m := Lcp(s, a, t, b);
    a + m < |s| && b + m < |t| && s[a + m] < t[b + m]
  }

  datatype Match = Match(pos: int, len: int)

  // What search returns: the better end of the interval bisection closes in on, the later
  // one on ties.
  function Bisect(I: seq<int>, s: seq<byte>, t: seq<byte>, b: nat, st: nat, en: nat): (r: Match)
    requires st <= en < |I| && b <= |t| && forall k :: 0 <= k < |I| ==> 0 <= I[k] <= |s|
    ensures 0 <= r.pos <= |s| && r.len == Lcp(s, r.pos, t, b)
    decreases en - st
  {
    if en - st < 2 then
      var x, y := Lcp(s, I[st], t, b), Lcp(s, I[en], t, b);
      if x > y then Match(I[st], x) else Match(I[en], y)
    else
      var x := st + (en - st) / 2;
      if BelowOnCommon(s, I[x], t, b) then Bisect(I, s, t, b, x, en) else Bisect(I, s, t, b, st, x)
  }

  // search itself, on the array.
  method Search(I: array<int>, s: seq<byte>, t: seq<byte>, b: nat, st: nat, en: nat) returns (pos: int, len: int)
    requires st <= en < I.Length && b <= |t| && forall k :: 0 <= k < I.Length ==> 0 <= I[k] <= |s|
    ensures Match(pos, len) == Bisect(I[..], s, t, b, st, en)
    decreases en - st
  {
    if en - st < 2 {
      var x := MatchLen(s, I[st], t, b);
      var y := MatchLen(s, I[en], t, b);
      if x > y {
        return I[st], x;
      } else {
        return I[en], y;
      }
    }
    var x := st + (en - st) / 2;
    if BelowOnCommon(s, I[x], t, b) {
      pos, len := Search(I, s, t, b, x, en);
    } else {
      pos, len := Search(I, s, t, b, st, x);
    }
  }

  // The match at suffix array position k.
  ghost function MatchAt(I: seq<int>, s: seq<byte>, t: seq<byte>, b: nat, k: int): nat
    requires SuffixArray(s, I) && b <= |t| && 0 <= k <= |s|
  {
    Lcp(s, I[k], t, b)
  }

  // The suffix at position k has run out inside t: it is a proper prefix of t[b..].
  ghost predicate RunsOut(I: seq<int>, s: seq<byte>, t: seq<byte>, b: nat, k: int)
    requires SuffixArray(s, I) && b <= |t| && 0 <= k <= |s|
  {
    var m := MatchAt(I, s, t, b, k);
    I[k] + m == |s| && b + m < |t|
  }

  // Below a probe that compares below t, matches are no longer than the probe's.
  lemma MatchesBelow(I: seq<int>, s: seq<byte>, t: seq<byte>, b: nat, x: int, j: int)
    requires SuffixArray(s, I) && b <= |t| && 0 <= j <= x <= |s| && BelowOnCommon(s, I[x], t, b)
    ensures MatchAt(I, s, t, b, j) <= MatchAt(I, s, t, b, x)
  {
    if j < x {
      LessTransitive(s, I[j], s, I[x], t, b);
    }
  }

  // Above a probe that does not, and has not run out, they are no longer either.
  lemma MatchesAbove(I: seq<int>, s: seq<byte>, t: seq<byte>, b: nat, x: int, j: int)
    requires SuffixArray(s, I) && b <= |t| && 0 <= x <= j <= |s|
    requires !BelowOnCommon(s, I[x], t, b) && !RunsOut(I, s, t, b, x)
    ensures MatchAt(I, s, t, b, j) <= MatchAt(I, s, t, b, x)
  {
    if x < j && b + MatchAt(I, s, t, b, x) < |t| {
      LcpSymmetric(s, I[x], t, b);
      LcpSymmetric(s, I[j], t, b);
      LessTransitive(t, b, s, I[x], s, I[j]);
    }
  }

  // Below a probe that has run out, matches are no longer than the probe.
  lemma MatchesBelowRunOut(I: seq<int>, s: seq<byte>, t: seq<byte>, b: nat, x: int, j: int)
    requires SuffixArray(s, I) && b <= |t| && 0 <= j <= x <= |s| && RunsOut(I, s, t, b, x)
    ensures MatchAt(I, s, t, b, j) <= MatchAt(I, s, t, b, x)
  {
    if j < x {
      assert Less(s, I[j], s, I[x]);
      var m, n := MatchAt(I, s, t, b, x), MatchAt(I, s, t, b, j);
      LcpSymmetric(s, I[x], t, b);
      LcpTransitive(s, I[j], t, b, s, I[x], if m < n then m else n);
    }
  }

  // Position k holds a longest match of t[b..] in s.
  ghost predicate Longest(I: seq<int>, s: seq<byte>, t: seq<byte>, b: nat, k: int)
    requires SuffixArray(s, I) && b <= |t|
  {
    0 <= k <= |s| && forall j :: 0 <= j <= |s| ==> MatchAt(I, s, t, b, j) <= MatchAt(I, s, t, b, k)
  }

  // Some other place in s matches more of t[b..] than position k.
  ghost predicate Surpassed(I: seq<int>, s: seq<byte>, t: seq<byte>, b: nat, k: int)
    requires SuffixArray(s, I) && b <= |t| && 0 <= k <= |s|
  {
    exists j :: 0 <= j <= |s| && MatchAt(I, s, t, b, k) < MatchAt(I, s, t, b, j)
  }

  lemma SurpassedIff(I: seq<int>, s: seq<byte>, t: seq<byte>, b: nat, x: int, k: int)
    requires SuffixArray(s, I) && b <= |t| && 0 <= x <= |s| && Longest(I, s, t, b, k)
    ensures Surpassed(I, s, t, b, x) <==> MatchAt(I, s, t, b, x) < MatchAt(I, s, t, b, k)
  {
  }

  // The bisection of st..en probes a suffix that is a proper prefix of t[b..] while some
  // other place in s continues that prefix by another byte of t.
  ghost predicate Misled(I: seq<int>, s: seq<byte>, t: seq<byte>, b: nat, st: nat, en: nat)
    requires SuffixArray(s, I) && b <= |t| && st <= en <= |s|
    decreases en - st
  {
    en - st >= 2 &&
    var x := st + (en - st) / 2;
    if BelowOnCommon(s, I[x], t, b) then
      Misled(I, s, t, b, x, en)
    else
      || (RunsOut(I, s, t, b, x) && Surpassed(I, s, t, b, x))
      || Misled(I, s, t, b, st, x)
  }

  lemma {:induction false} BisectWithin(I: seq<int>, s: seq<byte>, t: seq<byte>, b: nat, st: nat, en: nat)
    returns (k: int)
    requires st <= en < |I| && b <= |t| && forall k :: 0 <= k < |I| ==> 0 <= I[k] <= |s|
    ensures st <= k <= en && Bisect(I, s, t, b, st, en).pos == I[k]
    decreases en - st
  {
    var x := st + (en - st) / 2;
    if en - st < 2 {
      k := if Lcp(s, I[st], t, b) > Lcp(s, I[en], t, b) then st else en;
    } else if BelowOnCommon(s, I[x], t, b) {
      k := BisectWithin(I, s, t, b, x, en);
    } else {
      k := BisectWithin(I, s, t, b, st, x);
    }
  }

  // Turning below a probe that has run out leaves only matches no longer than the probe.
  lemma RunOutResult(I: seq<int>, s: seq<byte>, t: seq<byte>, b: nat, st: nat, x: nat)
    requires SuffixArray(s, I) && b <= |t| && st <= x <= |s| && RunsOut(I, s, t, b, x)
    ensures Bisect(I, s, t, b, st, x).len <= MatchAt(I, s, t, b, x)
  {
    var j := BisectWithin(I, s, t, b, st, x);
    MatchesBelowRunOut(I, s, t, b, x, j);
  }

  // After an honest probe at x a longest match remains in the half that is kept.
  lemma ProbeKeeps(I: seq<int>, s: seq<byte>, t: seq<byte>, b: nat, x: nat, k: int) returns (j: int)
    requires SuffixArray(s, I) && b <= |t| && x <= |s| && Longest(I, s, t, b, k)
    requires RunsOut(I, s, t, b, x) ==> MatchAt(I, s, t, b, k) <= MatchAt(I, s, t, b, x)
    ensures Longest(I, s, t, b, j) && MatchAt(I, s, t, b, j) == MatchAt(I, s, t, b, k)
    ensures if BelowOnCommon(s, I[x], t, b) then j == (if k < x then x else k) else j == (if x < k then x else k)
  {
    j := k;
    if BelowOnCommon(s, I[x], t, b) {
      if k < x {
        MatchesBelow(I, s, t, b, x, k);
        j := x;
      }
    } else if x < k {
      if !RunsOut(I, s, t, b, x) {
        MatchesAbove(I, s, t, b, x, k);
      }
      j := x;
    }
  }

  lemma {:induction false} BisectLongest(I: seq<int>, s: seq<byte>, t: seq<byte>, b: nat, st: nat, en: nat, k: int)
    requires SuffixArray(s, I) && b <= |t| && st <= k <= en <= |s| && Longest(I, s, t, b, k)
    ensures Bisect(I, s, t, b, st, en).len == MatchAt(I, s, t, b, k) <==> !Misled(I, s, t, b, st, en)
    decreases en - st
  {
    if en - st < 2 {
      BisectEnds(I, s, t, b, st, en, k);
      return;
    }
    var x := st + (en - st) / 2;
    SurpassedIff(I, s, t, b, x, k);
    if RunsOut(I, s, t, b, x) && Surpassed(I, s, t, b, x) {
      RunOutResult(I, s, t, b, st, x);
      return;
    }
    var j := ProbeKeeps(I, s, t, b, x, k);
    if BelowOnCommon(s, I[x], t, b) {
      BisectLongest(I, s, t, b, x, en, j);
    } else {
      BisectLongest(I, s, t, b, st, x, j);
    }
  }

  lemma BisectEnds(I: seq<int>, s: seq<byte>, t: seq<byte>, b: nat, st: nat, en: nat, k: int)
    requires SuffixArray(s, I) && b <= |t| && st <= k <= en <= |s| && en - st < 2 && Longest(I, s, t, b, k)
    ensures Bisect(I, s, t, b, st, en).len == MatchAt(I, s, t, b, k)
  {
    assert MatchAt(I, s, t, b, st) <= MatchAt(I, s, t, b, k);
    assert MatchAt(I, s, t, b, en) <= MatchAt(I, s, t, b, k);
  }

  lemma {:induction false} LongestExists(I: seq<int>, s: seq<byte>, t: seq<byte>, b: nat, n: nat) returns (k: int)
    requires SuffixArray(s, I) && b <= |t| && n <= |s|
    ensures 0 <= k <= n && forall j :: 0 <= j <= n ==> MatchAt(I, s, t, b, j) <= MatchAt(I, s, t, b, k)
  {
    if n == 0 {
      k := 0;
    } else {
      k := LongestExists(I, s, t, b, n - 1);
      if MatchAt(I, s, t, b, k) < MatchAt(I, s, t, b, n) {
        k := n;
      }
    }
  }

  // No place in s matches more than len bytes of t[b..].
  ghost predicate Unbeaten(s: seq<byte>, t: seq<byte>, b: nat, len: int)
    requires b <= |t|
  {
    forall a :: 0 <= a <= |s| ==> Lcp(s, a, t, b) <= len
  }

  lemma LongestUnbeaten(I: seq<int>, s: seq<byte>, t: seq<byte>, b: nat, k: int)
    requires SuffixArray(s, I) && b <= |t| && Longest(I, s, t, b, k)
    ensures Unbeaten(s, t, b, MatchAt(I, s, t, b, k))
  {
    forall a | 0 <= a <= |s|
      ensures Lcp(s, a, t, b) <= MatchAt(I, s, t, b, k)
    {
      assert a in I;
      var j :| 0 <= j <= |s| && I[j] == a;
      assert MatchAt(I, s, t, b, j) == Lcp(s, a, t, b);
    }
  }

  // search over the whole suffix array finds a longest match exactly when it is not misled.
  lemma SearchIsLongest(I: seq<int>, s: seq<byte>, t: seq<byte>, b: nat)
    requires SuffixArray(s, I) && b <= |t|
    ensures Unbeaten(s, t, b, Bisect(I, s, t, b, 0, |s|).len) <==> !Misled(I, s, t, b, 0, |s|)
  {
    var k := LongestExists(I, s, t, b, |s|);
    var r := Bisect(I, s, t, b, 0, |s|);
    BisectLongest(I, s, t, b, 0, |s|, k);
    LongestUnbeaten(I, s, t, b, k);
    if Unbeaten(s, t, b, r.len) {
      assert Lcp(s, I[k], t, b) <= r.len;
      assert Lcp(s, r.pos, t, b) <= MatchAt(I, s, t, b, k);
    }
  }

  // A suffix array starts with the empty suffix.
  lemma EmptyFirst(I: seq<int>, s: seq<byte>, k: int)
    requires SuffixArray(s, I) && 0 < k <= |s|
    ensures I[k] < |s|
  {
    assert Less(s, I[0], s, I[k]);
  }

  // In particular it is when no non-empty suffix of s is a proper prefix of t[b..].
  lemma {:induction false} NotMisled(I: seq<int>, s: seq<byte>, t: seq<byte>, b: nat, st: nat, en: nat)
    requires SuffixArray(s, I) && b <= |t| && st <= en <= |s|
    requires forall a :: 0 <= a < |s| ==> a + Lcp(s, a, t, b) < |s| || b + Lcp(s, a, t, b) == |t|
    ensures !Misled(I, s, t, b, st, en)
    decreases en - st
  {
    if en - st >= 2 {
      var x := st + (en - st) / 2;
      EmptyFirst(I, s, x);
      NotMisled(I, s, t, b, st, x);
      NotMisled(I, s, t, b, x, en);
    }
  }

  // So with that condition, which a caller can check, search finds a longest match.
  lemma SearchFindsLongest(I: seq<int>, s: seq<byte>, t: seq<byte>, b: nat)
    requires SuffixArray(s, I) && b <= |t|
    requires forall a :: 0 <= a < |s| ==> a + Lcp(s, a, t, b) < |s| || b + Lcp(s, a, t, b) == |t|
    ensures Unbeaten(s, t, b, Bisect(I, s, t, b, 0, |s|).len)
  {
    NotMisled(I, s, t, b, 0, |s|);
    SearchIsLongest(I, s, t, b);
  }

  lemma SmallSuffixArray()
    ensures SuffixArray([97, 98, 97], [3, 2, 0, 1])
  {
    var s: seq<byte>, I := [97, 98, 97], [3, 2, 0, 1];
    assert I[0] == 3 && I[1] == 2 && I[2] == 0 && I[3] == 1;
    assert Lcp(s, 3, s, 2) == 0 && Lcp(s, 3, s, 0) == 0 && Lcp(s, 3, s, 1) == 0;
    assert Lcp(s, 2, s, 0) == 1 && Lcp(s, 2, s, 1) == 0 && Lcp(s, 0, s, 1) == 0;
  }

  // Without that condition it can be misled: looking for "abx" in "aba" it probes the
  // suffix "a", and settles for one byte where two match.
  lemma SearchMisled()
    ensures var s: seq<byte>, t: seq<byte>, I := [97, 98, 97], [97, 98, 120], [3, 2, 0, 1];
            SuffixArray(s, I) && Bisect(I, s, t, 0, 0, 3) == Match(2, 1) && Lcp(s, 0, t, 0) == 2
  {
    SmallSuffixArray();
    var s: seq<byte>, t: seq<byte>, I := [97, 98, 97], [97, 98, 120], [3, 2, 0, 1];
    assert Lcp(s, 3, t, 0) == 0 && Lcp(s, 2, t, 0) == 1;
    assert Lcp(s, 1, t, 1) == 1 && Lcp(s, 0, t, 0) == 2;
    assert Bisect(I, s, t, 0, 0, 1) == Match(2, 1);
  }

  // After any probe at x > 0 a non-empty match remains in the half that is kept.
  lemma ProbeHits(I: seq<int>, s: seq<byte>, t: seq<byte>, b: nat, x: nat, k: int) returns (j: int)
    requires SuffixArray(s, I) && b <= |t| && 0 < x <= |s| && 0 <= k <= |s| && 1 <= MatchAt(I, s, t, b, k)
    ensures 0 <= j <= |s| && 1 <= MatchAt(I, s, t, b, j)
    ensures if BelowOnCommon(s, I[x], t, b) then j == (if k < x then x else k) else j == (if x < k then x else k)
  {
    EmptyFirst(I, s, x);
    j := k;
    if BelowOnCommon(s, I[x], t, b) {
      if k < x {
        MatchesBelow(I, s, t, b, x, k);
        j := x;
      }
    } else if x < k {
      if !RunsOut(I, s, t, b, x) {
        MatchesAbove(I, s, t, b, x, k);
      }
      j := x;
    }
  }

  lemma BisectEndsHit(I: seq<int>, s: seq<byte>, t: seq<byte>, b: nat, st: nat, en: nat, k: int)
    requires SuffixArray(s, I) && b <= |t| && st <= k <= en <= |s| && en - st < 2 && 1 <= MatchAt(I, s, t, b, k)
    ensures 1 <= Bisect(I, s, t, b, st, en).len
  {
    assert MatchAt(I, s, t, b, st) == Lcp(s, I[st], t, b) && MatchAt(I, s, t, b, en) == Lcp(s, I[en], t, b);
  }

  // If the next byte of t occurs in s at all, search does not come back empty-handed.
  lemma {:induction false} BisectHits(I: seq<int>, s: seq<byte>, t: seq<byte>, b: nat, st: nat, en: nat, k: int)
    requires SuffixArray(s, I) && b <= |t| && st <= k <= en <= |s| && 1 <= MatchAt(I, s, t, b, k)
    ensures 1 <= Bisect(I, s, t, b, st, en).len
    decreases en - st
  {
    if en - st < 2 {
      BisectEndsHit(I, s, t, b, st, en, k);
    } else {
      var x := st + (en - st) / 2;
      var j := ProbeHits(I, s, t, b, x, k);
      if j >= x && BelowOnCommon(s, I[x], t, b) {
        BisectHits(I, s, t, b, x, en, j);
      } else {
        BisectHits(I, s, t, b, st, x, j);
      }
    }
  }

  lemma SearchHits(I: seq<int>, s: seq<byte>, t: seq<byte>, b: nat, a: int)
    requires SuffixArray(s, I) && b < |t| && 0 <= a < |s| && s[a] == t[b]
    ensures 1 <= Bisect(I, s, t, b, 0, |s|).len
  {
    assert a in I;
    var k :| 0 <= k <= |s| && I[k] == a;
    BisectHits(I, s, t, b, 0, |s|, k);
  }
}
