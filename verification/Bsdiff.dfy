// bsdiff (bsdiff.c:213-410): scan the new data for matches with the old, extend them, and
// write the patch.
module Bsdiff {
  import opened Bytes
  import opened Endian
  import opened SuffixOrder
  import opened SuffixSort
  import opened MatchSearch
  import opened PatchFormat

  // Byte k of t is found in the old data at distance o.
  predicate Hit(base: seq<byte>, t: seq<byte>, o: int, k: int)
  {
    0 <= k < |t| && 0 <= k + o < |base| && base[k + o] == t[k]
  }

  // How many of the bytes a..b of t are.
  function Hits(base: seq<byte>, t: seq<byte>, o: int, a: int, b: int): (n: nat)
    ensures a <= b ==> n <= b - a
    decreases b - a
  {
    if b <= a then 0 else Hits(base, t, o, a, b - 1) + if Hit(base, t, o, b - 1) then 1 else 0
  }

  lemma {:induction false} HitsFirst(base: seq<byte>, t: seq<byte>, o: int, a: int, b: int)
    requires a < b
    ensures Hits(base, t, o, a, b) == (if Hit(base, t, o, a) then 1 else 0) + Hits(base, t, o, a + 1, b)
    decreases b - a
  {
    if a + 1 < b {
      HitsFirst(base, t, o, a, b - 1);
    }
  }

  // What search finds for t[k..].
  function Found(I: seq<int>, base: seq<byte>, t: seq<byte>, k: nat): (m: Match)
    requires |I| == |base| + 1 && k <= |t| && forall j :: 0 <= j < |I| ==> 0 <= I[j] <= |base|
    ensures 0 <= m.pos <= |base| && m.len == Lcp(base, m.pos, t, k)
  {
    Bisect(I, base, t, k, 0, |base|)
  }

  // The furthest end of the matches found from start to k.
  function Reach(I: seq<int>, base: seq<byte>, t: seq<byte>, start: nat, k: int): (r: int)
    requires |I| == |base| + 1 && k <= |t| && forall j :: 0 <= j < |I| ==> 0 <= I[j] <= |base|
    requires start <= |t|
    ensures start <= r && k <= r <= |t|
    decreases k
  {
    if k < start then start
    else
      var before, here := Reach(I, base, t, start, k - 1), k + Found(I, base, t, k).len;
      if before < here then here else before
  }

  // What the old alignment, at distance o, scores from k to the furthest match so far.
  function OldScore(I: seq<int>, base: seq<byte>, t: seq<byte>, o: int, start: nat, k: nat): (n: nat)
    requires |I| == |base| + 1 && k <= |t| && forall j :: 0 <= j < |I| ==> 0 <= I[j] <= |base|
    requires start <= |t|
  {
    Hits(base, t, o, k, Reach(I, base, t, start, k))
  }

  // Scanning from start stops at k: the match there is no better than the old alignment,
  // but not empty, or beats it by more than eight bytes (bsdiff.c:295-296).
  predicate Stops(I: seq<int>, base: seq<byte>, t: seq<byte>, o: int, start: nat, k: nat)
    requires |I| == |base| + 1 && k <= |t| && forall j :: 0 <= j < |I| ==> 0 <= I[j] <= |base|
    requires start <= |t|
  {
    var len, score := Found(I, base, t, k).len, OldScore(I, base, t, o, start, k);
    (len == score && len != 0) || len > score + 8
  }

  // A byte the old alignment hits occurs in the old data, so search finds something.
  lemma HitFound(I: seq<int>, base: seq<byte>, t: seq<byte>, o: int, k: nat)
    requires SuffixArray(base, I) && Hit(base, t, o, k)
    ensures 1 <= Found(I, base, t, k).len
  {
    SearchHits(I, base, t, k, k + o);
  }

  // The inner counting loop (bsdiff.c:290-293).
  method CountHits(base: seq<byte>, t: seq<byte>, o: int, ghost from: int, scsc0: int, end: int, score0: int)
    returns (scsc: int, score: int)
    requires 0 <= scsc0 && end <= |t| && 0 <= scsc0 + o && score0 == Hits(base, t, o, from, scsc0)
    requires scsc0 < from ==> scsc0 == from - 1 && !Hit(base, t, o, scsc0)
    ensures scsc == (if scsc0 < end then end else scsc0) && score == Hits(base, t, o, from, scsc)
  {
    scsc, score := scsc0, score0;
    while scsc < end
      invariant scsc0 <= scsc && scsc <= (if scsc0 < end then end else scsc0)
      invariant score == Hits(base, t, o, from, scsc)
    {
      if scsc + o < |base| && base[scsc + o] == t[scsc] {
        score := score + 1;
      }
      scsc := scsc + 1;
    }
  }

  // The state of the scan before position scan is looked at: scsc has reached the end of
  // the furthest match, or is one behind when the last search found nothing.
  ghost predicate Scanning(I: seq<int>, base: seq<byte>, t: seq<byte>, o: int, start: nat, scan: nat, scsc: int,
                           score: int)
  {
    && SuffixArray(base, I) && start <= scan <= |t| && 0 <= start + o
    && scsc == Reach(I, base, t, start, scan - 1)
    && (scsc < scan ==> scsc == scan - 1 && start < scan && !Hit(base, t, o, scan - 1))
    && score == Hits(base, t, o, scan, scsc)
  }

  lemma ScanningBegins(I: seq<int>, base: seq<byte>, t: seq<byte>, o: int, start: nat)
    requires SuffixArray(base, I) && start <= |t| && 0 <= start + o
    ensures Scanning(I, base, t, o, start, start, start, 0)
  {
  }

  // Moving on after a search that does not stop the scan (bsdiff.c:298-300).
  lemma ScanningMoves(I: seq<int>, base: seq<byte>, t: seq<byte>, o: int, start: nat, scan: nat)
    requires SuffixArray(base, I) && start <= scan < |t| && 0 <= start + o
    ensures var scsc := Reach(I, base, t, start, scan);
            Scanning(I, base, t, o, start, scan + 1, scsc,
                     Hits(base, t, o, scan, scsc) - if Hit(base, t, o, scan) then 1 else 0)
  {
    var scsc := Reach(I, base, t, start, scan);
    if scan < scsc {
      HitsFirst(base, t, o, scan, scsc);
    } else if Hit(base, t, o, scan) {
      HitFound(I, base, t, o, scan);
    }
  }

  // One search and the counting after it (bsdiff.c:287-293).
  method Look(I: array<int>, base: seq<byte>, t: seq<byte>, o: int, ghost start: nat, scan: nat, scsc0: int,
              score0: int)
    returns (pos: int, len: int, scsc: int, score: int)
    requires scan < |t| && Scanning(I[..], base, t, o, start, scan, scsc0, score0)
    ensures Match(pos, len) == Found(I[..], base, t, scan)
    ensures scsc == Reach(I[..], base, t, start, scan) && score == OldScore(I[..], base, t, o, start, scan)
  {
    pos, len := Search(I, base, t, scan, 0, |base|);
    scsc, score := CountHits(base, t, o, scan, scsc0, scan + len, score0);
  }

  // Scanning from start passes over the positions below scan.
  ghost predicate Passed(I: seq<int>, base: seq<byte>, t: seq<byte>, o: int, start: nat, scan: nat)
    requires |I| == |base| + 1 && scan <= |t| && start <= |t| && forall j :: 0 <= j < |I| ==> 0 <= I[j] <= |base|
  {
    forall k :: start <= k < scan ==> !Stops(I, base, t, o, start, k)
  }

  // The match in hand when the scan is at position scan: the last one found, or the one
  // from before the scan.
  ghost predicate InHand(I: seq<int>, base: seq<byte>, t: seq<byte>, start: nat, scan: nat, len: int, pos: int,
                         len0: int, pos0: int)
    requires |I| == |base| + 1 && scan <= |t| && forall j :: 0 <= j < |I| ==> 0 <= I[j] <= |base|
  {
    if scan <= start then len == len0 && pos == pos0 else Match(pos, len) == Found(I, base, t, scan - 1)
  }

  // Scanning from start goes to scan, the first place that stops it or the end of the data,
  // with the match found last in hand.
  ghost predicate Scanned(I: seq<int>, base: seq<byte>, t: seq<byte>, o: int, start: nat, len0: int, pos0: int,
                          scan: nat, len: int, pos: int)
  {
    && SuffixArray(base, I) && start <= scan <= |t| && Passed(I, base, t, o, start, scan)
    && (if scan < |t| then Stops(I, base, t, o, start, scan) && Match(pos, len) == Found(I, base, t, scan)
        else InHand(I, base, t, start, scan, len, pos, len0, pos0))
  }

  // The match at scan only goes on with the old alignment.
  ghost predicate GoesOn(I: seq<int>, base: seq<byte>, t: seq<byte>, o: int, start: nat, scan: nat, len: int)
  {
    SuffixArray(base, I) && start <= scan < |t| && len == OldScore(I, base, t, o, start, scan)
  }

  // The scan for the next worthwhile match (bsdiff.c:284-301).  When start is the end of
  // the data, the last match stands.
  method Scan(I: array<int>, base: seq<byte>, t: seq<byte>, o: int, start: nat, len0: int, pos0: int)
    returns (scan: nat, len: int, pos: int, oldscore: int)
    requires SuffixArray(base, I[..]) && start <= |t| && 0 <= start + o
    ensures Scanned(I[..], base, t, o, start, len0, pos0, scan, len, pos)
    ensures (scan < |t| && len == oldscore) <==> GoesOn(I[..], base, t, o, start, scan, len)
  {
    oldscore, len, pos := 0, len0, pos0;
    scan := start;
    var scsc: int := start;
    ghost var v := I[..];
    ScanningBegins(v, base, t, o, start);
    while scan < |t|
      invariant start <= scan <= |t| && Scanning(v, base, t, o, start, scan, scsc, oldscore)
      invariant Passed(v, base, t, o, start, scan) && InHand(v, base, t, start, scan, len, pos, len0, pos0)
    {
      var stop;
      stop, pos, len, scsc, oldscore := ScanStep(I, base, t, o, start, scan, scsc, oldscore);
      if stop {
        break;
      }
      scan := scan + 1;
    }
  }

  // One turn of the scan: whether it stops here, and if not, its state at the next position.
  method ScanStep(I: array<int>, base: seq<byte>, t: seq<byte>, o: int, ghost start: nat, scan: nat, scsc0: int,
                  score0: int)
    returns (stop: bool, pos: int, len: int, scsc: int, oldscore: int)
    requires scan < |t| && Scanning(I[..], base, t, o, start, scan, scsc0, score0)
    ensures Match(pos, len) == Found(I[..], base, t, scan)
    ensures stop <==> Stops(I[..], base, t, o, start, scan)
    ensures if stop then oldscore == OldScore(I[..], base, t, o, start, scan)
            else Scanning(I[..], base, t, o, start, scan + 1, scsc, oldscore)
  {
    pos, len, scsc, oldscore := Look(I, base, t, o, start, scan, scsc0, score0);
    stop := (len == oldscore && len != 0) || len > oldscore + 8;
    if !stop {
      ScanningMoves(I[..], base, t, o, start, scan);
      if scan + o < |base| && base[scan + o] == t[scan] {
        oldscore := oldscore - 1;
      }
    }
  }

  // Twice the hits less the length: what taking n bytes after a is worth.
  function Gain(base: seq<byte>, t: seq<byte>, o: int, a: int, n: int): int
  {
    2 * Hits(base, t, o, a, a + n) - n
  }

  // The same for n bytes before b.
  function GainBack(base: seq<byte>, t: seq<byte>, o: int, b: int, n: int): int
  {
    2 * Hits(base, t, o, b - n, b) - n
  }

  // Of 0..limit, n is the first number of bytes after a that is worth most.
  ghost predicate BestForward(base: seq<byte>, t: seq<byte>, o: int, a: int, limit: int, n: int)
  {
    && 0 <= n <= limit
    && (forall i :: 0 <= i <= limit ==> Gain(base, t, o, a, i) <= Gain(base, t, o, a, n))
    && (forall i :: 0 <= i < n ==> Gain(base, t, o, a, i) < Gain(base, t, o, a, n))
  }

  // Of 0..limit, n is the first number of bytes before b that is worth most.
  ghost predicate BestBack(base: seq<byte>, t: seq<byte>, o: int, b: int, limit: int, n: int)
  {
    && 0 <= n <= limit
    && (forall i :: 0 <= i <= limit ==> GainBack(base, t, o, b, i) <= GainBack(base, t, o, b, n))
    && (forall i :: 0 <= i < n ==> GainBack(base, t, o, b, i) < GainBack(base, t, o, b, n))
  }

  function Least(a: int, b: int): (n: int)
  {
    if a < b then a else b
  }

  // How far the previous match extends forward (bsdiff.c:304-309).
  method ExtendForward(base: seq<byte>, t: seq<byte>, lastscan: nat, lastpos: nat, scan: nat) returns (lenf: nat)
    requires lastscan <= scan <= |t| && lastpos <= |base|
    ensures lastscan + lenf <= scan && lastpos + lenf <= |base|
    ensures BestForward(base, t, lastpos - lastscan, lastscan, Least(scan - lastscan, |base| - lastpos), lenf)
  {
    var s, best, i := 0, 0, 0;
    lenf := 0;
    while lastscan + i < scan && lastpos + i < |base|
      invariant 0 <= i && lastscan + i <= scan && lastpos + i <= |base|
      invariant s == Hits(base, t, lastpos - lastscan, lastscan, lastscan + i)
      invariant lenf <= i && best == Hits(base, t, lastpos - lastscan, lastscan, lastscan + lenf)
      invariant BestForward(base, t, lastpos - lastscan, lastscan, i, lenf)
    {
      if base[lastpos + i] == t[lastscan + i] {
        s := s + 1;
      }
      i := i + 1;
      assert Gain(base, t, lastpos - lastscan, lastscan, i) == s * 2 - i;
      assert Gain(base, t, lastpos - lastscan, lastscan, lenf) == best * 2 - lenf;
      if s * 2 - i > best * 2 - lenf {
        best, lenf := s, i;
      }
    }
  }

  // How far the new match extends backward (bsdiff.c:311-318).
  method ExtendBackward(base: seq<byte>, t: seq<byte>, lastscan: nat, scan: nat, pos: nat) returns (lenb: nat)
    requires lastscan <= scan < |t| && pos <= |base|
    ensures lenb <= pos && lastscan + lenb <= scan
    ensures BestBack(base, t, pos - scan, scan, Least(scan - lastscan, pos), lenb)
  {
    var s, best, i := 0, 0, 1;
    lenb := 0;
    while scan >= lastscan + i && pos >= i
      invariant 1 <= i && lastscan + i - 1 <= scan && i - 1 <= pos
      invariant s == Hits(base, t, pos - scan, scan - (i - 1), scan)
      invariant lenb < i && best == Hits(base, t, pos - scan, scan - lenb, scan)
      invariant BestBack(base, t, pos - scan, scan, i - 1, lenb)
    {
      HitsFirst(base, t, pos - scan, scan - i, scan);
      if base[pos - i] == t[scan - i] {
        s := s + 1;
      }
      assert GainBack(base, t, pos - scan, scan, i) == s * 2 - i;
      assert GainBack(base, t, pos - scan, scan, lenb) == best * 2 - lenb;
      if s * 2 - i > best * 2 - lenb {
        best, lenb := s, i;
      }
      i := i + 1;
    }
  }

  // What giving the first n bytes of the overlap at m to the previous match gains.
  function SplitGain(base: seq<byte>, t: seq<byte>, of: int, ob: int, m: int, n: int): int
  {
    Hits(base, t, of, m, m + n) - Hits(base, t, ob, m, m + n)
  }

  // Of 0..overlap, n is the first place to cut the overlap at m that gains most.
  ghost predicate BestCut(base: seq<byte>, t: seq<byte>, of: int, ob: int, m: int, overlap: int, n: int)
  {
    && 0 <= n <= overlap
    && (forall i :: 0 <= i <= overlap ==> SplitGain(base, t, of, ob, m, i) <= SplitGain(base, t, of, ob, m, n))
    && (forall i :: 0 <= i < n ==> SplitGain(base, t, of, ob, m, i) < SplitGain(base, t, of, ob, m, n))
  }

  // Where to cut an overlap of the two extensions, which starts at m (bsdiff.c:321-329).
  method CutOverlap(base: seq<byte>, t: seq<byte>, of: int, ob: int, m: nat, overlap: nat) returns (lens: nat)
    requires m + overlap <= |t|
    requires 0 <= m + of && m + of + overlap <= |base| && 0 <= m + ob && m + ob + overlap <= |base|
    ensures 0 <= lens <= overlap && BestCut(base, t, of, ob, m, overlap, lens)
  {
    var s, best, i := 0, 0, 0;
    lens := 0;
    while i < overlap
      invariant 0 <= i <= overlap && lens <= i
      invariant s == SplitGain(base, t, of, ob, m, i) && best == SplitGain(base, t, of, ob, m, lens)
      invariant BestCut(base, t, of, ob, m, i, lens)
    {
      if t[m + i] == base[m + of + i] {
        s := s + 1;
      }
      if t[m + i] == base[m + ob + i] {
        s := s - 1;
      }
      assert SplitGain(base, t, of, ob, m, i + 1) == s;
      if s > best {
        best, lens := s, i + 1;
      }
      i := i + 1;
    }
  }

  // How the two extensions around a new match share out the bytes between the matches
  // (bsdiff.c:304-333): lenf forward from lastscan, lenb backward from scan.
  method Extend(base: seq<byte>, t: seq<byte>, lastscan: nat, lastpos: nat, scan: nat, pos: nat)
    returns (lenf: nat, lenb: nat)
    requires lastscan <= scan <= |t| && lastpos <= |base| && pos <= |base|
    ensures lastpos + lenf <= |base| && lenb <= pos && lastscan + lenf <= scan - lenb
    ensures Shared(base, t, lastscan, lastpos, scan, pos, lenf, lenb)
  {
    lenf := ExtendForward(base, t, lastscan, lastpos, scan);
    lenb := 0;
    if scan < |t| {
      lenb := ExtendBackward(base, t, lastscan, scan, pos);
    }
    ghost var f, b := lenf, lenb;
    if lastscan + lenf > scan - lenb {
      var overlap := (lastscan + lenf) - (scan - lenb);
      var lens := CutOverlap(base, t, lastpos - lastscan, pos - scan, scan - lenb, overlap);
      lenf := lenf + lens - overlap;
      lenb := lenb - lens;
      assert b - lenb == lens;
    }
    assert SharedFrom(base, t, lastscan, lastpos, scan, pos, f, b, lenf, lenb);
  }

  // The extensions f and b, cut to lenf and lenb where they overlap.
  ghost predicate SharedFrom(base: seq<byte>, t: seq<byte>, lastscan: nat, lastpos: nat, scan: nat, pos: nat,
                             f: nat, b: nat, lenf: nat, lenb: nat)
  {
    && lastscan <= scan <= |t| && lastpos <= |base| && pos <= |base|
    && BestForward(base, t, lastpos - lastscan, lastscan, Least(scan - lastscan, |base| - lastpos), f)
    && (if scan < |t| then BestBack(base, t, pos - scan, scan, Least(scan - lastscan, pos), b) else b == 0)
    && (if lastscan + f <= scan - b then lenf == f && lenb == b
        else
          var overlap, lens := (lastscan + f) - (scan - b), b - lenb;
          lenf == f + lens - overlap
          && BestCut(base, t, lastpos - lastscan, pos - scan, scan - b, overlap, lens))
  }

  ghost predicate Shared(base: seq<byte>, t: seq<byte>, lastscan: nat, lastpos: nat, scan: nat, pos: nat, lenf: nat,
                         lenb: nat)
  {
    exists f: nat, b: nat :: SharedFrom(base, t, lastscan, lastpos, scan, pos, f, b, lenf, lenb)
  }

  // The differences that turn the old bytes from p into the new bytes from a.
  function Differences(base: seq<byte>, t: seq<byte>, p: nat, a: nat, n: nat): (d: seq<byte>)
    requires p + n <= |base| && a + n <= |t|
    ensures |d| == n
    ensures forall i :: 0 <= i < n ==> d[i] == (t[a + i] as int - base[p + i]) % 256
  {
    seq(n, i requires 0 <= i < n => (t[a + i] as int - base[p + i]) % 256)
  }

  // Adding the old bytes back gives the new ones.
  lemma DifferencesAdded(base: seq<byte>, t: seq<byte>, p: nat, a: nat, n: nat)
    requires p + n <= |base| && a + n <= |t|
    ensures AddOld(base, Differences(base, t, p, a, n), p) == t[a..a + n]
  {
  }

  // Append the differences to the diff block (bsdiff.c:335-336).
  method AppendDifferences(db: array<byte>, dblen: nat, base: seq<byte>, t: seq<byte>, p: nat, a: nat, n: nat)
    requires p + n <= |base| && a + n <= |t| && dblen + n <= db.Length
    modifies db
    ensures db[..dblen + n] == old(db[..dblen]) + Differences(base, t, p, a, n)
  {
    ghost var d := Differences(base, t, p, a, n);
    var i := 0;
    while i < n
      invariant 0 <= i <= n && db[..dblen + i] == old(db[..dblen]) + d[..i]
    {
      db[dblen + i] := (t[a + i] as int - base[p + i]) % 256;
      assert db[..dblen + i + 1] == db[..dblen + i] + [d[i]];
      i := i + 1;
    }
    assert d[..n] == d;
  }

  // Append the new bytes a..b to the extra block (bsdiff.c:337-338).
  method AppendExtra(eb: array<byte>, eblen: nat, t: seq<byte>, a: nat, b: nat, n: nat)
    requires a <= b <= |t| && n == b - a && eblen + n <= eb.Length
    modifies eb
    ensures eb[..eblen + n] == old(eb[..eblen]) + t[a..b]
  {
    var i := 0;
    while i < n
      invariant 0 <= i <= n && eb[..eblen + i] == old(eb[..eblen]) + t[a..a + i]
    {
      eb[eblen + i] := t[a + i];
      assert eb[..eblen + i + 1] == eb[..eblen + i] + [t[a + i]];
      i := i + 1;
    }
  }

  // The step x covers the new data from lastscan to nextscan as the extensions around the
  // match of scan with pos have shared it out (bsdiff.c:304-359).
  ghost predicate Emits(base: seq<byte>, t: seq<byte>, lastscan: nat, lastpos: nat, scan: nat, pos: nat,
                        nextscan: nat, nextpos: nat, x: Step)
  {
    var lenf := |x.diff|;
    && lastscan + lenf <= nextscan <= scan <= |t| && lastpos + lenf <= |base| && nextpos == pos - (scan - nextscan)
    && Shared(base, t, lastscan, lastpos, scan, pos, lenf, scan - nextscan)
    && x == Step(Differences(base, t, lastpos, lastscan, lenf), t[lastscan + lenf..nextscan],
                 nextpos - (lastpos + lenf))
  }

  // The variables of the main loop.
  datatype Loop = Loop(scan: nat, len: nat, pos: nat, lastscan: nat, lastpos: nat, lastoffset: int)

  const START := Loop(0, 0, 0, 0, 0, 0)

  // After the scan of a turn from a to b: what it writes, if it does, and where that leaves
  // the last match.
  ghost predicate Follows(base: seq<byte>, t: seq<byte>, a: Loop, writes: bool, out: seq<Step>, b: Loop)
  {
    if writes then
      && |out| == 1 && b.lastoffset == b.pos - b.scan
      && Emits(base, t, a.lastscan, a.lastpos, b.scan, b.pos, b.lastscan, b.lastpos, out[0])
    else out == [] && b.lastscan == a.lastscan && b.lastpos == a.lastpos && b.lastoffset == a.lastoffset
  }

  // One turn of the main loop takes a to b and writes out, which is a step or nothing: the
  // scan goes to the first place that stops it, and a step is written unless the match there
  // only goes on with the old alignment.
  ghost predicate Turns(I: seq<int>, base: seq<byte>, t: seq<byte>, a: Loop, out: seq<Step>, b: Loop)
  {
    var start := a.scan + a.len;
    && a.scan < |t| && Scanned(I, base, t, a.lastoffset, start, a.len, a.pos, b.scan, b.len, b.pos)
    && Follows(base, t, a, !GoesOn(I, base, t, a.lastoffset, start, b.scan, b.len), out, b)
  }

  ghost function TurnOf(I: seq<int>, base: seq<byte>, t: seq<byte>): (turn: (Loop, seq<Step>, Loop) -> bool)
  {
    (a, out, b) => Turns(I, base, t, a, out, b)
  }

  // n turns from the start write the steps g and come to b.
  ghost predicate Leads(turn: (Loop, seq<Step>, Loop) -> bool, n: nat, g: seq<Step>, b: Loop)
  {
    if n == 0 then g == [] && b == START
    else exists a, h, out :: Leads(turn, n - 1, h, a) && turn(a, out, b) && g == h + out
  }

  lemma LeadsMore(turn: (Loop, seq<Step>, Loop) -> bool, n: nat, h: seq<Step>, a: Loop, out: seq<Step>, b: Loop)
    requires Leads(turn, n, h, a) && turn(a, out, b)
    ensures Leads(turn, n + 1, h + out, b)
  {
  }

  // Some turns from the start write the steps g and come to b.
  ghost predicate Reached(I: seq<int>, base: seq<byte>, t: seq<byte>, g: seq<Step>, b: Loop)
  {
    exists n :: Leads(TurnOf(I, base, t), n, g, b)
  }

  lemma ReachedStart(I: seq<int>, base: seq<byte>, t: seq<byte>)
    ensures Reached(I, base, t, [], START)
  {
    assert Leads(TurnOf(I, base, t), 0, [], START);
  }

  lemma ReachedMore(I: seq<int>, base: seq<byte>, t: seq<byte>, g: seq<Step>, a: Loop, out: seq<Step>, b: Loop)
    requires Reached(I, base, t, g, a) && Turns(I, base, t, a, out, b)
    ensures Reached(I, base, t, g + out, b)
  {
    var n :| Leads(TurnOf(I, base, t), n, g, a);
    LeadsMore(TurnOf(I, base, t), n, g, a, out, b);
  }

  // The steps bsdiff writes: those of the turns up to the end of the new data.
  ghost predicate Chosen(I: seq<int>, base: seq<byte>, t: seq<byte>, g: seq<Step>)
  {
    exists b :: Reached(I, base, t, g, b) && b.scan >= |t|
  }

  lemma ForwardUnique(base: seq<byte>, t: seq<byte>, o: int, a: int, limit: int, n: int, m: int)
    requires BestForward(base, t, o, a, limit, n) && BestForward(base, t, o, a, limit, m)
    ensures n == m
  {
    assert Gain(base, t, o, a, n) == Gain(base, t, o, a, m);
  }

  lemma BackUnique(base: seq<byte>, t: seq<byte>, o: int, b: int, limit: int, n: int, m: int)
    requires BestBack(base, t, o, b, limit, n) && BestBack(base, t, o, b, limit, m)
    ensures n == m
  {
    assert GainBack(base, t, o, b, n) == GainBack(base, t, o, b, m);
  }

  lemma CutUnique(base: seq<byte>, t: seq<byte>, of: int, ob: int, at: int, overlap: int, n: int, m: int)
    requires BestCut(base, t, of, ob, at, overlap, n) && BestCut(base, t, of, ob, at, overlap, m)
    ensures n == m
  {
    assert SplitGain(base, t, of, ob, at, n) == SplitGain(base, t, of, ob, at, m);
  }

  lemma SharedUnique(base: seq<byte>, t: seq<byte>, lastscan: nat, lastpos: nat, scan: nat, pos: nat,
                     lenf: nat, lenb: nat, lenf': nat, lenb': nat)
    requires Shared(base, t, lastscan, lastpos, scan, pos, lenf, lenb)
    requires Shared(base, t, lastscan, lastpos, scan, pos, lenf', lenb')
    ensures lenf == lenf' && lenb == lenb'
  {
    var f: nat, b: nat :| SharedFrom(base, t, lastscan, lastpos, scan, pos, f, b, lenf, lenb);
    var f': nat, b': nat :| SharedFrom(base, t, lastscan, lastpos, scan, pos, f', b', lenf', lenb');
    ForwardUnique(base, t, lastpos - lastscan, lastscan, Least(scan - lastscan, |base| - lastpos), f, f');
    if scan < |t| {
      BackUnique(base, t, pos - scan, scan, Least(scan - lastscan, pos), b, b');
    }
    SharedCutUnique(base, t, lastscan, lastpos, scan, pos, f, b, lenf, lenb, lenf', lenb');
  }

  lemma SharedCutUnique(base: seq<byte>, t: seq<byte>, lastscan: nat, lastpos: nat, scan: nat, pos: nat,
                        f: nat, b: nat, lenf: nat, lenb: nat, lenf': nat, lenb': nat)
    requires SharedFrom(base, t, lastscan, lastpos, scan, pos, f, b, lenf, lenb)
    requires SharedFrom(base, t, lastscan, lastpos, scan, pos, f, b, lenf', lenb')
    ensures lenf == lenf' && lenb == lenb'
  {
    if lastscan + f > scan - b {
      CutUnique(base, t, lastpos - lastscan, pos - scan, scan - b, (lastscan + f) - (scan - b), b - lenb, b - lenb');
    }
  }

  lemma ScanUnique(I: seq<int>, base: seq<byte>, t: seq<byte>, o: int, start: nat, len0: int, pos0: int,
                   scan: nat, len: int, pos: int, scan': nat, len': int, pos': int)
    requires Scanned(I, base, t, o, start, len0, pos0, scan, len, pos)
    requires Scanned(I, base, t, o, start, len0, pos0, scan', len', pos')
    ensures scan == scan' && len == len' && pos == pos'
  {
  }

  lemma EmitsUnique(base: seq<byte>, t: seq<byte>, lastscan: nat, lastpos: nat, scan: nat, pos: nat,
                    nextscan: nat, nextpos: nat, x: Step, nextscan': nat, nextpos': nat, x': Step)
    requires Emits(base, t, lastscan, lastpos, scan, pos, nextscan, nextpos, x)
    requires Emits(base, t, lastscan, lastpos, scan, pos, nextscan', nextpos', x')
    ensures nextscan == nextscan' && nextpos == nextpos' && x == x'
  {
    SharedUnique(base, t, lastscan, lastpos, scan, pos, |x.diff|, scan - nextscan, |x'.diff|, scan - nextscan');
  }

  lemma FollowsUnique(base: seq<byte>, t: seq<byte>, a: Loop, writes: bool, out: seq<Step>, b: Loop, out': seq<Step>,
                      b': Loop)
    requires Follows(base, t, a, writes, out, b) && Follows(base, t, a, writes, out', b')
    requires b.scan == b'.scan && b.len == b'.len && b.pos == b'.pos
    ensures out == out' && b == b'
  {
    if writes {
      EmitsUnique(base, t, a.lastscan, a.lastpos, b.scan, b.pos, b.lastscan, b.lastpos, out[0],
                  b'.lastscan, b'.lastpos, out'[0]);
      assert out == [out[0]] && out' == [out'[0]];
    }
  }

  lemma TurnUnique(I: seq<int>, base: seq<byte>, t: seq<byte>, a: Loop, out: seq<Step>, b: Loop, out': seq<Step>,
                   b': Loop)
    requires Turns(I, base, t, a, out, b) && Turns(I, base, t, a, out', b')
    ensures out == out' && b == b'
  {
    ScanUnique(I, base, t, a.lastoffset, a.scan + a.len, a.len, a.pos, b.scan, b.len, b.pos, b'.scan, b'.len, b'.pos);
    FollowsUnique(base, t, a, !GoesOn(I, base, t, a.lastoffset, a.scan + a.len, b.scan, b.len), out, b, out', b');
  }

  // A turn can end in one way only.
  ghost predicate Determined(turn: (Loop, seq<Step>, Loop) -> bool)
  {
    forall a, out, b, out', b' :: turn(a, out, b) && turn(a, out', b') ==> out == out' && b == b'
  }

  lemma TurnDetermined(I: seq<int>, base: seq<byte>, t: seq<byte>)
    ensures Determined(TurnOf(I, base, t))
  {
    forall a, out, b, out', b' | Turns(I, base, t, a, out, b) && Turns(I, base, t, a, out', b')
      ensures out == out' && b == b'
    {
      TurnUnique(I, base, t, a, out, b, out', b');
    }
  }

  lemma {:induction false} LeadsUnique(turn: (Loop, seq<Step>, Loop) -> bool, n: nat, g: seq<Step>, b: Loop,
                                       g': seq<Step>, b': Loop)
    requires Determined(turn) && Leads(turn, n, g, b) && Leads(turn, n, g', b')
    ensures g == g' && b == b'
  {
    if n > 0 {
      var a, h, out :| Leads(turn, n - 1, h, a) && turn(a, out, b) && g == h + out;
      var a', h', out' :| Leads(turn, n - 1, h', a') && turn(a', out', b') && g' == h' + out';
      LeadsUnique(turn, n - 1, h, a, h', a');
    }
  }

  // From where no turn starts, no run goes on.
  lemma {:induction false} LeadsOn(turn: (Loop, seq<Step>, Loop) -> bool, n: nat, m: nat, g: seq<Step>, b: Loop,
                                   g': seq<Step>, b': Loop)
    requires Determined(turn) && Leads(turn, n, g, b) && (forall out, c :: !turn(b, out, c))
    requires Leads(turn, m, g', b') && n <= m
    ensures n == m
  {
    if n < m {
      var a, h, out :| Leads(turn, m - 1, h, a) && turn(a, out, b') && g' == h + out;
      LeadsOn(turn, n, m - 1, g, b, h, a);
      LeadsUnique(turn, n, g, b, h, a);
    }
  }

  // So the old and the new data alone decide the steps.
  lemma ChosenUnique(base: seq<byte>, t: seq<byte>, I: seq<int>, g: seq<Step>, I': seq<int>, g': seq<Step>)
    requires SuffixArray(base, I) && Chosen(I, base, t, g) && SuffixArray(base, I') && Chosen(I', base, t, g')
    ensures g == g'
  {
    forall k: nat | k < |I|
      ensures I[k] == I'[k]
    {
      SuffixArrayUnique(base, I, I', k);
    }
    assert I == I';
    TurnDetermined(I, base, t);
    var b :| Reached(I, base, t, g, b) && b.scan >= |t|;
    var n :| Leads(TurnOf(I, base, t), n, g, b);
    var b' :| Reached(I, base, t, g', b') && b'.scan >= |t|;
    var m :| Leads(TurnOf(I, base, t), m, g', b');
    if n <= m {
      LeadsOn(TurnOf(I, base, t), n, m, g, b, g', b');
    } else {
      LeadsOn(TurnOf(I, base, t), m, n, g', b', g, b);
    }
    LeadsUnique(TurnOf(I, base, t), n, g, b, g', b');
  }

  // What a turn finds: the last match starts inside both files, and something is left to
  // cover exactly while the scan goes on.
  ghost predicate Sound(base: seq<byte>, t: seq<byte>, a: Loop)
  {
    && a.lastscan <= a.scan <= |t| && a.pos <= |base| && a.lastpos <= |base| && 0 <= a.scan + a.lastoffset
    && (if a.scan < |t| then a.scan + a.len <= |t| && a.lastscan < |t| else a.lastscan == |t|)
  }

  lemma ScanSound(I: seq<int>, base: seq<byte>, t: seq<byte>, a: Loop, scan: nat, len: int, pos: int)
    requires Sound(base, t, a) && a.scan < |t|
    requires Scanned(I, base, t, a.lastoffset, a.scan + a.len, a.len, a.pos, scan, len, pos)
    ensures 0 <= len && 0 <= pos <= |base| && a.scan + a.len < scan + len && (scan < |t| ==> scan + len <= |t|)
  {
  }

  lemma EmitsSound(base: seq<byte>, t: seq<byte>, lastscan: nat, lastpos: nat, scan: nat, pos: nat,
                   nextscan: nat, nextpos: nat, x: Step)
    requires Emits(base, t, lastscan, lastpos, scan, pos, nextscan, nextpos, x)
    ensures scan == |t| ==> nextscan == |t|
    ensures lastscan + |x.diff| + |x.extra| == nextscan
  {
  }

  lemma TurnSound(I: seq<int>, base: seq<byte>, t: seq<byte>, a: Loop, out: seq<Step>, b: Loop)
    requires Sound(base, t, a) && Turns(I, base, t, a, out, b)
    ensures Sound(base, t, b) && a.scan + a.len < b.scan + b.len
  {
    ScanSound(I, base, t, a, b.scan, b.len, b.pos);
    if out != [] {
      EmitsSound(base, t, a.lastscan, a.lastpos, b.scan, b.pos, b.lastscan, b.lastpos, out[0]);
    }
  }

  // The steps g cover the new data up to lastscan and leave the reader at lastpos of the old.
  ghost predicate Covers(base: seq<byte>, t: seq<byte>, g: seq<Step>, lastscan: int, lastpos: int)
  {
    && 0 <= lastscan <= |t| && 0 <= lastpos <= |base|
    && Output(base, g, 0) == t[..lastscan] && Position(g, 0) == lastpos
    && (forall i :: 0 <= i < |g| ==> Encodable(g[i].Control()))
    && (lastscan == |t| ==> Readable(g))
  }

  lemma CoversMore(base: seq<byte>, t: seq<byte>, g: seq<Step>, lastscan: nat, lastpos: nat, scan: nat, pos: nat,
                   nextscan: nat, nextpos: nat, x: Step)
    requires Covers(base, t, g, lastscan, lastpos) && lastscan < |t| && |base| < TWO63 && |t| < TWO63
    requires Emits(base, t, lastscan, lastpos, scan, pos, nextscan, nextpos, x) && pos <= |base|
    ensures Covers(base, t, g + [x], nextscan, nextpos)
  {
    OutputGrows(base, t, g, lastscan, lastpos, |x.diff|, nextscan, nextpos, x);
    EmitsSound(base, t, lastscan, lastpos, scan, pos, nextscan, nextpos, x);
  }

  lemma OutputGrows(base: seq<byte>, t: seq<byte>, g: seq<Step>, lastscan: nat, lastpos: nat, n: nat, scan: nat,
                    pos: nat, x: Step)
    requires lastscan + n <= scan <= |t| && lastpos + n <= |base|
    requires Output(base, g, 0) == t[..lastscan] && Position(g, 0) == lastpos
    requires x.diff == Differences(base, t, lastpos, lastscan, n) && x.extra == t[lastscan + n..scan]
    requires x.seek == pos - (lastpos + n)
    ensures Output(base, g + [x], 0) == t[..scan] && Position(g + [x], 0) == pos
  {
    OutputMore(base, g, x, 0);
    DifferencesAdded(base, t, lastpos, lastscan, n);
    Slices(t, lastscan, lastscan + n, scan);
  }

  lemma Slices(t: seq<byte>, a: nat, b: nat, c: nat)
    requires a <= b <= c <= |t|
    ensures t[..a] + (t[a..b] + t[b..c]) == t[..c]
  {
  }

  lemma TurnCovers(I: seq<int>, base: seq<byte>, t: seq<byte>, g: seq<Step>, a: Loop, out: seq<Step>, b: Loop)
    requires Sound(base, t, a) && Turns(I, base, t, a, out, b)
    requires Covers(base, t, g, a.lastscan, a.lastpos) && |base| < TWO63 && |t| < TWO63
    ensures Sound(base, t, b) && Covers(base, t, g + out, b.lastscan, b.lastpos)
  {
    TurnSound(I, base, t, a, out, b);
    if out == [] {
      assert g + out == g;
    } else {
      CoversMore(base, t, g, a.lastscan, a.lastpos, b.scan, b.pos, b.lastscan, b.lastpos, out[0]);
      assert out == [out[0]];
    }
  }

  // What holds at the start and is kept by every turn holds wherever the turns lead.
  lemma {:induction false} LeadsKeeps(turn: (Loop, seq<Step>, Loop) -> bool, kept: (seq<Step>, Loop) -> bool,
                                      n: nat, g: seq<Step>, b: Loop)
    requires kept([], START) && (forall h, a, out, c :: kept(h, a) && turn(a, out, c) ==> kept(h + out, c))
    requires Leads(turn, n, g, b)
    ensures kept(g, b)
  {
    if n > 0 {
      var a, h, out :| Leads(turn, n - 1, h, a) && turn(a, out, b) && g == h + out;
      LeadsKeeps(turn, kept, n - 1, h, a);
    }
  }

  lemma StartCovers(base: seq<byte>, t: seq<byte>)
    ensures Sound(base, t, START) && Covers(base, t, [], START.lastscan, START.lastpos)
  {
    assert t[..0] == [];
  }

  lemma LeadsCovers(I: seq<int>, base: seq<byte>, t: seq<byte>, n: nat, g: seq<Step>, b: Loop)
    requires Leads(TurnOf(I, base, t), n, g, b) && |base| < TWO63 && |t| < TWO63
    ensures Sound(base, t, b) && Covers(base, t, g, b.lastscan, b.lastpos)
  {
    var turn := TurnOf(I, base, t);
    var kept := (h: seq<Step>, a: Loop) => Sound(base, t, a) && Covers(base, t, h, a.lastscan, a.lastpos);
    StartCovers(base, t);
    forall h, a, out, c | kept(h, a) && turn(a, out, c)
      ensures kept(h + out, c)
    {
      TurnCovers(I, base, t, h, a, out, c);
    }
    LeadsKeeps(turn, kept, n, g, b);
  }

  // The steps chosen rebuild the new data, and can be written down.
  lemma ChosenRebuilds(I: seq<int>, base: seq<byte>, t: seq<byte>, g: seq<Step>)
    requires Chosen(I, base, t, g) && |base| < TWO63 && |t| < TWO63
    ensures Output(base, g, 0) == t && Readable(g)
  {
    var b :| Reached(I, base, t, g, b) && b.scan >= |t|;
    var n :| Leads(TurnOf(I, base, t), n, g, b);
    LeadsCovers(I, base, t, n, g, b);
    assert t[..|t|] == t;
  }

  // The bytes written are the streams of the steps g, which cover lastscan bytes.
  ghost predicate InStreams(g: seq<Step>, ctrl: seq<byte>, db: seq<byte>, eb: seq<byte>, lastscan: int)
  {
    ctrl == ControlOf(g) && db == DiffOf(g) && eb == ExtraOf(g) && |db| + |eb| == lastscan
  }

  // The bytes written are the streams of the steps that are chosen.
  ghost predicate ChosenStreams(I: seq<int>, base: seq<byte>, t: seq<byte>, ctrl: seq<byte>, d: seq<byte>, e: seq<byte>)
  {
    exists g :: Chosen(I, base, t, g) && InStreams(g, ctrl, d, e, |t|)
  }

  lemma StreamsOn(g: seq<Step>, ctrl: seq<byte>, db: seq<byte>, eb: seq<byte>, lastscan: int,
                  out: seq<Step>, ctrl': seq<byte>, db': seq<byte>, eb': seq<byte>, nextscan: int)
    requires InStreams(g, ctrl, db, eb, lastscan) && Added(out, ctrl, db, eb, ctrl', db', eb')
             && |db'| + |eb'| == nextscan
    ensures InStreams(g + out, ctrl', db', eb', nextscan)
  {
    if out == [] {
      assert g + out == g;
    } else {
      StreamsMore(g, out[0]);
      assert out == [out[0]];
    }
  }

  // The bytes of a turn's step, if it has one, have been added to those there were.
  ghost predicate Added(out: seq<Step>, ctrl: seq<byte>, db: seq<byte>, eb: seq<byte>,
                        ctrl': seq<byte>, db': seq<byte>, eb': seq<byte>)
  {
    if out == [] then ctrl' == ctrl && db' == db && eb' == eb
    else
      && |out| == 1 && ctrl' == ctrl + EncodeTriple(out[0].Control())
      && db' == db + out[0].diff && eb' == eb + out[0].extra
  }

  // The main loop (bsdiff.c:281-362), and the differences and extra bytes it leaves.
  method WriteSteps(I: array<int>, base: seq<byte>, t: seq<byte>)
    returns (ctrl: seq<byte>, d: seq<byte>, e: seq<byte>, ghost g: seq<Step>)
    requires SuffixArray(base, I[..])
    ensures InStreams(g, ctrl, d, e, |t|) && Chosen(I[..], base, t, g)
    ensures ChosenStreams(I[..], base, t, ctrl, d, e)
  {
    ghost var v := I[..];
    var db, eb := new byte[|t| + 1], new byte[|t| + 1];
    var dblen, eblen, a := 0, 0, START;
    ctrl, g := [], [];
    ReachedStart(v, base, t);
    while a.scan < |t|
      invariant fresh(db) && fresh(eb) && db != eb && dblen <= |t| && eblen <= |t| && db.Length == eb.Length == |t| + 1
      invariant 0 <= dblen && 0 <= eblen && InStreams(g, ctrl, db[..dblen], eb[..eblen], a.lastscan)
      invariant I[..] == v && Reached(v, base, t, g, a) && Sound(base, t, a)
      decreases |t| - a.scan - a.len
    {
      ghost var was, out, ctrl0, db0, eb0 := a, [], ctrl, db[..dblen], eb[..eblen];
      dblen, eblen, a, ctrl, out := Turn(I, db, dblen, eb, eblen, base, t, a, ctrl);
      ReachedMore(v, base, t, g, was, out, a);
      TurnSound(v, base, t, was, out, a);
      StreamsOn(g, ctrl0, db0, eb0, was.lastscan, out, ctrl, db[..dblen], eb[..eblen], a.lastscan);
      g := g + out;
    }
    d, e := db[..dblen], eb[..eblen];
  }

  // One turn: a scan, and a step unless the match found goes on with the old alignment.
  method Turn(I: array<int>, db: array<byte>, dblen: nat, eb: array<byte>, eblen: nat, base: seq<byte>, t: seq<byte>,
              a: Loop, ctrl: seq<byte>)
    returns (dblen': nat, eblen': nat, b: Loop, ctrl': seq<byte>, ghost out: seq<Step>)
    requires SuffixArray(base, I[..]) && Sound(base, t, a) && a.scan < |t|
    requires db != eb && db.Length == eb.Length == |t| + 1 && dblen + eblen == a.lastscan
    modifies db, eb
    ensures dblen' + eblen' == b.lastscan <= |t|
    ensures Turns(old(I[..]), base, t, a, out, b)
    ensures Added(out, ctrl, old(db[..dblen]), old(eb[..eblen]), ctrl', db[..dblen'], eb[..eblen'])
  {
    ghost var v := I[..];
    var scan, len, pos, oldscore := Scan(I, base, t, a.lastoffset, a.scan + a.len, a.len, a.pos);
    ScanSound(v, base, t, a, scan, len, pos);
    dblen', eblen', b, ctrl', out :=
      WriteOut(db, dblen, eb, eblen, base, t, a, scan, len, pos, len != oldscore || scan == |t|, ctrl);
    TurnMade(v, base, t, a, len != oldscore || scan == |t|, out, b);
  }

  lemma TurnMade(I: seq<int>, base: seq<byte>, t: seq<byte>, a: Loop, writes: bool, out: seq<Step>, b: Loop)
    requires a.scan < |t| && Scanned(I, base, t, a.lastoffset, a.scan + a.len, a.len, a.pos, b.scan, b.len, b.pos)
    requires writes <==> !GoesOn(I, base, t, a.lastoffset, a.scan + a.len, b.scan, b.len)
    requires Follows(base, t, a, writes, out, b)
    ensures Turns(I, base, t, a, out, b)
  {
  }

  // The rest of a turn, after the scan.
  method WriteOut(db: array<byte>, dblen: nat, eb: array<byte>, eblen: nat, base: seq<byte>, t: seq<byte>,
                  a: Loop, scan: nat, len: nat, pos: nat, writes: bool, ctrl: seq<byte>)
    returns (dblen': nat, eblen': nat, b: Loop, ctrl': seq<byte>, ghost out: seq<Step>)
    requires db != eb && db.Length == eb.Length == |t| + 1 && dblen + eblen == a.lastscan
    requires a.lastscan <= scan <= |t| && a.lastpos <= |base| && pos <= |base|
    modifies db, eb
    ensures dblen' + eblen' == b.lastscan <= |t|
    ensures b.scan == scan && b.len == len && b.pos == pos
    ensures Follows(base, t, a, writes, out, b)
    ensures Added(out, ctrl, old(db[..dblen]), old(eb[..eblen]), ctrl', db[..dblen'], eb[..eblen'])
  {
    if writes {
      ghost var x;
      var lastscan, lastpos;
      dblen', eblen', lastscan, lastpos, ctrl', x :=
        Emit(db, dblen, eb, eblen, base, t, a.lastscan, a.lastpos, scan, pos, ctrl);
      b, out := Loop(scan, len, pos, lastscan, lastpos, pos - scan), [x];
    } else {
      dblen', eblen', ctrl' := dblen, eblen, ctrl;
      b, out := a.(scan := scan, len := len, pos := pos), [];
    }
  }

  // One turn's output (bsdiff.c:304-359).
  method Emit(db: array<byte>, dblen: nat, eb: array<byte>, eblen: nat, base: seq<byte>, t: seq<byte>,
              lastscan: nat, lastpos: nat, scan: nat, pos: nat, ctrl: seq<byte>)
    returns (dblen': nat, eblen': nat, lastscan': nat, lastpos': nat, ctrl': seq<byte>, ghost x: Step)
    requires db != eb && db.Length == eb.Length == |t| + 1 && dblen + eblen == lastscan
    requires lastscan <= scan <= |t| && lastpos <= |base| && pos <= |base|
    modifies db, eb
    ensures dblen' + eblen' == lastscan' <= scan
    ensures Emits(base, t, lastscan, lastpos, scan, pos, lastscan', lastpos', x)
    ensures Added([x], ctrl, old(db[..dblen]), old(eb[..eblen]), ctrl', db[..dblen'], eb[..eblen'])
  {
    var lenf, lenb := Extend(base, t, lastscan, lastpos, scan, pos);
    lastscan', lastpos' := scan - lenb, pos - lenb;
    x := Step(Differences(base, t, lastpos, lastscan, lenf), t[lastscan + lenf..lastscan'],
              lastpos' - (lastpos + lenf));
    EmitsThat(base, t, lastscan, lastpos, scan, pos, lenf, lenb, x);
    dblen', eblen', ctrl' := AppendStep(db, dblen, eb, eblen, base, t, lastscan, lastpos, lenf, lastscan', lastpos',
                                        ctrl, x);
  }

  // The bytes of the step x, which covers the new data up to nextscan with lenf differences
  // (bsdiff.c:335-356).
  method AppendStep(db: array<byte>, dblen: nat, eb: array<byte>, eblen: nat, base: seq<byte>, t: seq<byte>,
                    lastscan: nat, lastpos: nat, lenf: nat, nextscan: nat, nextpos: nat, ctrl: seq<byte>, ghost x: Step)
    returns (dblen': nat, eblen': nat, ctrl': seq<byte>)
    requires db != eb && db.Length == eb.Length == |t| + 1 && dblen + eblen == lastscan
    requires lastscan + lenf <= nextscan <= |t| && lastpos + lenf <= |base|
    requires x == Step(Differences(base, t, lastpos, lastscan, lenf), t[lastscan + lenf..nextscan],
                       nextpos - (lastpos + lenf))
    modifies db, eb
    ensures dblen' + eblen' == nextscan
    ensures Added([x], ctrl, old(db[..dblen]), old(eb[..eblen]), ctrl', db[..dblen'], eb[..eblen'])
  {
    var m := nextscan - (lastscan + lenf);
    assert x.Control() == Triple(lenf, m, nextpos - (lastpos + lenf));
    ctrl' := ctrl + EncodeTriple(Triple(lenf, m, nextpos - (lastpos + lenf)));
    AppendBlocks(db, dblen, eb, eblen, base, t, lastscan, lastpos, lenf, lastscan + lenf, nextscan, m);
    dblen', eblen' := dblen + lenf, eblen + m;
  }

  lemma EmitsThat(base: seq<byte>, t: seq<byte>, lastscan: nat, lastpos: nat, scan: nat, pos: nat, lenf: nat, lenb: nat,
                  x: Step)
    requires lastpos + lenf <= |base| && lenb <= pos && lastscan + lenf <= scan - lenb && scan <= |t|
    requires Shared(base, t, lastscan, lastpos, scan, pos, lenf, lenb)
    requires x == Step(Differences(base, t, lastpos, lastscan, lenf), t[lastscan + lenf..scan - lenb],
                       pos - lenb - (lastpos + lenf))
    ensures Emits(base, t, lastscan, lastpos, scan, pos, scan - lenb, pos - lenb, x)
  {
    assert |x.diff| == lenf && scan - (scan - lenb) == lenb;
  }

  // The lenf differences of a step, and its m new bytes up to position scan
  // (bsdiff.c:335-338).
  method AppendBlocks(db: array<byte>, dblen: nat, eb: array<byte>, eblen: nat, base: seq<byte>, t: seq<byte>,
                      lastscan: nat, lastpos: nat, lenf: nat, mid: nat, scan: nat, m: nat)
    requires db != eb && lastpos + lenf <= |base| && lastscan + lenf == mid <= scan <= |t| && m == scan - mid
    requires dblen + lenf <= db.Length && eblen + m <= eb.Length
    modifies db, eb
    ensures db[..dblen + lenf] == old(db[..dblen]) + Differences(base, t, lastpos, lastscan, lenf)
    ensures eb[..eblen + m] == old(eb[..eblen]) + t[mid..scan]
  {
    AppendDifferences(db, dblen, base, t, lastpos, lastscan, lenf);
    AppendExtra(eb, eblen, t, mid, scan, m);
  }

  // bsdiff: the patch from base to t.  The suffix array is computed unless the caller has
  // it from an earlier call with the same old data.
  method Bsdiff(z: Codec, base: seq<byte>, IP: array?<int>, t: seq<byte>)
    returns (patch: seq<byte>, I: array<int>, ghost g: seq<Step>)
    requires |base| < TWO63 && |t| < TWO63
    requires IP != null ==> SuffixArray(base, IP[..])
    ensures SuffixArray(base, I[..]) && (IP != null ==> I == IP)
    ensures patch == PatchFile(z, g, |t|) && Output(base, g, 0) == t && Readable(g)
    ensures Chosen(I[..], base, t, g) && |DiffOf(g)| + |ExtraOf(g)| == |t|
    ensures PatchOf(z, base, t, patch)
  {
    if IP == null {
      I := new int[|base| + 1];
      var V := new int[|base| + 1];
      Qsufsort(I, V, base);
    } else {
      I := IP;
    }
    var ctrl, d, e;
    ctrl, d, e, g := WriteSteps(I, base, t);
    ChosenRebuilds(I[..], base, t, g);
    var c, dz := z.pack(ctrl), z.pack(d);
    patch := MAGIC + OfftOut(|c|) + OfftOut(|dz|) + OfftOut(|t|) + c + dz + z.pack(e);
  }

  // patch is the file of the steps that bsdiff chooses.
  ghost predicate PatchOf(z: Codec, base: seq<byte>, t: seq<byte>, patch: seq<byte>)
  {
    exists I, g :: SuffixArray(base, I) && Chosen(I, base, t, g) && patch == PatchFile(z, g, |t|)
  }

  // The old and the new data alone decide the patch.
  lemma PatchUnique(z: Codec, base: seq<byte>, t: seq<byte>, patch: seq<byte>, patch': seq<byte>)
    requires PatchOf(z, base, t, patch) && PatchOf(z, base, t, patch')
    ensures patch == patch'
  {
    var I, g :| SuffixArray(base, I) && Chosen(I, base, t, g) && patch == PatchFile(z, g, |t|);
    var I', g' :| SuffixArray(base, I') && Chosen(I', base, t, g') && patch' == PatchFile(z, g', |t|);
    ChosenUnique(base, t, I, g, I', g');
  }

  // What bsdiff writes turns the old data back into the new, wherever the patch stands in
  // a larger file.
  lemma DiffRoundTrip(z: Codec, base: seq<byte>, t: seq<byte>, g: seq<Step>, front: seq<byte>, back: seq<byte>)
    requires Faithful(z) && Output(base, g, 0) == t && Readable(g) && |t| < TWO63 && |PatchFile(z, g, |t|)| < TWO63
    ensures Patched(z, base, front + PatchFile(z, g, |t|) + back, |front|) == Some(t)
  {
    PatchRoundTrip(z, base, g, front, back);
  }
}
