// MergeAdjacentNormalChunks (imgdiff.c:707-760), in place on the array of chunks.
module ChunkMerge {
  import opened ImageChunks

  // b begins where a ends, in the image and in memory.
  predicate Solid(a: Chunk, b: Chunk)
  {
    a.Normal? && b.Normal? && b.start == a.start + a.len && b.data == a.data + a.len
  }

  // How many chunks from the front form one solid run.
  function RunLength(cs: seq<Chunk>): (n: nat)
    requires cs != []
    ensures 1 <= n <= |cs|
    ensures forall i :: 0 < i < n ==> Solid(cs[i - 1], cs[i])
    ensures n < |cs| ==> !Solid(cs[n - 1], cs[n])
  {
    if |cs| > 1 && Solid(cs[0], cs[1]) then
      var n := RunLength(cs[1..]);
      assert forall i {:trigger cs[i]} :: 1 < i <= n ==> cs[i] == cs[1..][i - 1] && cs[i - 1] == cs[1..][i - 2];
      1 + n
    else 1
  }

  // One chunk for a whole run.
  function Joined(run: seq<Chunk>): (c: Chunk)
    requires run != []
             && (|run| > 1 ==> run[0].Normal? && run[|run| - 1].Normal? && run[0].start <= run[|run| - 1].start)
  {
    if |run| == 1 then run[0]
    else
      var first, last := run[0], run[|run| - 1];
      Normal(first.start, last.len + (last.start - first.start), first.data)
  }

  lemma {:induction false} RunOrdered(cs: seq<Chunk>, n: nat)
    requires 1 <= n <= |cs| && forall i :: 0 < i < n ==> Solid(cs[i - 1], cs[i])
    ensures cs[0].start <= cs[n - 1].start && (n > 1 ==> cs[0].Normal? && cs[n - 1].Normal?)
    ensures n > 1 ==> cs[n - 1].start - cs[0].start == cs[n - 1].data - cs[0].data
    decreases n
  {
    if n > 1 {
      RunOrdered(cs, n - 1);
      assert Solid(cs[n - 2], cs[n - 1]);
    }
  }

  // The list with every solid run joined.
  function Merged(cs: seq<Chunk>): (m: seq<Chunk>)
    ensures |m| <= |cs|
    decreases |cs|
  {
    if cs == [] then []
    else
      var n := RunLength(cs);
      RunOrdered(cs, n);
      [Joined(cs[..n])] + Merged(cs[n..])
  }

  // The end of the run that starts at inStart (imgdiff.c:716-729).
  method FindRun(chunks: array<Chunk>, num: nat, inStart: nat) returns (inEnd: nat)
    requires inStart < num <= chunks.Length
    ensures inStart < inEnd <= num && inEnd - inStart == RunLength(chunks[inStart..num])
  {
    inEnd := inStart + 1;
    if chunks[inStart].Normal? {
      while inEnd < num && Solid(chunks[inEnd - 1], chunks[inEnd])
        invariant inStart < inEnd <= num && chunks[inEnd - 1].Normal?
        invariant RunLength(chunks[inStart..num]) == inEnd - 1 - inStart + RunLength(chunks[inEnd - 1..num])
      {
        var s := chunks[inEnd - 1..num];
        assert s[0] == chunks[inEnd - 1] && s[1] == chunks[inEnd] && s[1..] == chunks[inEnd..num];
        inEnd := inEnd + 1;
      }
    }
    var s := chunks[inEnd - 1..num];
    assert s[0] == chunks[inEnd - 1] && (|s| > 1 ==> s[1] == chunks[inEnd]);
  }

  // Write the chunk for the run inStart..inEnd to position out (imgdiff.c:731-754).
  method JoinRun(chunks: array<Chunk>, num: nat, inStart: nat, inEnd: nat, out: nat)
    requires out <= inStart < inEnd <= num <= chunks.Length && inEnd - inStart == RunLength(chunks[inStart..num])
    modifies chunks
    ensures RunOrderedHere(old(chunks[inStart..num])[..inEnd - inStart])
    ensures chunks[..] == old(chunks[..])[out := Joined(old(chunks[inStart..num])[..inEnd - inStart])]
  {
    ghost var s, was := chunks[inStart..num], chunks[..];
    RunOrdered(s, inEnd - inStart);
    assert chunks[inStart] == s[0] && chunks[inEnd - 1] == s[inEnd - inStart - 1];
    if inEnd == inStart + 1 {
      if out != inStart {
        chunks[out] := chunks[inStart];
      }
    } else {
      var first, last := chunks[inStart], chunks[inEnd - 1];
      chunks[out] := Normal(first.start, last.len + (last.start - first.start), first.data);
    }
    assert chunks[..] == was[out := chunks[out]];
  }

  ghost predicate RunOrderedHere(run: seq<Chunk>)
  {
    run != [] && (|run| > 1 ==> run[0].Normal? && run[|run| - 1].Normal? && run[0].start <= run[|run| - 1].start)
  }

  // The state of the merge: out chunks written, the list from inStart on untouched.
  ghost predicate Merging(was: seq<Chunk>, now: seq<Chunk>, num: int, inStart: int, out: int)
  {
    && |now| == |was| && 0 <= out <= inStart <= num <= |was|
    && now[inStart..] == was[inStart..]
    && Merged(was[..num]) == now[..out] + Merged(was[inStart..num])
  }

  lemma MergingStep(was: seq<Chunk>, now: seq<Chunk>, num: int, i: int, j: int, out: int, c: Chunk)
    requires Merging(was, now, num, i, out) && i < j <= num && j - i == RunLength(was[i..num])
    requires RunOrderedHere(was[i..num][..j - i]) && c == Joined(was[i..num][..j - i])
    ensures Merging(was, now[out := c], num, j, out + 1)
  {
    MergedFirst(was[i..num], was[j..num], j - i);
    WriteOut(was, now, i, j, out, c);
    Shift(now[..out], c, Merged(was[j..num]));
  }

  lemma MergedFirst(s: seq<Chunk>, rest: seq<Chunk>, n: int)
    requires s != [] && n == RunLength(s) && rest == s[n..]
    ensures RunOrderedHere(s[..n]) && Merged(s) == [Joined(s[..n])] + Merged(rest)
  {
    RunOrdered(s, n);
  }

  lemma WriteOut(was: seq<Chunk>, now: seq<Chunk>, i: int, j: int, out: int, c: Chunk)
    requires 0 <= out <= i < j <= |was| == |now| && now[i..] == was[i..]
    ensures now[out := c][j..] == was[j..] && now[out := c][..out + 1] == now[..out] + [c]
  {
    assert now[j..] == now[i..][j - i..] && was[j..] == was[i..][j - i..];
  }

  lemma Shift(a: seq<Chunk>, c: Chunk, m: seq<Chunk>)
    ensures a + ([c] + m) == (a + [c]) + m
  {
  }

  // MergeAdjacentNormalChunks: the first of the num chunks become the merged list.
  method MergeAdjacentNormalChunks(chunks: array<Chunk>, num: nat) returns (out: nat)
    requires num <= chunks.Length
    modifies chunks
    ensures out <= num && chunks[..out] == Merged(old(chunks[..num])) && chunks[num..] == old(chunks[num..])
  {
    out := 0;
    var inStart := 0;
    ghost var was := chunks[..];
    MergingBegins(was, num);
    while inStart < num
      invariant Merging(was, chunks[..], num, inStart, out)
    {
      ghost var now := chunks[..];
      SameRun(was, now, num, inStart);
      assert chunks[inStart..num] == now[inStart..num];
      var inEnd := FindRun(chunks, num, inStart);
      JoinRun(chunks, num, inStart, inEnd, out);
      MergingStep(was, now, num, inStart, inEnd, out, chunks[out]);
      out := out + 1;
      inStart := inEnd;
    }
    MergingEnds(was, chunks[..], num, out);
  }

  lemma MergingBegins(was: seq<Chunk>, num: int)
    requires 0 <= num <= |was|
    ensures Merging(was, was, num, 0, 0)
  {
    assert was[0..num] == was[..num];
    assert was[..0] + Merged(was[..num]) == Merged(was[..num]);
  }

  lemma SameRun(was: seq<Chunk>, now: seq<Chunk>, num: int, i: int)
    requires 0 <= i < num <= |was| == |now| && now[i..] == was[i..]
    ensures now[i..num] == was[i..num]
  {
    assert now[i..num] == now[i..][..num - i] && was[i..num] == was[i..][..num - i];
  }

  lemma MergingEnds(was: seq<Chunk>, now: seq<Chunk>, num: int, out: int)
    requires Merging(was, now, num, num, out)
    ensures now[..out] == Merged(was[..num]) && now[num..] == was[num..]
  {
    assert was[num..num] == [];
    assert now[..out] + [] == now[..out];
  }
}
