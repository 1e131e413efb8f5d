// What merging keeps (imgdiff.c:678-760): the tiling of the image, and the parallel shape
// of two images' chunk lists.  It leaves no neighbours to merge.
module MergeLaws {
  import opened Bytes
  import opened ImageChunks
  import opened ChunkMerge

  // Two neighbours could still be merged.
  ghost predicate Settled(cs: seq<Chunk>)
  {
    forall i {:trigger cs[i]} :: 0 < i < |cs| ==> !Solid(cs[i - 1], cs[i])
  }

  // The joined chunk ends where its run ends, so it meets the next chunk exactly as the
  // run's last chunk does.
  lemma JoinedEnd(cs: seq<Chunk>, n: nat, d: Chunk)
    requires 1 <= n <= |cs| && forall i :: 0 < i < n ==> Solid(cs[i - 1], cs[i])
    ensures RunOrderedHere(cs[..n])
    ensures Solid(Joined(cs[..n]), d) <==> Solid(cs[n - 1], d)
    ensures d.Normal? ==> (Solid(d, Joined(cs[..n])) <==> Solid(d, cs[0]))
  {
    RunOrdered(cs, n);
    assert cs[..n][n - 1] == cs[n - 1] && cs[..n][0] == cs[0];
  }

  lemma MergedHead(cs: seq<Chunk>)
    requires cs != []
    ensures Merged(cs) != [] && Merged(cs)[0].Normal? == cs[0].Normal?
    ensures Merged(cs)[0].start == cs[0].start
    ensures forall d: Chunk {:trigger Solid(d, cs[0])} :: Solid(d, Merged(cs)[0]) <==> Solid(d, cs[0])
  {
    var n := RunLength(cs);
    JoinedEnd(cs, n, cs[0]);
  }

  // No neighbours are left to merge, whatever the list.
  lemma {:induction false} MergedSettles(cs: seq<Chunk>)
    ensures Settled(Merged(cs))
    decreases |cs|
  {
    if cs != [] {
      var n := RunLength(cs);
      var rest := Merged(cs[n..]);
      MergedFirst(cs, cs[n..], n);
      MergedSettles(cs[n..]);
      if n < |cs| {
        MergedHead(cs[n..]);
        assert cs[n..][0] == cs[n];
        JoinedEnd(cs, n, cs[n]);
        JoinedEnd(cs, n, rest[0]);
        assert Solid(cs[n - 1], rest[0]) <==> Solid(cs[n - 1], cs[n..][0]);
      }
      forall i | 0 < i < |Merged(cs)|
        ensures !Solid(Merged(cs)[i - 1], Merged(cs)[i])
      {
        if i > 1 {
          assert Merged(cs)[i] == rest[i - 1] && Merged(cs)[i - 1] == rest[i - 2];
        }
      }
    }
  }

  // Merging a second time changes nothing.
  lemma {:induction false} SettledStays(cs: seq<Chunk>)
    requires Settled(cs)
    ensures Merged(cs) == cs
    decreases |cs|
  {
    if cs != [] {
      assert |cs| > 1 ==> !Solid(cs[1 - 1], cs[1]);
      assert RunLength(cs) == 1;
      assert cs[..1][0] == cs[0];
      var rest := cs[1..];
      forall i | 0 < i < |rest|
        ensures !Solid(rest[i - 1], rest[i])
      {
        assert rest[i] == cs[i + 1] && rest[i - 1] == cs[i];
      }
      SettledStays(rest);
      assert cs == [cs[0]] + rest;
    }
  }

  // Two normal chunks that follow each other in a tiled list form a solid block.
  lemma TiledSolid(zl: Zlib, img: seq<byte>, cs: seq<Chunk>, pos: nat)
    requires |cs| > 1 && Tiles(zl, img, cs, pos)
    ensures Solid(cs[0], cs[1]) <==> cs[0].Normal? && cs[1].Normal?
  {
    assert cs[1..][0] == cs[1];
  }

  lemma {:induction false} RunTiles(zl: Zlib, img: seq<byte>, cs: seq<Chunk>, pos: nat, n: nat)
    requires 1 <= n <= |cs| && Tiles(zl, img, cs, pos)
    ensures Describes(zl, img, cs[n - 1]) && pos <= cs[n - 1].start
    ensures Tiles(zl, img, cs[n..], cs[n - 1].start + cs[n - 1].Extent())
    decreases n
  {
    if n > 1 {
      RunTiles(zl, img, cs[1..], pos + cs[0].Extent(), n - 1);
      assert cs[1..][n - 2] == cs[n - 1] && cs[1..][n - 1..] == cs[n..];
    }
  }

  lemma JoinedDescribes(zl: Zlib, img: seq<byte>, cs: seq<Chunk>, n: nat)
    requires 1 <= n <= |cs| && forall i :: 0 < i < n ==> Solid(cs[i - 1], cs[i])
    requires Describes(zl, img, cs[0]) && Describes(zl, img, cs[n - 1])
    ensures RunOrderedHere(cs[..n]) && Describes(zl, img, Joined(cs[..n])) && Joined(cs[..n]).start == cs[0].start
    ensures Joined(cs[..n]).start + Joined(cs[..n]).Extent() == cs[n - 1].start + cs[n - 1].Extent()
    ensures Joined(cs[..n]).Normal? == cs[0].Normal?
  {
    RunOrdered(cs, n);
    assert cs[..n][0] == cs[0] && cs[..n][n - 1] == cs[n - 1];
  }

  // The first merged chunk and the rest, in a tiled list.
  lemma FirstMerged(zl: Zlib, img: seq<byte>, cs: seq<Chunk>, pos: nat, n: nat) returns (c: Chunk, next: nat)
    requires cs != [] && Tiles(zl, img, cs, pos) && n == RunLength(cs)
    ensures Merged(cs) == [c] + Merged(cs[n..]) && c.Normal? == cs[0].Normal?
    ensures c.start == pos && Describes(zl, img, c) && next == pos + c.Extent() && Tiles(zl, img, cs[n..], next)
  {
    RunTiles(zl, img, cs, pos, n);
    JoinedDescribes(zl, img, cs, n);
    MergedFirst(cs, cs[n..], n);
    c, next := Joined(cs[..n]), cs[n - 1].start + cs[n - 1].Extent();
  }

  // Merging keeps the tiling, so the merged chunks cover the same bytes.
  lemma {:induction false} MergedTiles(zl: Zlib, img: seq<byte>, cs: seq<Chunk>, pos: nat)
    requires Tiles(zl, img, cs, pos)
    ensures Tiles(zl, img, Merged(cs), pos)
    decreases |cs|
  {
    if cs != [] {
      var n := RunLength(cs);
      var c, next := FirstMerged(zl, img, cs, pos, n);
      MergedTiles(zl, img, cs[n..], next);
      TilesAs(zl, img, Merged(cs), c, Merged(cs[n..]), pos, next);
    }
  }

  lemma TilesAs(zl: Zlib, img: seq<byte>, m: seq<Chunk>, c: Chunk, rest: seq<Chunk>, pos: nat, next: nat)
    requires m == [c] + rest && c.start == pos && next == pos + c.Extent()
    requires Describes(zl, img, c) && Tiles(zl, img, rest, next)
    ensures Tiles(zl, img, m, pos)
  {
    TilesCons(zl, img, c, rest, pos);
  }

  // Chunks of the same kinds in the same order.
  ghost predicate SameKinds(a: seq<Chunk>, b: seq<Chunk>)
  {
    |a| == |b| && forall i :: 0 <= i < |a| ==> a[i].Normal? == b[i].Normal?
  }

  lemma {:induction false} SameRuns(zl: Zlib, img: seq<byte>, a: seq<Chunk>, pos: nat, zm: Zlib, img': seq<byte>,
                                    b: seq<Chunk>, pos': nat)
    requires a != [] && SameKinds(a, b) && Tiles(zl, img, a, pos) && Tiles(zm, img', b, pos')
    ensures RunLength(a) == RunLength(b)
    decreases |a|
  {
    if |a| > 1 {
      TiledSolid(zl, img, a, pos);
      TiledSolid(zm, img', b, pos');
      SameRuns(zl, img, a[1..], pos + a[0].Extent(), zm, img', b[1..], pos' + b[0].Extent());
    }
  }

  // Lists that tile their images and have the same kinds still have them when merged, so
  // the check that merging went awry (imgdiff.c:934-938) never fails.
  lemma {:induction false} MergedSameKinds(zl: Zlib, img: seq<byte>, a: seq<Chunk>, pos: nat, zm: Zlib,
                                           img': seq<byte>, b: seq<Chunk>, pos': nat)
    requires SameKinds(a, b) && Tiles(zl, img, a, pos) && Tiles(zm, img', b, pos')
    ensures SameKinds(Merged(a), Merged(b))
    decreases |a|
  {
    if a != [] {
      var n := RunLength(a);
      SameRuns(zl, img, a, pos, zm, img', b, pos');
      var c, next := FirstMerged(zl, img, a, pos, n);
      var d, next' := FirstMerged(zm, img', b, pos', n);
      SameKindsTail(a, b, n);
      MergedSameKinds(zl, img, a[n..], next, zm, img', b[n..], next');
      SameKindsCons(c, d, Merged(a[n..]), Merged(b[n..]));
    }
  }

  lemma SameKindsTail(a: seq<Chunk>, b: seq<Chunk>, n: nat)
    requires SameKinds(a, b) && n <= |a|
    ensures SameKinds(a[n..], b[n..])
  {
  }

  lemma SameKindsCons(c: Chunk, d: Chunk, a: seq<Chunk>, b: seq<Chunk>)
    requires SameKinds(a, b) && c.Normal? == d.Normal?
    ensures SameKinds([c] + a, [d] + b)
  {
  }

  // In a merged tiled list, of two neighbours at least one is a deflate chunk.
  lemma MergedAlternates(zl: Zlib, img: seq<byte>, cs: seq<Chunk>, pos: nat, i: nat)
    requires Tiles(zl, img, cs, pos) && i + 1 < |Merged(cs)|
    ensures Merged(cs)[i].Deflate? || Merged(cs)[i + 1].Deflate?
  {
    MergedTiles(zl, img, cs, pos);
    MergedSettles(cs);
    var m := Merged(cs);
    assert !Solid(m[i + 1 - 1], m[i + 1]);
    TilesFrom(zl, img, m, pos, i);
    TiledSolid(zl, img, m[i..], m[i].start);
  }

  lemma {:induction false} TilesFrom(zl: Zlib, img: seq<byte>, cs: seq<Chunk>, pos: nat, i: nat)
    requires Tiles(zl, img, cs, pos) && i < |cs|
    ensures Tiles(zl, img, cs[i..], cs[i].start)
    decreases i
  {
    if i > 0 {
      RunTiles(zl, img, cs, pos, i);
      assert cs[i..][0] == cs[i];
    }
  }
}
