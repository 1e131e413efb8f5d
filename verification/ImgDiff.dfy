// imgdiff in image mode (imgdiff.c:521-705, 839-1046): pair up the chunks of two images,
// make a patch for each pair, and write the IMGDIFF2 file.
module ImgDiff {
  import opened Bytes
  import opened Endian
  import opened PatchFormat
  import opened Bsdiff
  import opened ImageChunks
  import opened ChunkMerge
  import opened MergeLaws
  import opened ImgFormat

  // The encoder parameters imgdiff tries (imgdiff.c:583-590).
  function EncoderParams(level: int): (p: DeflateParams)
  {
    DeflateParams(level, 8, -15, 8, 0)
  }

  // The bytes of the image a chunk covers.
  function Covered(img: seq<byte>, c: Chunk): (b: seq<byte>)
    requires c.start + c.Extent() <= |img|
  {
    img[c.start..c.start + c.Extent()]
  }

  // Deflating the chunk's data again gives the bytes it came from.
  ghost predicate Rebuilds(zl: Zlib, img: seq<byte>, c: Chunk, level: int)
    requires c.Deflate? && c.start + c.Extent() <= |img|
  {
    zl.deflate(EncoderParams(level), c.bytes) == Covered(img, c)
  }

  // TryReconstruction (imgdiff.c:523-566): compare buffer by buffer.  A compressor that
  // goes on past the chunk's end is a mismatch.
  method TryReconstruction(zl: Zlib, img: seq<byte>, c: Chunk, level: int) returns (ok: bool)
    requires c.Deflate? && Describes(zl, img, c)
    ensures ok <==> Rebuilds(zl, img, c, level)
    ensures ok <==> zl.deflate(DeflateParams(level, 8, -15, 8, 0), c.bytes) == img[c.start..c.start + c.deflateLen]
  {
    var out, want := zl.deflate(EncoderParams(level), c.bytes), Covered(img, c);
    var p := 0;
    while true
      invariant 0 <= p <= |out| && p <= |want| && out[..p] == want[..p]
      decreases |out| - p
    {
      var have := if |out| - p < 32768 then |out| - p else 32768;
      if Window(want, p, have) != Window(out, p, have) {
        WindowsDiffer(out, want, p, have);
        return false;
      }
      if |want| < p + have {
        return false;
      }
      WindowsAgree(out, want, p, have);
      p := p + have;
      if p == |out| {
        break;
      }
    }
    return p == |want|;
  }

  lemma WindowsDiffer(out: seq<byte>, want: seq<byte>, p: nat, have: nat)
    requires Window(want, p, have) != Window(out, p, have)
    ensures out != want
  {
  }

  lemma WindowsAgree(out: seq<byte>, want: seq<byte>, p: nat, have: nat)
    requires p + have <= |out| && p + have <= |want| && out[..p] == want[..p]
    requires Window(want, p, have) == Window(out, p, have)
    ensures out[..p + have] == want[..p + have]
  {
    if have > 0 {
      assert out[..p + have] == out[..p] + out[p..p + have];
      assert want[..p + have] == want[..p] + want[p..p + have];
    }
  }

  // ReconstructDeflateChunk (imgdiff.c:568-599): level 6, then level 9.
  method ReconstructDeflateChunk(zl: Zlib, img: seq<byte>, c: Chunk) returns (ok: bool, level: int)
    requires c.Deflate? && Describes(zl, img, c)
    ensures ok <==> Rebuilds(zl, img, c, 6) || Rebuilds(zl, img, c, 9)
    ensures ok ==> Rebuilds(zl, img, c, level) && level == if Rebuilds(zl, img, c, 6) then 6 else 9
  {
    level := 6;
    while level <= 9
      invariant level == 6 || level == 9 || level == 12
      invariant level > 6 ==> !Rebuilds(zl, img, c, 6)
      invariant level > 9 ==> !Rebuilds(zl, img, c, 9)
      decreases 12 - level
    {
      ok := TryReconstruction(zl, img, c, level);
      if ok {
        return;
      }
      level := level + 3;
    }
    ok := false;
  }

  // ChangeDeflateChunkToNormal (imgdiff.c:672-684).
  function AsNormal(c: Chunk): (d: Chunk)
    ensures d.Normal? && d.start == c.start && d.Extent() == c.Extent()
  {
    match c
    case Normal(_, _, _) => c
    case Deflate(start, _, n, data, _) => Normal(start, n, data)
  }

  // Source and target chunks side by side, the target's deflate chunks below i known to be
  // rebuildable.
  ghost predicate Paired(zl: Zlib, src: seq<byte>, tgt: seq<byte>, a: seq<Chunk>, b: seq<Chunk>, i: nat)
  {
    && Tiles(zl, src, a, 0) && Tiles(zl, tgt, b, 0) && SameKinds(a, b)
    && (a != [] ==> a[0].Normal?)
    && (forall k :: 0 <= k < |b| ==> b[k].start + b[k].Extent() <= |tgt|)
    && (forall k :: 0 <= k < i && k < |b| && b[k].Deflate? ==> Settles(zl, tgt, b[k]))
  }

  ghost predicate Settles(zl: Zlib, img: seq<byte>, c: Chunk)
  {
    c.Deflate? && c.start + c.Extent() <= |img| && (c.level == 6 || c.level == 9) && Rebuilds(zl, img, c, c.level)
  }

  lemma {:induction false} TilesUpdate(zl: Zlib, img: seq<byte>, cs: seq<Chunk>, pos: nat, i: nat, c: Chunk)
    requires Tiles(zl, img, cs, pos) && i < |cs| && Describes(zl, img, c)
    requires c.start == cs[i].start && c.Extent() == cs[i].Extent()
    ensures Tiles(zl, img, cs[i := c], pos)
    decreases i
  {
    if i > 0 {
      TilesUpdate(zl, img, cs[1..], pos + cs[0].Extent(), i - 1, c);
      assert cs[i := c][1..] == cs[1..][i - 1 := c];
    } else {
      assert cs[i := c][1..] == cs[1..];
    }
  }

  lemma DescribedAt(zl: Zlib, img: seq<byte>, cs: seq<Chunk>, pos: nat, i: nat)
    requires Tiles(zl, img, cs, pos) && i < |cs|
    ensures Describes(zl, img, cs[i])
  {
    RunTiles(zl, img, cs, pos, i + 1);
  }

  // Both chunks of a pair become normal.
  lemma PairFlattened(zl: Zlib, src: seq<byte>, tgt: seq<byte>, a: seq<Chunk>, b: seq<Chunk>, i: nat)
    requires Paired(zl, src, tgt, a, b, i) && i < |a|
    ensures Paired(zl, src, tgt, a[i := AsNormal(a[i])], b[i := AsNormal(b[i])], i + 1)
  {
    DescribedAt(zl, src, a, 0, i);
    DescribedAt(zl, tgt, b, 0, i);
    TilesUpdate(zl, src, a, 0, i, AsNormal(a[i]));
    TilesUpdate(zl, tgt, b, 0, i, AsNormal(b[i]));
  }

  // The target chunk of a pair gets its level.
  lemma PairLevelled(zl: Zlib, src: seq<byte>, tgt: seq<byte>, a: seq<Chunk>, b: seq<Chunk>, i: nat, c: Chunk)
    requires Paired(zl, src, tgt, a, b, i) && i < |a| && b[i].Deflate? && c.Deflate? && c == b[i].(level := c.level)
             && Settles(zl, tgt, c)
    ensures Paired(zl, src, tgt, a, b[i := c], i + 1)
  {
    DescribedAt(zl, tgt, b, 0, i);
    TilesUpdate(zl, tgt, b, 0, i, c);
  }

  // The pair is to be patched as normal chunks: the target cannot be rebuilt, or nothing
  // has changed.
  ghost predicate Flattens(zl: Zlib, src: seq<byte>, tgt: seq<byte>, s: Chunk, t: Chunk)
    requires s.start + s.Extent() <= |src| && t.start + t.Extent() <= |tgt|
  {
    t.Deflate? && ((!Rebuilds(zl, tgt, t, 6) && !Rebuilds(zl, tgt, t, 9)) || Covered(tgt, t) == Covered(src, s))
  }

  // What the loop makes of the source and the target chunk of a pair.
  ghost predicate Prepares(zl: Zlib, src: seq<byte>, tgt: seq<byte>, s: Chunk, t: Chunk, s': Chunk, t': Chunk)
  {
    && s.start + s.Extent() <= |src| && t.start + t.Extent() <= |tgt|
    && if Flattens(zl, src, tgt, s, t) then s' == AsNormal(s) && t' == AsNormal(t)
       else s' == s && t' == if t.Deflate? then t.(level := if Rebuilds(zl, tgt, t, 6) then 6 else 9) else t
  }

  // One turn of the loop that checks deflate chunks (imgdiff.c:879-920).
  method PreparePair(zl: Zlib, src: seq<byte>, tgt: seq<byte>, srcChunks: array<Chunk>, tgtChunks: array<Chunk>,
                     num: nat, i: nat)
    requires srcChunks != tgtChunks && i < num <= srcChunks.Length && num <= tgtChunks.Length
    requires Paired(zl, src, tgt, srcChunks[..num], tgtChunks[..num], i)
    modifies srcChunks, tgtChunks
    ensures Paired(zl, src, tgt, srcChunks[..num], tgtChunks[..num], i + 1)
    ensures Prepares(zl, src, tgt, old(srcChunks[i]), old(tgtChunks[i]), srcChunks[i], tgtChunks[i])
    ensures forall k :: 0 <= k < num && k != i ==>
              srcChunks[k] == old(srcChunks[k]) && tgtChunks[k] == old(tgtChunks[k])
  {
    ghost var a, b := srcChunks[..num], tgtChunks[..num];
    var s, t := srcChunks[i], tgtChunks[i];
    assert a[i] == s && b[i] == t;
    DescribedAt(zl, tgt, b, 0, i);
    DescribedAt(zl, src, a, 0, i);
    if !t.Deflate? {
      return;
    }
    var ok, level := ReconstructDeflateChunk(zl, tgt, t);
    // A chunk that cannot be rebuilt, or that has not changed, is treated as normal.
    if !ok || tgt[t.deflateData..t.deflateData + t.deflateLen] == src[s.deflateData..s.deflateData + s.deflateLen] {
      PairFlattened(zl, src, tgt, a, b, i);
      srcChunks[i] := AsNormal(s);
      tgtChunks[i] := AsNormal(t);
      assert srcChunks[..num] == a[i := AsNormal(s)] && tgtChunks[..num] == b[i := AsNormal(t)];
    } else {
      PairLevelled(zl, src, tgt, a, b, i, t.(level := level));
      tgtChunks[i] := t.(level := level);
      assert tgtChunks[..num] == b[i := t.(level := level)] && srcChunks[..num] == a;
    }
  }

  lemma {:induction false} MergedMembers(cs: seq<Chunk>, c: Chunk)
    requires c in Merged(cs) && c.Deflate?
    ensures c in cs
    decreases |cs|
  {
    if cs != [] {
      var n := RunLength(cs);
      MergedFirst(cs, cs[n..], n);
      if c in Merged(cs[n..]) {
        MergedMembers(cs[n..], c);
      } else {
        assert c == Joined(cs[..n]) == cs[..n][0];
      }
    }
  }

  // Merging both lists keeps the pairing.
  lemma PairedMerged(zl: Zlib, src: seq<byte>, tgt: seq<byte>, a: seq<Chunk>, b: seq<Chunk>)
    requires Paired(zl, src, tgt, a, b, |b|)
    ensures Paired(zl, src, tgt, Merged(a), Merged(b), |Merged(b)|)
  {
    MergedTiles(zl, src, a, 0);
    MergedTiles(zl, tgt, b, 0);
    MergedSameKinds(zl, src, a, 0, zl, tgt, b, 0);
    if a != [] {
      MergedHead(a);
    }
    var m := Merged(b);
    forall k | 0 <= k < |m|
      ensures m[k].start + m[k].Extent() <= |tgt|
      ensures m[k].Deflate? ==> Settles(zl, tgt, m[k])
    {
      DescribedAt(zl, tgt, m, 0, k);
      if m[k].Deflate? {
        MergedMembers(b, m[k]);
      }
    }
  }

  // The second chunk of a merged image is a deflate chunk, so the bonus data is appended
  // to a buffer of its own and never to the image (imgdiff.c:958-963).
  lemma SecondIsDeflate(zl: Zlib, img: seq<byte>, cs: seq<Chunk>)
    requires Tiles(zl, img, cs, 0) && cs != [] && cs[0].Normal? && |Merged(cs)| > 1
    ensures Merged(cs)[1].Deflate?
  {
    MergedAlternates(zl, img, cs, 0, 0);
    MergedHead(cs);
  }

  // The data of a chunk that is patched.
  function DataOf(img: seq<byte>, c: Chunk): (b: seq<byte>)
    requires c.start + c.Extent() <= |img|
  {
    if c.Normal? then Covered(img, c) else c.bytes
  }

  // The plan makes the bytes the target chunk covers, if its patch can be stored.
  ghost predicate PlanFor(z: Codec, zl: Zlib, src: seq<byte>, tgt: seq<byte>, p: Plan, extra: seq<byte>, t: Chunk)
  {
    t.start + t.Extent() <= |tgt| && (|p.Tail()| < TWO63 ==> Makes(z, zl, src, p, extra, Covered(tgt, t)))
  }

  // What bsdiff wrote can be moved about.
  lemma DiffPortable(z: Codec, base: seq<byte>, t: seq<byte>, g: seq<Step>)
    requires Faithful(z) && Output(base, g, 0) == t && Readable(g) && |t| < TWO63 && |PatchFile(z, g, |t|)| < TWO63
    ensures Portable(z, base, PatchFile(z, g, |t|), t)
  {
    var patch := PatchFile(z, g, |t|);
    forall front, back
      ensures Patched(z, base, front + patch + back, |front|) == Some(t)
    {
      DiffRoundTrip(z, base, t, g, front, back);
    }
  }

  lemma ExpandChunk(zl: Zlib, src: seq<byte>, s: Chunk, extra: seq<byte>)
    requires SelfDelimiting(zl) && s.Deflate? && Describes(zl, src, s)
    ensures Expand(zl, Window(src, s.start, s.deflateLen), |s.bytes| + |extra|, extra) == Some(s.bytes + extra)
  {
    var rest := src[s.start..];
    var n := zl.inflate(rest).used;
    assert n == s.deflateLen;
    assert zl.inflate(rest[..n]) == zl.inflate(rest);
    assert Window(src, s.start, n) == rest[..n];
  }

  // Run bsdiff.
  method MakeDiff(z: Codec, base: seq<byte>, data: seq<byte>) returns (patch: seq<byte>)
    requires Faithful(z) && |base| < TWO63 && |data| < TWO63
    ensures |patch| < TWO63 ==> Portable(z, base, patch, data)
    ensures Bsdiff.PatchOf(z, base, data, patch)
  {
    var I;
    ghost var g;
    patch, I, g := Bsdiff.Bsdiff(z, base, null, data);
    if |patch| < TWO63 {
      DiffPortable(z, base, data, g);
    }
  }

  lemma DeflateMakes(z: Codec, zl: Zlib, src: seq<byte>, tgt: seq<byte>, s: Chunk, t: Chunk, extra: seq<byte>,
                     patch: seq<byte>)
    requires s.Deflate? && t.Deflate? && SelfDelimiting(zl) && |src| < TWO31 && |s.bytes| + |extra| < TWO63
             && |t.bytes| < TWO63
    requires Describes(zl, src, s) && Describes(zl, tgt, t) && Settles(zl, tgt, t)
    requires |patch| < TWO63 ==> Portable(z, s.bytes + extra, patch, t.bytes)
    ensures var p := DeflatePlan(s.start, s.deflateLen, |s.bytes| + |extra|, |t.bytes|, EncoderParams(t.level), patch);
            PlanFor(z, zl, src, tgt, p, extra, t)
  {
    ExpandChunk(zl, src, s, extra);
  }

  // How a pair of chunks is to be patched: a short normal chunk goes in raw, another one
  // unless bsdiff's patch is shorter, and a deflate chunk is patched in any case.
  ghost predicate PlanChosen(z: Codec, src: seq<byte>, tgt: seq<byte>, s: Chunk, t: Chunk, extra: seq<byte>, p: Plan)
  {
    && s.start + s.Extent() <= |src| && t.start + t.Extent() <= |tgt| && s.Normal? == t.Normal?
    && if t.Normal? && t.len <= 160 then p == RawPlan(Covered(tgt, t))
       else exists diff {:trigger Bsdiff.PatchOf(z, DataOf(src, s) + extra, DataOf(tgt, t), diff)} ::
              && Bsdiff.PatchOf(z, DataOf(src, s) + extra, DataOf(tgt, t), diff)
              && p == PlanWith(tgt, s, t, extra, diff)
  }

  function PlanWith(tgt: seq<byte>, s: Chunk, t: Chunk, extra: seq<byte>, diff: seq<byte>): (p: Plan)
    requires s.Normal? == t.Normal? && t.start + t.Extent() <= |tgt|
  {
    if t.Deflate? then
      DeflatePlan(s.start, s.deflateLen, |s.bytes| + |extra|, |t.bytes|, EncoderParams(t.level), diff)
    else if |diff| < t.len then NormalPlan(s.start, s.len, diff)
    else RawPlan(Covered(tgt, t))
  }

  // Nothing is left open.
  lemma PlanUnique(z: Codec, src: seq<byte>, tgt: seq<byte>, s: Chunk, t: Chunk, extra: seq<byte>, p: Plan, p': Plan)
    ensures PlanChosen(z, src, tgt, s, t, extra, p) && PlanChosen(z, src, tgt, s, t, extra, p') ==> p == p'
  {
    if PlanChosen(z, src, tgt, s, t, extra, p) && PlanChosen(z, src, tgt, s, t, extra, p')
       && !(t.Normal? && t.len <= 160) {
      var base, data := DataOf(src, s) + extra, DataOf(tgt, t);
      var diff :| Bsdiff.PatchOf(z, base, data, diff) && p == PlanWith(tgt, s, t, extra, diff);
      var diff' :| Bsdiff.PatchOf(z, base, data, diff') && p' == PlanWith(tgt, s, t, extra, diff');
      PatchUnique(z, base, data, diff, diff');
    }
  }

  // MakePatch (imgdiff.c:601-669), with the bonus data already appended to the source.  A
  // normal chunk goes in raw when it is short or bsdiff's patch would not be shorter.
  method MakePatch(z: Codec, zl: Zlib, src: seq<byte>, tgt: seq<byte>, s: Chunk, t: Chunk, extra: seq<byte>)
    returns (p: Plan)
    requires Faithful(z) && SelfDelimiting(zl) && |src| < TWO31 && |tgt| < TWO31 && |extra| < TWO63 / 2
    requires Describes(zl, src, s) && Describes(zl, tgt, t) && s.Normal? == t.Normal? && (s.Normal? ==> extra == [])
    requires t.Deflate? ==> Settles(zl, tgt, t)
    ensures PlanFor(z, zl, src, tgt, p, extra, t)
    ensures PlanChosen(z, src, tgt, s, t, extra, p)
  {
    if t.Normal? && t.len <= 160 {
      return RawPlan(Covered(tgt, t));
    }
    var base, data := DataOf(src, s) + extra, DataOf(tgt, t);
    SmallEnough(zl, src, s, extra);
    SmallEnough(zl, tgt, t, []);
    var patch := MakeDiff(z, base, data);
    ChosenBy(z, src, tgt, s, t, extra, patch);
    if t.Normal? {
      if t.len <= |patch| {
        return RawPlan(data);
      }
      NormalMakes(z, zl, src, tgt, s, t, patch, base, extra);
      return NormalPlan(s.start, s.len, patch);
    }
    DeflateMakes(z, zl, src, tgt, s, t, extra, patch);
    p := DeflatePlan(s.start, s.deflateLen, |s.bytes| + |extra|, |t.bytes|, EncoderParams(t.level), patch);
  }

  lemma SmallEnough(zl: Zlib, img: seq<byte>, c: Chunk, extra: seq<byte>)
    requires SelfDelimiting(zl) && Describes(zl, img, c) && |img| < TWO31 && |extra| < TWO63 / 2
    ensures |DataOf(img, c)| + |extra| < TWO63
  {
    assert c.Deflate? ==> zl.inflate(img[c.start..]).Inflated?;
  }

  lemma ChosenBy(z: Codec, src: seq<byte>, tgt: seq<byte>, s: Chunk, t: Chunk, extra: seq<byte>, diff: seq<byte>)
    requires s.start + s.Extent() <= |src| && t.start + t.Extent() <= |tgt| && s.Normal? == t.Normal?
    requires !(t.Normal? && t.len <= 160) && Bsdiff.PatchOf(z, DataOf(src, s) + extra, DataOf(tgt, t), diff)
    ensures PlanChosen(z, src, tgt, s, t, extra, PlanWith(tgt, s, t, extra, diff))
  {
  }

  lemma NormalMakes(z: Codec, zl: Zlib, src: seq<byte>, tgt: seq<byte>, s: Chunk, t: Chunk, patch: seq<byte>,
                    base: seq<byte>, extra: seq<byte>)
    requires s.Normal? && s.start + s.len <= |src| < TWO31 && extra == [] && base == Covered(src, s) + extra
    requires t.Normal? && t.start + t.len <= |tgt| && (|patch| < TWO63 ==> Portable(z, base, patch, Covered(tgt, t)))
    ensures PlanFor(z, zl, src, tgt, NormalPlan(s.start, s.len, patch), extra, t)
  {
    assert base == Window(src, s.start, s.len);
  }

  // The pieces of the image its chunks cover, in order, are the image.
  function Pieces(img: seq<byte>, cs: seq<Chunk>): (ts: seq<seq<byte>>)
    requires forall k :: 0 <= k < |cs| ==> cs[k].start + cs[k].Extent() <= |img|
    ensures |ts| == |cs| && forall k :: 0 <= k < |cs| ==> ts[k] == Covered(img, cs[k])
  {
    seq(|cs|, k requires 0 <= k < |cs| => Covered(img, cs[k]))
  }

  lemma {:induction false} PiecesCover(zl: Zlib, img: seq<byte>, cs: seq<Chunk>, pos: nat)
    requires pos <= |img| && Tiles(zl, img, cs, pos)
    requires forall k :: 0 <= k < |cs| ==> cs[k].start + cs[k].Extent() <= |img|
    ensures Concat(Pieces(img, cs)) == img[pos..]
    decreases |cs|
  {
    if cs != [] {
      PiecesCover(zl, img, cs[1..], pos + cs[0].Extent());
      assert Pieces(img, cs)[1..] == Pieces(img, cs[1..]);
    }
  }

  // The plans for the first chunks.
  ghost predicate PlansFor(z: Codec, zl: Zlib, src: seq<byte>, tgt: seq<byte>, ps: seq<Plan>, bonus: Option<seq<byte>>,
                           b: seq<Chunk>)
  {
    |ps| <= |b| && forall k :: 0 <= k < |ps| ==> PlanFor(z, zl, src, tgt, ps[k], Extra(bonus, k), b[k])
  }

  // They are as chosen for the pairs of chunks.
  ghost predicate PlansChosen(z: Codec, src: seq<byte>, tgt: seq<byte>, a: seq<Chunk>, b: seq<Chunk>,
                              bonus: Option<seq<byte>>, ps: seq<Plan>)
    decreases |ps|
  {
    && |ps| <= |a| == |b|
    && (ps != [] ==>
          var k := |ps| - 1;
          && PlansChosen(z, src, tgt, a, b, bonus, ps[..k])
          && PlanChosen(z, src, tgt, a[k], b[k], Extra(bonus, k), ps[k]))
  }

  // The loop that makes the patches (imgdiff.c:949-971).
  method MakePatches(z: Codec, zl: Zlib, src: seq<byte>, tgt: seq<byte>, srcChunks: array<Chunk>,
                     tgtChunks: array<Chunk>, num: nat,
                     bonus: Option<seq<byte>>) returns (ps: seq<Plan>)
    requires Faithful(z) && SelfDelimiting(zl) && |src| < TWO31 && |tgt| < TWO31
    requires bonus.Some? ==> |bonus.value| < TWO63 / 2
    requires num <= srcChunks.Length && num <= tgtChunks.Length && (num > 1 ==> srcChunks[1].Deflate?)
    requires Paired(zl, src, tgt, srcChunks[..num], tgtChunks[..num], num)
    ensures |ps| == num && PlansFor(z, zl, src, tgt, ps, bonus, tgtChunks[..num])
    ensures PlansChosen(z, src, tgt, srcChunks[..num], tgtChunks[..num], bonus, ps)
  {
    ps := [];
    var i := 0;
    ghost var a, b := srcChunks[..num], tgtChunks[..num];
    while i < num
      invariant 0 <= i <= num && |ps| == i && PlansFor(z, zl, src, tgt, ps, bonus, b)
      invariant PlansChosen(z, src, tgt, a, b, bonus, ps)
    {
      PairAt(zl, src, tgt, a, b, i);
      var s, t := srcChunks[i], tgtChunks[i];
      assert s == a[i] && t == b[i];
      assert i == 1 ==> s.Deflate?;
      var p := MakePatch(z, zl, src, tgt, s, t, Extra(bonus, i));
      PlansMore(z, zl, src, tgt, ps, bonus, b, p);
      ChosenMore(z, src, tgt, a, b, bonus, ps, p);
      ps := ps + [p];
      i := i + 1;
    }
  }

  lemma PairAt(zl: Zlib, src: seq<byte>, tgt: seq<byte>, a: seq<Chunk>, b: seq<Chunk>, i: nat)
    requires Paired(zl, src, tgt, a, b, |b|) && i < |a|
    ensures Describes(zl, src, a[i]) && Describes(zl, tgt, b[i]) && a[i].Normal? == b[i].Normal?
    ensures b[i].Deflate? ==> Settles(zl, tgt, b[i])
    ensures i == 0 ==> a[i].Normal?
  {
    DescribedAt(zl, src, a, 0, i);
    DescribedAt(zl, tgt, b, 0, i);
  }

  lemma PlansMore(z: Codec, zl: Zlib, src: seq<byte>, tgt: seq<byte>, ps: seq<Plan>, bonus: Option<seq<byte>>,
                  b: seq<Chunk>, p: Plan)
    requires PlansFor(z, zl, src, tgt, ps, bonus, b) && |ps| < |b|
    requires PlanFor(z, zl, src, tgt, p, Extra(bonus, |ps|), b[|ps|])
    ensures PlansFor(z, zl, src, tgt, ps + [p], bonus, b)
  {
  }

  lemma ChosenMore(z: Codec, src: seq<byte>, tgt: seq<byte>, a: seq<Chunk>, b: seq<Chunk>, bonus: Option<seq<byte>>,
                   ps: seq<Plan>, p: Plan)
    requires PlansChosen(z, src, tgt, a, b, bonus, ps) && |ps| < |b|
    requires PlanChosen(z, src, tgt, a[|ps|], b[|ps|], Extra(bonus, |ps|), p)
    ensures PlansChosen(z, src, tgt, a, b, bonus, ps + [p])
  {
    assert (ps + [p])[..|ps|] == ps;
  }

  // The size of the header (imgdiff.c:977-991).
  method TotalHeaderSize(ps: seq<Plan>) returns (size: nat)
    ensures size == HeaderSize(ps)
  {
    size := 12;
    var i := 0;
    while i < |ps|
      invariant 0 <= i <= |ps| && size + RecordSizes(ps[i..]) == HeaderSize(ps)
    {
      assert ps[i..][1..] == ps[i + 1..];
      size := size + 4;
      match ps[i] {
        case NormalPlan(_, _, _) => size := size + 8 * 3;
        case DeflatePlan(_, _, _, _, _, _) => size := size + 8 * 5 + 4 * 5;
        case RawPlan(bytes) => size := size + 4 + |bytes|;
      }
      i := i + 1;
    }
  }

  // Write the record of chunk i.
  method WriteRecord(f: seq<byte>, ps: seq<Plan>, i: nat, offset: nat) returns (f': seq<byte>, offset': nat)
    requires i < |ps|
    ensures f' == f + Record(ps[i], offset) && offset' == offset + |ps[i].Tail()|
    ensures f' + Records(ps[i + 1..], offset') == f + Records(ps[i..], offset)
  {
    RecordsNext(f, ps, i, offset);
    f' := f + Record(ps[i], offset);
    offset' := offset + |ps[i].Tail()|;
  }

  // Write the headers (imgdiff.c:997-1037).
  method WriteRecords(start: seq<byte>, ps: seq<Plan>, size: nat) returns (f: seq<byte>)
    ensures f == start + Records(ps, size)
  {
    f := start;
    var offset: nat, i: nat := size, 0;
    while i < |ps|
      invariant i <= |ps| && f + Records(ps[i..], offset) == start + Records(ps, size)
    {
      f, offset := WriteRecord(f, ps, i, offset);
      i := i + 1;
    }
    assert f + [] == f;
  }

  lemma RecordsNext(f: seq<byte>, ps: seq<Plan>, i: nat, offset: nat)
    requires i < |ps|
    ensures (f + Record(ps[i], offset)) + Records(ps[i + 1..], offset + |ps[i].Tail()|) == f + Records(ps[i..], offset)
  {
    assert ps[i..][1..] == ps[i + 1..];
    Associative(f, Record(ps[i], offset), Records(ps[i + 1..], offset + |ps[i].Tail()|));
  }

  // Append the patches (imgdiff.c:1039-1046).
  method WriteTails(start: seq<byte>, ps: seq<Plan>) returns (f: seq<byte>)
    ensures f == start + Tails(ps)
  {
    f := start;
    var i: nat := 0;
    while i < |ps|
      invariant i <= |ps| && f + Tails(ps[i..]) == start + Tails(ps)
    {
      assert ps[i..][1..] == ps[i + 1..];
      Associative(f, ps[i].Tail(), Tails(ps[i + 1..]));
      assert f + [] == f;
      if !ps[i].RawPlan? {
        f := f + ps[i].patch;
      }
      i := i + 1;
    }
    assert f + [] == f;
  }

  method WriteFile(ps: seq<Plan>) returns (f: seq<byte>)
    ensures f == ImgFile(ps)
  {
    var size := TotalHeaderSize(ps);
    f := WriteRecords(IMG_MAGIC + Write4(|ps|), ps, size);
    f := WriteTails(f, ps);
  }

  // The loop over the pairs (imgdiff.c:879-920).
  method PreparePairs(zl: Zlib, src: seq<byte>, tgt: seq<byte>, srcChunks: array<Chunk>, tgtChunks: array<Chunk>,
                      num: nat)
    requires srcChunks != tgtChunks && num <= srcChunks.Length && num <= tgtChunks.Length
    requires Paired(zl, src, tgt, srcChunks[..num], tgtChunks[..num], 0)
    modifies srcChunks, tgtChunks
    ensures Paired(zl, src, tgt, srcChunks[..num], tgtChunks[..num], num)
    ensures AllPrepared(zl, src, tgt, old(srcChunks[..num]), old(tgtChunks[..num]), srcChunks[..num], tgtChunks[..num])
  {
    var i := 0;
    while i < num
      invariant 0 <= i <= num && Paired(zl, src, tgt, srcChunks[..num], tgtChunks[..num], i)
      invariant forall k :: 0 <= k < i ==>
                  Prepares(zl, src, tgt, old(srcChunks[k]), old(tgtChunks[k]), srcChunks[k], tgtChunks[k])
      invariant forall k :: i <= k < num ==> srcChunks[k] == old(srcChunks[k]) && tgtChunks[k] == old(tgtChunks[k])
    {
      PreparePair(zl, src, tgt, srcChunks, tgtChunks, num, i);
      i := i + 1;
    }
  }

  // Merge both lists again.  They stay parallel, so the counts never differ
  // (imgdiff.c:922-940).
  method MergePairs(zl: Zlib, src: seq<byte>, tgt: seq<byte>, srcChunks: array<Chunk>, tgtChunks: array<Chunk>,
                    num: nat) returns (num': nat)
    requires srcChunks != tgtChunks && num <= srcChunks.Length && num <= tgtChunks.Length
    requires Paired(zl, src, tgt, srcChunks[..num], tgtChunks[..num], num)
    modifies srcChunks, tgtChunks
    ensures num' <= num && Paired(zl, src, tgt, srcChunks[..num'], tgtChunks[..num'], num')
    ensures srcChunks[..num'] == Merged(old(srcChunks[..num])) && tgtChunks[..num'] == Merged(old(tgtChunks[..num]))
    ensures num' > 1 ==> srcChunks[1].Deflate?
  {
    ghost var a, b := srcChunks[..num], tgtChunks[..num];
    PairedMerged(zl, src, tgt, a, b);
    if a != [] && |Merged(a)| > 1 {
      SecondIsDeflate(zl, src, a);
    }
    var numTgt := MergeAdjacentNormalChunks(tgtChunks, num);
    num' := MergeAdjacentNormalChunks(srcChunks, num);
    assert srcChunks[..num'] == Merged(a) && tgtChunks[..numTgt] == Merged(b);
    assert num' == numTgt;
    assert num' > 1 ==> srcChunks[..num'][1] == srcChunks[1];
  }

  // Plans for all chunks make the whole target.
  lemma PlansMakeTarget(z: Codec, zl: Zlib, src: seq<byte>, tgt: seq<byte>, ps: seq<Plan>, bonus: Option<seq<byte>>,
                        b: seq<Chunk>)
    requires PlansFor(z, zl, src, tgt, ps, bonus, b) && |ps| == |b| < TWO31 && Tiles(zl, tgt, b, 0)
             && |ImgFile(ps)| < TWO63
    ensures Apply(z, zl, src, ImgFile(ps), bonus) == Applied(0, tgt)
  {
    forall k | 0 <= k < |b|
      ensures b[k].start + b[k].Extent() <= |tgt|
    {
      DescribedAt(zl, tgt, b, 0, k);
    }
    var ts := Pieces(tgt, b);
    forall k | 0 <= k < |ps|
      ensures Makes(z, zl, src, ps[k], Extra(bonus, 0 + k), ts[k])
    {
      OffsetPoints(ps, k);
      assert PlanFor(z, zl, src, tgt, ps[k], Extra(bonus, k), b[k]);
    }
    ImgRoundTrip(z, zl, src, ps, bonus, ts);
    PiecesCover(zl, tgt, b, 0);
  }

  // Each pair of chunks is prepared for itself.
  ghost predicate AllPrepared(zl: Zlib, src: seq<byte>, tgt: seq<byte>, a: seq<Chunk>, b: seq<Chunk>,
                              a': seq<Chunk>, b': seq<Chunk>)
  {
    && |a| == |b| == |a'| == |b'|
    && forall k :: 0 <= k < |a| ==> Prepares(zl, src, tgt, a[k], b[k], a'[k], b'[k])
  }

  // The plans for two lists of chunks: prepared, merged, and then pair by pair as chosen.
  ghost predicate PlannedFor(z: Codec, zl: Zlib, src: seq<byte>, tgt: seq<byte>, a: seq<Chunk>, b: seq<Chunk>,
                             bonus: Option<seq<byte>>, ps: seq<Plan>)
  {
    exists a', b' {:trigger AllPrepared(zl, src, tgt, a, b, a', b')} ::
      && AllPrepared(zl, src, tgt, a, b, a', b') && |ps| == |Merged(b')|
      && PlansChosen(z, src, tgt, Merged(a'), Merged(b'), bonus, ps)
  }

  lemma PlannedBy(z: Codec, zl: Zlib, src: seq<byte>, tgt: seq<byte>, a: seq<Chunk>, b: seq<Chunk>,
                  a': seq<Chunk>, b': seq<Chunk>, bonus: Option<seq<byte>>, ps: seq<Plan>)
    requires AllPrepared(zl, src, tgt, a, b, a', b') && |ps| == |Merged(b')|
    requires PlansChosen(z, src, tgt, Merged(a'), Merged(b'), bonus, ps)
    ensures PlannedFor(z, zl, src, tgt, a, b, bonus, ps)
  {
  }

  // The two lists of chunks decide the plans.
  lemma PlannedUnique(z: Codec, zl: Zlib, src: seq<byte>, tgt: seq<byte>, a: seq<Chunk>, b: seq<Chunk>,
                      bonus: Option<seq<byte>>, ps: seq<Plan>, qs: seq<Plan>)
    requires PlannedFor(z, zl, src, tgt, a, b, bonus, ps) && PlannedFor(z, zl, src, tgt, a, b, bonus, qs)
    ensures ps == qs
  {
    var a', b' :| AllPrepared(zl, src, tgt, a, b, a', b') && |ps| == |Merged(b')|
                  && PlansChosen(z, src, tgt, Merged(a'), Merged(b'), bonus, ps);
    var a'', b'' :| AllPrepared(zl, src, tgt, a, b, a'', b'') && |qs| == |Merged(b'')|
                    && PlansChosen(z, src, tgt, Merged(a''), Merged(b''), bonus, qs);
    PreparedUnique(zl, src, tgt, a, b, a', b', a'', b'');
    PlansUnique(z, src, tgt, Merged(a'), Merged(b'), bonus, ps, qs);
  }

  lemma {:induction false} PlansUnique(z: Codec, src: seq<byte>, tgt: seq<byte>, a: seq<Chunk>, b: seq<Chunk>,
                                       bonus: Option<seq<byte>>, ps: seq<Plan>, qs: seq<Plan>)
    requires PlansChosen(z, src, tgt, a, b, bonus, ps) && PlansChosen(z, src, tgt, a, b, bonus, qs) && |ps| == |qs|
    ensures ps == qs
    decreases |ps|
  {
    if ps != [] {
      var k := |ps| - 1;
      PlansUnique(z, src, tgt, a, b, bonus, ps[..k], qs[..k]);
      PlanUnique(z, src, tgt, a[k], b[k], Extra(bonus, k), ps[k], qs[k]);
      SameLast(ps, qs, k);
    }
  }

  lemma SameLast(ps: seq<Plan>, qs: seq<Plan>, k: nat)
    requires |ps| == |qs| == k + 1 && ps[..k] == qs[..k] && ps[k] == qs[k]
    ensures ps == qs
  {
    assert ps == ps[..k] + [ps[k]] && qs == qs[..k] + [qs[k]];
  }

  lemma PreparedUnique(zl: Zlib, src: seq<byte>, tgt: seq<byte>, a: seq<Chunk>, b: seq<Chunk>,
                       a': seq<Chunk>, b': seq<Chunk>, a'': seq<Chunk>, b'': seq<Chunk>)
    requires AllPrepared(zl, src, tgt, a, b, a', b') && AllPrepared(zl, src, tgt, a, b, a'', b'')
    ensures a' == a'' && b' == b''
  {
    forall k | 0 <= k < |a|
      ensures a'[k] == a''[k] && b'[k] == b''[k]
    {
      assert Prepares(zl, src, tgt, a[k], b[k], a'[k], b'[k]) && Prepares(zl, src, tgt, a[k], b[k], a''[k], b''[k]);
    }
  }

  // From two lists of the same structure to the plans (imgdiff.c:879-971).
  method PatchPairs(z: Codec, zl: Zlib, src: seq<byte>, tgt: seq<byte>, srcChunks: array<Chunk>,
                    tgtChunks: array<Chunk>, num: nat,
                    bonus: Option<seq<byte>>) returns (ps: seq<Plan>)
    requires Faithful(z) && SelfDelimiting(zl) && |src| < TWO31 && |tgt| < TWO31
    requires bonus.Some? ==> |bonus.value| < TWO63 / 2
    requires srcChunks != tgtChunks && num <= srcChunks.Length && num <= tgtChunks.Length && num < TWO31
    requires Paired(zl, src, tgt, srcChunks[..num], tgtChunks[..num], 0)
    modifies srcChunks, tgtChunks
    ensures |ImgFile(ps)| < TWO63 ==> Apply(z, zl, src, ImgFile(ps), bonus) == Applied(0, tgt)
    ensures PlannedFor(z, zl, src, tgt, old(srcChunks[..num]), old(tgtChunks[..num]), bonus, ps)
  {
    ghost var a, b := srcChunks[..num], tgtChunks[..num];
    PreparePairs(zl, src, tgt, srcChunks, tgtChunks, num);
    ghost var a', b' := srcChunks[..num], tgtChunks[..num];
    var n := MergePairs(zl, src, tgt, srcChunks, tgtChunks, num);
    ps := MakePatches(z, zl, src, tgt, srcChunks, tgtChunks, n, bonus);
    PlannedBy(z, zl, src, tgt, a, b, a', b', bonus, ps);
    if |ImgFile(ps)| < TWO63 {
      PlansMakeTarget(z, zl, src, tgt, ps, bonus, tgtChunks[..n]);
    }
  }

  // Lists that tile their images and have the same structure are paired.
  lemma PairedAtFirst(zl: Zlib, src: seq<byte>, tgt: seq<byte>, a: seq<Chunk>, b: seq<Chunk>)
    requires Tiles(zl, src, a, 0) && Tiles(zl, tgt, b, 0) && SameKinds(a, b) && (a != [] ==> a[0].Normal?)
    ensures Paired(zl, src, tgt, a, b, 0)
  {
    forall k | 0 <= k < |b|
      ensures b[k].start + b[k].Extent() <= |tgt|
    {
      DescribedAt(zl, tgt, b, 0, k);
    }
  }

  // What becomes of an attempt.
  datatype Diffed =
    | Written(file: seq<byte>)
    | DifferentStructure // exit status 1
    | Unreadable(why: Reading)

  // The chunks of an image, with its normal chunks merged.
  function Structure(zl: Zlib, img: seq<byte>): (r: Reading)
  {
    match Split(zl, img, 0)
    case Chunks(cs) => Chunks(Merged(cs))
    case other => other
  }

  lemma StructureTiles(zl: Zlib, img: seq<byte>)
    requires SelfDelimiting(zl) && Structure(zl, img).Chunks?
    ensures var cs := Structure(zl, img).cs;
            Tiles(zl, img, cs, 0) && |cs| <= |img| && (cs != [] ==> cs[0].Normal?)
  {
    var cs := Split(zl, img, 0).cs;
    SplitTiles(zl, img, 0);
    MergedTiles(zl, img, cs, 0);
    if cs != [] {
      MergedHead(cs);
      FirstIsNormal(zl, img);
    }
  }

  lemma FirstIsNormal(zl: Zlib, img: seq<byte>)
    requires Split(zl, img, 0).Chunks? && Split(zl, img, 0).cs != []
    ensures Split(zl, img, 0).cs[0].Normal?
  {
  }

  // Read an image and merge its chunks (imgdiff.c:839-856).
  method ReadAndMerge(zl: Zlib, img: seq<byte>) returns (r: Reading, chunks: array<Chunk>, num: nat)
    ensures r == Split(zl, img, 0) && fresh(chunks) && num <= chunks.Length
    ensures r.Chunks? ==> Structure(zl, img) == Chunks(chunks[..num])
  {
    r := ReadImage(zl, img);
    if !r.Chunks? {
      chunks, num := new Chunk[0], 0;
      return;
    }
    chunks := new Chunk[|r.cs|](i requires 0 <= i < |r.cs| => r.cs[i]);
    assert chunks[..|r.cs|] == r.cs;
    num := MergeAdjacentNormalChunks(chunks, |r.cs|);
  }

  // Whether the chunk lists have the same structure (imgdiff.c:858-877).
  method SameStructure(a: array<Chunk>, numA: nat, b: array<Chunk>, numB: nat) returns (same: bool)
    requires numA <= a.Length && numB <= b.Length
    ensures same <==> SameKinds(a[..numA], b[..numB])
  {
    if numA != numB {
      return false;
    }
    var i := 0;
    while i < numA
      invariant 0 <= i <= numA && forall k :: 0 <= k < i ==> a[k].Normal? == b[k].Normal?
    {
      if a[i].Normal? != b[i].Normal? {
        assert a[..numA][i] == a[i] && b[..numB][i] == b[i];
        return false;
      }
      i := i + 1;
    }
    return true;
  }

  // imgdiff in image mode.  It writes a patch exactly when both images can be read and have
  // the same structure, and the patch turns the source into the target.
  method DiffImages(z: Codec, zl: Zlib, src: seq<byte>, tgt: seq<byte>, bonus: Option<seq<byte>>) returns (r: Diffed)
    requires Faithful(z) && SelfDelimiting(zl) && |src| < TWO31 && |tgt| < TWO31
    requires bonus.Some? ==> |bonus.value| < TWO63 / 2
    ensures var a, b := Structure(zl, src), Structure(zl, tgt);
            match r
            case Unreadable(why) => !why.Chunks? && why == if a.Chunks? then b else a
            case DifferentStructure => a.Chunks? && b.Chunks? && !SameKinds(a.cs, b.cs)
            case Written(file) =>
              && a.Chunks? && b.Chunks? && SameKinds(a.cs, b.cs)
              && (|file| < TWO63 ==> Apply(z, zl, src, file, bonus) == Applied(0, tgt))
              && ImageDiffOf(z, zl, src, tgt, a.cs, b.cs, bonus, file)
  {
    var sr, srcChunks, numSrc := ReadAndMerge(zl, src);
    if !sr.Chunks? {
      return Unreadable(sr);
    }
    var tr, tgtChunks, numTgt := ReadAndMerge(zl, tgt);
    if !tr.Chunks? {
      return Unreadable(tr);
    }
    var same := SameStructure(srcChunks, numSrc, tgtChunks, numTgt);
    if !same {
      return DifferentStructure;
    }
    StructureTiles(zl, src);
    StructureTiles(zl, tgt);
    PairedAtFirst(zl, src, tgt, srcChunks[..numSrc], tgtChunks[..numSrc]);
    var ps := PatchPairs(z, zl, src, tgt, srcChunks, tgtChunks, numSrc, bonus);
    var file := WriteFile(ps);
    r := Written(file);
  }

  // The file written for two lists of chunks.
  ghost predicate ImageDiffOf(z: Codec, zl: Zlib, src: seq<byte>, tgt: seq<byte>, a: seq<Chunk>, b: seq<Chunk>,
                              bonus: Option<seq<byte>>, file: seq<byte>)
  {
    exists ps :: PlannedFor(z, zl, src, tgt, a, b, bonus, ps) && file == ImgFile(ps)
  }

  // The two images and the bonus decide the file.
  lemma ImageDiffUnique(z: Codec, zl: Zlib, src: seq<byte>, tgt: seq<byte>, a: seq<Chunk>, b: seq<Chunk>,
                        bonus: Option<seq<byte>>, file: seq<byte>, file': seq<byte>)
    requires ImageDiffOf(z, zl, src, tgt, a, b, bonus, file) && ImageDiffOf(z, zl, src, tgt, a, b, bonus, file')
    ensures file == file'
  {
    var ps :| PlannedFor(z, zl, src, tgt, a, b, bonus, ps) && file == ImgFile(ps);
    var qs :| PlannedFor(z, zl, src, tgt, a, b, bonus, qs) && file' == ImgFile(qs);
    PlannedUnique(z, zl, src, tgt, a, b, bonus, ps, qs);
  }
}
