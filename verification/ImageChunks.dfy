// Splitting an image into normal and deflate chunks (imgdiff.c:367-519).
module ImageChunks {
  import opened Bytes
  import opened Endian

  datatype DeflateParams = DeflateParams(level: int, method_: int, windowBits: int, memLevel: int, strategy: int)

  // What a raw inflate makes of its input: the output and how many input bytes it used,
  // or a stream that is not a deflate stream.
  datatype Inflated = Inflated(out: seq<byte>, used: nat) | NotDeflate

  datatype Zlib = Zlib(inflate: seq<byte> -> Inflated, deflate: (DeflateParams, seq<byte>) -> seq<byte>)

  // A deflate stream marks its own end, so the bytes it used inflate to the same output.
  ghost predicate SelfDelimiting(zl: Zlib)
  {
    forall x {:trigger zl.inflate(x)} :: zl.inflate(x).Inflated? ==>
      && zl.inflate(x).used <= |x| && |zl.inflate(x).out| < TWO63 / 2
      && zl.inflate(x[..zl.inflate(x).used]) == zl.inflate(x)
  }

  // A chunk of an image.  data and deflateData are offsets into the image; the bytes of a
  // deflate chunk are what it inflates to.
  datatype Chunk =
    | Normal(start: nat, len: nat, data: nat)
    | Deflate(start: nat, bytes: seq<byte>, deflateLen: nat, deflateData: nat, level: int)
  {
    // How much of the image the chunk covers.
    function Extent(): nat {
      if Normal? then len else deflateLen
    }
  }

  const GZIP_HEADER_LEN := 10
  const GZIP_FOOTER_LEN := 8

  // The chunk describes the bytes of img it covers.
  ghost predicate Describes(zl: Zlib, img: seq<byte>, c: Chunk)
  {
    && c.start + c.Extent() <= |img|
    && match c
       case Normal(start, len, data) => data == start
       case Deflate(start, bytes, n, data, _) => data == start && zl.inflate(img[start..]) == Inflated(bytes, n)
  }

  // The chunks cover img from pos to its end, one after the other.
  ghost predicate Tiles(zl: Zlib, img: seq<byte>, cs: seq<Chunk>, pos: nat)
  {
    if cs == [] then pos == |img|
    else cs[0].start == pos && Describes(zl, img, cs[0]) && Tiles(zl, img, cs[1..], pos + cs[0].Extent())
  }

  // What reading an image comes to.  Where the program would loop forever or leave its
  // buffer, the outcome says so.
  datatype Reading =
    | Chunks(cs: seq<Chunk>)
    | SizeMismatch // the gzip footer gives another size
    | NoProgress // 1f 8b 08 are the last bytes
    | BadStream // a gzip header is not followed by a deflate stream
    | Overrun // a gzip header or footer does not fit

  // The image followed by the four zero bytes ReadImage appends.
  function Padded(img: seq<byte>): (p: seq<byte>)
  {
    img + [0, 0, 0, 0]
  }

  // A gzip header without optional fields starts at k.
  predicate GzipAt(img: seq<byte>, k: nat)
  {
    k <= |img| && Padded(img)[k..k + 4] == [0x1f, 0x8b, 0x08, 0x00]
  }

  // The first gzip header at or after k, or the end.
  function NextGzip(img: seq<byte>, k: nat): (n: nat)
    requires k <= |img|
    ensures k <= n <= |img|
    ensures n < |img| ==> GzipAt(img, n)
    ensures forall j :: k <= j < n ==> !GzipAt(img, j)
    decreases |img| - k
  {
    if k == |img| || GzipAt(img, k) then k else NextGzip(img, k + 1)
  }

  // The chunks of img from pos on.
  function Split(zl: Zlib, img: seq<byte>, pos: nat): (r: Reading)
    requires pos <= |img|
    decreases |img| - pos
  {
    if pos == |img| then
      Chunks([])
    else if 4 <= |img| - pos && GzipAt(img, pos) then
      SplitGzip(zl, img, pos)
    else
      var n := NextGzip(img, pos);
      if n == pos then NoProgress
      else Then([Normal(pos, n - pos, pos)], Split(zl, img, n))
  }

  function SplitGzip(zl: Zlib, img: seq<byte>, pos: nat): (r: Reading)
    requires pos <= |img|
    decreases |img| - pos, 0
  {
    var body := pos + GZIP_HEADER_LEN;
    if |img| < body then Overrun
    else match zl.inflate(img[body..])
      case NotDeflate => BadStream
      case Inflated(out, used) =>
        var foot := body + used;
        var next := foot + GZIP_FOOTER_LEN;
        if |img| < next then Overrun
        else if Read4(img[next - 4..next]) != |out| then SizeMismatch
        else Then([Normal(pos, GZIP_HEADER_LEN, pos), Deflate(body, out, used, body, 0),
                   Normal(foot, GZIP_FOOTER_LEN, foot)],
                  Split(zl, img, next))
  }

  function Then(front: seq<Chunk>, r: Reading): (q: Reading)
  {
    if r.Chunks? then Chunks(front + r.cs) else r
  }

  lemma TilesCons(zl: Zlib, img: seq<byte>, c: Chunk, rest: seq<Chunk>, pos: nat)
    requires c.start == pos && Describes(zl, img, c) && Tiles(zl, img, rest, pos + c.Extent())
    ensures Tiles(zl, img, [c] + rest, pos)
  {
    assert ([c] + rest)[1..] == rest;
  }

  lemma TilesThree(zl: Zlib, img: seq<byte>, a: Chunk, b: Chunk, c: Chunk, rest: seq<Chunk>)
    requires Describes(zl, img, a) && Describes(zl, img, b) && Describes(zl, img, c)
    requires b.start == a.start + a.Extent() && c.start == b.start + b.Extent()
    requires Tiles(zl, img, rest, c.start + c.Extent())
    ensures Tiles(zl, img, [a, b, c] + rest, a.start)
  {
    TilesCons(zl, img, c, rest, c.start);
    TilesCons(zl, img, b, [c] + rest, b.start);
    TilesCons(zl, img, a, [b] + ([c] + rest), a.start);
    ConsThree(a, b, c, rest);
  }

  lemma ConsThree(a: Chunk, b: Chunk, c: Chunk, rest: seq<Chunk>)
    ensures [a, b, c] + rest == [a] + ([b] + ([c] + rest))
  {
  }

  lemma GzipTiles(zl: Zlib, img: seq<byte>, pos: nat)
    requires pos <= |img| && SplitGzip(zl, img, pos).Chunks?
    requires var next := pos + GZIP_HEADER_LEN + zl.inflate(img[pos + GZIP_HEADER_LEN..]).used + GZIP_FOOTER_LEN;
             Tiles(zl, img, Split(zl, img, next).cs, next)
    ensures Tiles(zl, img, SplitGzip(zl, img, pos).cs, pos)
  {
    var body := pos + GZIP_HEADER_LEN;
    var z := zl.inflate(img[body..]);
    var foot := body + z.used;
    TilesThree(zl, img, Normal(pos, GZIP_HEADER_LEN, pos), Deflate(body, z.out, z.used, body, 0),
               Normal(foot, GZIP_FOOTER_LEN, foot), Split(zl, img, foot + GZIP_FOOTER_LEN).cs);
  }

  // Every image that can be read is tiled by its chunks, of which there are no more than
  // bytes.
  lemma {:induction false} SplitTiles(zl: Zlib, img: seq<byte>, pos: nat)
    requires pos <= |img| && Split(zl, img, pos).Chunks?
    ensures Tiles(zl, img, Split(zl, img, pos).cs, pos)
    ensures |Split(zl, img, pos).cs| <= |img| - pos
    decreases |img| - pos
  {
    if pos == |img| {
    } else if 4 <= |img| - pos && GzipAt(img, pos) {
      var body := pos + GZIP_HEADER_LEN;
      SplitTiles(zl, img, body + zl.inflate(img[body..]).used + GZIP_FOOTER_LEN);
      GzipTiles(zl, img, pos);
    } else {
      var n := NextGzip(img, pos);
      SplitTiles(zl, img, n);
      TilesCons(zl, img, Normal(pos, n - pos, pos), Split(zl, img, n).cs, pos);
    }
  }

  // The image ends in the first three bytes of a gzip header.
  predicate EndsInStub(img: seq<byte>)
  {
    3 <= |img| && img[|img| - 3..] == [0x1f, 0x8b, 0x08]
  }

  lemma StubAt(img: seq<byte>, k: nat)
    requires k < |img| && |img| < k + 4 && GzipAt(img, k)
    ensures EndsInStub(img) && k == |img| - 3
  {
    var w := Padded(img)[k..k + 4];
    assert w[0] == 0x1f && w[1] == 0x8b && w[2] == 0x08;
    assert Padded(img)[k + 2] == 0x08;
    assert img[k] == w[0] && img[k + 1] == w[1] && img[k + 2] == w[2];
  }

  // Reading stalls only on an image that ends in 1f 8b 08.
  lemma {:induction false} NoProgressEnd(zl: Zlib, img: seq<byte>, pos: nat)
    requires pos <= |img| && Split(zl, img, pos).NoProgress?
    ensures EndsInStub(img)
    decreases |img| - pos
  {
    if 4 <= |img| - pos && GzipAt(img, pos) {
      var body := pos + GZIP_HEADER_LEN;
      NoProgressEnd(zl, img, body + zl.inflate(img[body..]).used + GZIP_FOOTER_LEN);
    } else if GzipAt(img, pos) {
      StubAt(img, pos);
    } else {
      NoProgressEnd(zl, img, NextGzip(img, pos));
    }
  }

  // A whole gzip member starts at g: header, deflate stream, and a footer with the right size.
  predicate MemberAt(zl: Zlib, img: seq<byte>, g: nat)
  {
    var body := g + GZIP_HEADER_LEN;
    && body <= |img| && zl.inflate(img[body..]).Inflated?
    && var z := zl.inflate(img[body..]);
       && body + z.used + GZIP_FOOTER_LEN <= |img|
       && Read4(img[body + z.used + GZIP_FOOTER_LEN - 4..body + z.used + GZIP_FOOTER_LEN]) == |z.out|
  }

  function MemberEnd(zl: Zlib, img: seq<byte>, g: nat): (e: nat)
    requires MemberAt(zl, img, g)
    ensures g < e <= |img|
  {
    g + GZIP_HEADER_LEN + zl.inflate(img[g + GZIP_HEADER_LEN..]).used + GZIP_FOOTER_LEN
  }

  // Of the gzip members from pos on, those that start before k are whole, and none of them
  // covers k.
  predicate Uncovered(zl: Zlib, img: seq<byte>, pos: nat, k: int)
    requires pos <= |img|
    decreases |img| - pos
  {
    var g := NextGzip(img, pos);
    if k <= g then pos <= k
    else MemberAt(zl, img, g) && Uncovered(zl, img, MemberEnd(zl, img, g), k)
  }

  lemma StubFound(img: seq<byte>, pos: nat)
    requires EndsInStub(img) && pos <= |img| - 3
    ensures NextGzip(img, pos) <= |img| - 3
  {
    var k := |img| - 3;
    assert Padded(img)[k..k + 4] == img[k..] + [0];
    assert GzipAt(img, k);
  }

  // It stalls exactly when those bytes are there and no gzip member covers them.
  lemma {:induction false} NoProgressIff(zl: Zlib, img: seq<byte>, pos: nat)
    requires pos <= |img|
    ensures Split(zl, img, pos).NoProgress? <==> EndsInStub(img) && Uncovered(zl, img, pos, |img| - 3)
    decreases |img| - pos
  {
    var k := |img| - 3;
    if !EndsInStub(img) {
      if Split(zl, img, pos).NoProgress? {
        NoProgressEnd(zl, img, pos);
      }
    } else if 4 <= |img| - pos && GzipAt(img, pos) {
      if MemberAt(zl, img, pos) {
        NoProgressIff(zl, img, MemberEnd(zl, img, pos));
      }
    } else if pos <= k {
      StubFound(img, pos);
      if NextGzip(img, pos) > pos {
        NoProgressIff(zl, img, NextGzip(img, pos));
      }
    } else if pos < |img| {
      if GzipAt(img, pos) {
        StubAt(img, pos);
        assert false;
      }
      NoProgressIff(zl, img, NextGzip(img, pos));
    }
  }

  // In particular on every such image without a complete gzip header.
  lemma NoProgressAlone(zl: Zlib, img: seq<byte>)
    requires EndsInStub(img) && forall k :: 0 <= k && k + 3 < |img| ==> !GzipAt(img, k)
    ensures Split(zl, img, 0).NoProgress?
  {
    StubFound(img, 0);
    NoProgressIff(zl, img, 0);
  }

  lemma GzipAtBytes(img: seq<byte>, k: nat)
    requires k <= |img|
    ensures var p := Padded(img);
            GzipAt(img, k) <==> p[k] == 0x1f && p[k + 1] == 0x8b && p[k + 2] == 0x08 && p[k + 3] == 0x00
  {
    var p := Padded(img);
    assert p[k..k + 4] == [p[k], p[k + 1], p[k + 2], p[k + 3]];
  }

  // Scan forward from pos for the next gzip header (imgdiff.c:506-513).
  method ScanForGzip(img: seq<byte>, pos: nat) returns (len: nat)
    requires pos <= |img|
    ensures pos + len == NextGzip(img, pos)
  {
    var p := Padded(img);
    len := 0;
    while len < |img| - pos
      invariant pos + len <= |img| && NextGzip(img, pos) == NextGzip(img, pos + len)
    {
      GzipAtBytes(img, pos + len);
      if p[pos + len] == 0x1f && p[pos + len + 1] == 0x8b && p[pos + len + 2] == 0x08 && p[pos + len + 3] == 0x00 {
        break;
      }
      len := len + 1;
    }
  }

  // One gzip member: its header, its deflate stream and its footer (imgdiff.c:406-491).
  method ReadGzip(zl: Zlib, img: seq<byte>, pos: nat) returns (r: Reading, next: nat)
    requires pos < |img|
    ensures r.Chunks? ==> pos < next <= |img| && SplitGzip(zl, img, pos) == Then(r.cs, Split(zl, img, next))
    ensures !r.Chunks? ==> SplitGzip(zl, img, pos) == r
  {
    next := pos + GZIP_HEADER_LEN;
    if |img| < next {
      return Overrun, pos;
    }
    var z := zl.inflate(img[next..]);
    if z.NotDeflate? {
      return BadStream, pos;
    }
    var cs := [Normal(pos, GZIP_HEADER_LEN, pos), Deflate(next, z.out, z.used, next, 0)];
    next := next + z.used;
    cs := cs + [Normal(next, GZIP_FOOTER_LEN, next)];
    next := next + GZIP_FOOTER_LEN;
    if |img| < next {
      return Overrun, pos;
    }
    if Read4(img[next - 4..next]) != |z.out| {
      return SizeMismatch, pos;
    }
    r := Chunks(cs);
  }

  // One turn of the reading loop: a gzip member, or everything up to the next one
  // (imgdiff.c:403-515).
  method ReadNext(zl: Zlib, img: seq<byte>, pos: nat) returns (r: Reading, next: nat)
    requires pos < |img|
    ensures r.Chunks? ==> pos < next <= |img| && Split(zl, img, pos) == Then(r.cs, Split(zl, img, next))
    ensures !r.Chunks? ==> Split(zl, img, pos) == r
  {
    if 4 <= |img| - pos && GzipAt(img, pos) {
      r, next := ReadGzip(zl, img, pos);
    } else {
      var len := ScanForGzip(img, pos);
      next := pos + len;
      r := if len == 0 then NoProgress else Chunks([Normal(pos, len, pos)]);
    }
  }

  // ReadImage (imgdiff.c:376-519).
  method ReadImage(zl: Zlib, img: seq<byte>) returns (r: Reading)
    ensures r == Split(zl, img, 0)
  {
    var pos: nat := 0;
    var cs: seq<Chunk> := [];
    ghost var whole := Split(zl, img, 0);
    ThenNothing(whole);
    while pos < |img|
      invariant pos <= |img| && whole == Then(cs, Split(zl, img, pos))
    {
      var g, next := ReadNext(zl, img, pos);
      if !g.Chunks? {
        return g;
      }
      ThenTwice(cs, g.cs, Split(zl, img, next));
      cs, pos := cs + g.cs, next;
    }
    assert cs + [] == cs;
    return Chunks(cs);
  }

  lemma ThenNothing(r: Reading)
    ensures Then([], r) == r
  {
    if r.Chunks? {
      assert [] + r.cs == r.cs;
    }
  }

  lemma ThenTwice(a: seq<Chunk>, b: seq<Chunk>, r: Reading)
    ensures Then(a, Then(b, r)) == Then(a + b, r)
  {
    if r.Chunks? {
      assert a + (b + r.cs) == (a + b) + r.cs;
    }
  }
}
