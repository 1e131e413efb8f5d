// An image from the other side: parts written one after the other, each a gzip member or the
// data between two of them.  Such an image is read as the chunks of its parts, and only such
// an image can be read (imgdiff.c:396-519).
module ImageParts {
  import opened Bytes
  import opened Endian
  import opened ImageChunks

  datatype Part =
    | Data(bytes: seq<byte>)
    | Member(fields: seq<byte>, stream: seq<byte>, crc: seq<byte>, size: seq<byte>, out: seq<byte>)
  {
    // A member has a header of ten bytes without optional parts, and a footer of eight
    // (section 2.3 of RFC 1952).
    function Written(): (b: seq<byte>)
    {
      match this
      case Data(bytes) => bytes
      case Member(fields, stream, crc, size, _) => [0x1f, 0x8b, 0x08, 0x00] + fields + stream + crc + size
    }

    function ChunksAt(pos: nat): (cs: seq<Chunk>)
    {
      match this
      case Data(bytes) => [Normal(pos, |bytes|, pos)]
      case Member(_, stream, _, _, out) =>
        [Normal(pos, 10, pos), Deflate(pos + 10, out, |stream|, pos + 10, 0),
         Normal(pos + 10 + |stream|, 8, pos + 10 + |stream|)]
    }
  }

  function ChunksOf(ps: seq<Part>, pos: nat): (cs: seq<Chunk>)
  {
    if ps == [] then [] else ps[0].ChunksAt(pos) + ChunksOf(ps[1..], pos + |ps[0].Written()|)
  }

  // A member's header starts at j, or the image ends with what may be one.
  predicate HeaderAt(img: seq<byte>, j: nat)
  {
    || (j + 4 <= |img| && img[j] == 0x1f && img[j + 1] == 0x8b && img[j + 2] == 0x08 && img[j + 3] == 0x00)
    || (j + 3 == |img| && img[j] == 0x1f && img[j + 1] == 0x8b && img[j + 2] == 0x08)
  }

  // The bytes b stand at pos of the image.
  predicate Stands(img: seq<byte>, pos: nat, b: seq<byte>)
  {
    pos + |b| <= |img| && forall i {:trigger b[i]} :: 0 <= i < |b| ==> img[pos + i] == b[i]
  }

  lemma StandsBoth(img: seq<byte>, pos: nat, a: seq<byte>, b: seq<byte>)
    ensures Stands(img, pos, a + b) <==> Stands(img, pos, a) && Stands(img, pos + |a|, b)
  {
    if Stands(img, pos, a + b) {
      assert forall i {:trigger a[i]} :: 0 <= i < |a| ==> a[i] == (a + b)[i];
      assert forall i {:trigger b[i]} :: 0 <= i < |b| ==> b[i] == (a + b)[|a| + i];
    }
  }

  lemma StandsSlice(img: seq<byte>, pos: nat, end: nat)
    requires pos <= end <= |img|
    ensures Stands(img, pos, img[pos..end])
  {
  }

  lemma StandsIs(img: seq<byte>, pos: nat, b: seq<byte>)
    requires Stands(img, pos, b)
    ensures img[pos..pos + |b|] == b
  {
  }

  // The part stands at pos of the image.  Data is what no header starts in.
  ghost predicate PartAt(zl: Zlib, img: seq<byte>, p: Part, pos: nat)
  {
    && Stands(img, pos, p.Written())
    && match p
       case Data(bytes) => bytes != [] && forall j :: pos <= j < pos + |bytes| ==> !HeaderAt(img, j)
       case Member(fields, stream, crc, size, out) =>
         && |fields| == 6 && |crc| == 4 && zl.inflate(img[pos + 10..]) == Inflated(out, |stream|)
         && |size| == 4 && FromLittle(size) == |out| < 0x8000_0000
  }

  // The image is these parts from pos on.  Data is followed by a member or the end.
  ghost predicate Made(zl: Zlib, img: seq<byte>, ps: seq<Part>, pos: nat)
  {
    if ps == [] then pos == |img|
    else
      && PartAt(zl, img, ps[0], pos) && (ps[0].Data? && |ps| > 1 ==> ps[1].Member?)
      && Made(zl, img, ps[1..], pos + |ps[0].Written()|)
  }

  lemma HeaderIs(img: seq<byte>, j: nat)
    requires j <= |img|
    ensures GzipAt(img, j) <==> HeaderAt(img, j)
  {
    GzipAtBytes(img, j);
    assert j + 3 == |img| ==> Padded(img)[j + 3] == 0;
  }

  // Data is passed over as a whole.
  lemma {:induction false} DataPassed(img: seq<byte>, pos: nat, end: nat)
    requires pos <= end <= |img| && (end == |img| || HeaderAt(img, end))
    requires forall j :: pos <= j < end ==> !HeaderAt(img, j)
    ensures NextGzip(img, pos) == end
    decreases end - pos
  {
    HeaderIs(img, pos);
    if pos < end {
      DataPassed(img, pos + 1, end);
    }
  }

  // The header and the size of a member.
  lemma MemberParts(img: seq<byte>, pos: nat, h: seq<byte>, fields: seq<byte>, s: seq<byte>, crc: seq<byte>,
                    size: seq<byte>)
    requires |h| == 4 && |fields| == 6 && |crc| == 4 && |size| == 4
    ensures Stands(img, pos, h + fields + s + crc + size)
            <==> && Stands(img, pos, h) && Stands(img, pos + 4, fields) && Stands(img, pos + 10, s)
                 && Stands(img, pos + 10 + |s|, crc) && Stands(img, pos + 14 + |s|, size)
  {
    StandsBoth(img, pos, h + fields + s + crc, size);
    StandsBoth(img, pos, h + fields + s, crc);
    StandsBoth(img, pos, h + fields, s);
    StandsBoth(img, pos, h, fields);
  }

  lemma HeaderStands(img: seq<byte>, pos: nat)
    ensures Stands(img, pos, [0x1f, 0x8b, 0x08, 0x00]) <==> pos + 4 <= |img| && HeaderAt(img, pos)
  {
    var h: seq<byte> := [0x1f, 0x8b, 0x08, 0x00];
    assert h[0] == 0x1f && h[1] == 0x8b && h[2] == 0x08 && h[3] == 0x00;
  }

  // A member is read as three chunks.
  lemma MemberRead(zl: Zlib, img: seq<byte>, p: Part, pos: nat)
    requires p.Member? && PartAt(zl, img, p, pos)
    ensures HeaderAt(img, pos) && pos < |img|
    ensures Split(zl, img, pos) == Then(p.ChunksAt(pos), Split(zl, img, pos + |p.Written()|))
  {
    MemberParts(img, pos, [0x1f, 0x8b, 0x08, 0x00], p.fields, p.stream, p.crc, p.size);
    HeaderStands(img, pos);
    HeaderIs(img, pos);
    StandsIs(img, pos + 14 + |p.stream|, p.size);
    GzipRead(zl, img, pos, |p.stream|, p.out);
  }

  lemma GzipRead(zl: Zlib, img: seq<byte>, pos: nat, n: nat, out: seq<byte>)
    requires pos + 18 + n <= |img| && GzipAt(img, pos) && zl.inflate(img[pos + 10..]) == Inflated(out, n)
    requires FromLittle(img[pos + 14 + n..pos + 18 + n]) == |out| < 0x8000_0000
    ensures Split(zl, img, pos) == Then([Normal(pos, 10, pos), Deflate(pos + 10, out, n, pos + 10, 0),
                                         Normal(pos + 10 + n, 8, pos + 10 + n)], Split(zl, img, pos + 18 + n))
  {
  }

  // What stands first is a member if it is not data.
  lemma NextIs(zl: Zlib, img: seq<byte>, ps: seq<Part>, pos: nat)
    requires Made(zl, img, ps, pos) && (ps != [] ==> ps[0].Member?)
    ensures pos <= |img| && (pos == |img| || HeaderAt(img, pos))
  {
    if ps != [] {
      MemberRead(zl, img, ps[0], pos);
    }
  }

  lemma DataRead(zl: Zlib, img: seq<byte>, p: Part, pos: nat, next: nat)
    requires p.Data? && PartAt(zl, img, p, pos) && next == pos + |p.bytes| && (next == |img| || HeaderAt(img, next))
    ensures Split(zl, img, pos) == Then(p.ChunksAt(pos), Split(zl, img, next))
  {
    DataPassed(img, pos, next);
    HeaderIs(img, pos);
  }

  // A part is read as its chunks, whichever it is.
  lemma PartRead(zl: Zlib, img: seq<byte>, p: Part, pos: nat, next: nat)
    requires PartAt(zl, img, p, pos) && next == pos + |p.Written()|
    requires p.Data? ==> next == |img| || HeaderAt(img, next)
    ensures Split(zl, img, pos) == Then(p.ChunksAt(pos), Split(zl, img, next))
  {
    if p.Member? {
      MemberRead(zl, img, p, pos);
    } else {
      DataRead(zl, img, p, pos, next);
    }
  }

  // An image made of parts is read as their chunks.
  lemma {:induction false} MadeReads(zl: Zlib, img: seq<byte>, ps: seq<Part>, pos: nat)
    requires Made(zl, img, ps, pos)
    ensures pos <= |img| && Split(zl, img, pos) == Chunks(ChunksOf(ps, pos))
    decreases |ps|
  {
    if ps != [] {
      var next := FirstMade(zl, img, ps, pos);
      PartRead(zl, img, ps[0], pos, next);
      MadeReads(zl, img, ps[1..], next);
      ChunksFirst(ps, pos, next);
    }
  }

  lemma FirstMade(zl: Zlib, img: seq<byte>, ps: seq<Part>, pos: nat) returns (next: nat)
    requires ps != [] && Made(zl, img, ps, pos)
    ensures PartAt(zl, img, ps[0], pos) && next == pos + |ps[0].Written()| && Made(zl, img, ps[1..], next)
    ensures ps[0].Data? ==> next == |img| || HeaderAt(img, next)
  {
    next := pos + |ps[0].Written()|;
    if ps[0].Data? {
      NextIs(zl, img, ps[1..], next);
    }
  }

  lemma ChunksFirst(ps: seq<Part>, pos: nat, next: nat)
    requires ps != [] && next == pos + |ps[0].Written()|
    ensures Then(ps[0].ChunksAt(pos), Chunks(ChunksOf(ps[1..], next))) == Chunks(ChunksOf(ps, pos))
  {
  }

  // The member that was read.
  lemma MemberThere(zl: Zlib, img: seq<byte>, pos: nat, n: nat) returns (p: Part)
    requires pos + 4 <= |img| && HeaderAt(img, pos) && SplitGzip(zl, img, pos).Chunks?
    requires n == zl.inflate(img[pos + 10..]).used
    ensures p.Member? && |p.Written()| == 18 + n && PartAt(zl, img, p, pos)
  {
    var out := zl.inflate(img[pos + 10..]).out;
    var fields, s := img[pos + 4..pos + 10], img[pos + 10..pos + 10 + n];
    var crc, size := img[pos + 10 + n..pos + 14 + n], img[pos + 14 + n..pos + 18 + n];
    p := Member(fields, s, crc, size, out);
    HeaderStands(img, pos);
    StandsSlice(img, pos + 4, pos + 10);
    StandsSlice(img, pos + 10, pos + 10 + n);
    StandsSlice(img, pos + 10 + n, pos + 14 + n);
    StandsSlice(img, pos + 14 + n, pos + 18 + n);
    MemberParts(img, pos, [0x1f, 0x8b, 0x08, 0x00], fields, s, crc, size);
  }

  // The data that was read.
  lemma DataThere(zl: Zlib, img: seq<byte>, pos: nat) returns (p: Part)
    requires pos < |img| && !HeaderAt(img, pos)
    ensures p.Data? && p.bytes != [] && pos + |p.bytes| <= |img| && PartAt(zl, img, p, pos)
    ensures pos + |p.bytes| == |img| || HeaderAt(img, pos + |p.bytes|)
  {
    HeaderIs(img, pos);
    var n := NextGzip(img, pos);
    p := Data(img[pos..n]);
    forall j | pos <= j < n
      ensures !HeaderAt(img, j)
    {
      HeaderIs(img, j);
    }
    HeaderIs(img, n);
    StandsSlice(img, pos, n);
  }

  // The first part, whichever it is.
  lemma FirstThere(zl: Zlib, img: seq<byte>, pos: nat) returns (p: Part, next: nat)
    requires pos < |img| && Split(zl, img, pos).Chunks?
    ensures PartAt(zl, img, p, pos) && pos < next == pos + |p.Written()| <= |img| && Split(zl, img, next).Chunks?
    ensures p.Data? ==> !HeaderAt(img, pos) && (next == |img| || HeaderAt(img, next))
  {
    HeaderIs(img, pos);
    if HeaderAt(img, pos) {
      p := MemberThere(zl, img, pos, zl.inflate(img[pos + 10..]).used);
      next := pos + |p.Written()|;
      MemberRead(zl, img, p, pos);
    } else {
      p := DataThere(zl, img, pos);
      next := pos + |p.Written()|;
      DataRead(zl, img, p, pos, next);
    }
  }

  lemma MadeMore(zl: Zlib, img: seq<byte>, p: Part, rest: seq<Part>, pos: nat)
    requires PartAt(zl, img, p, pos) && Made(zl, img, rest, pos + |p.Written()|)
    requires p.Data? && rest != [] ==> rest[0].Member?
    ensures Made(zl, img, [p] + rest, pos)
  {
    assert ([p] + rest)[1..] == rest;
  }

  // Every image that can be read is made of parts.
  lemma {:induction false} ReadMade(zl: Zlib, img: seq<byte>, pos: nat) returns (ps: seq<Part>)
    requires pos <= |img| && Split(zl, img, pos).Chunks?
    ensures Made(zl, img, ps, pos)
    ensures ps != [] && ps[0].Data? ==> !HeaderAt(img, pos)
    decreases |img| - pos
  {
    if pos == |img| {
      return [];
    }
    var p, next := FirstThere(zl, img, pos);
    var rest := ReadMade(zl, img, next);
    MadeMore(zl, img, p, rest, pos);
    ps := [p] + rest;
  }

  // An image can be read exactly if it is made of parts, and gives their chunks.
  lemma ReadsIff(zl: Zlib, img: seq<byte>, cs: seq<Chunk>)
    ensures Split(zl, img, 0) == Chunks(cs)
            <==> exists ps {:trigger ChunksOf(ps, 0)} :: Made(zl, img, ps, 0) && cs == ChunksOf(ps, 0)
  {
    if Split(zl, img, 0) == Chunks(cs) {
      var ps := ReadMade(zl, img, 0);
      MadeReads(zl, img, ps, 0);
      assert cs == ChunksOf(ps, 0);
    }
    forall ps | Made(zl, img, ps, 0) && cs == ChunksOf(ps, 0)
      ensures Split(zl, img, 0) == Chunks(cs)
    {
      MadeReads(zl, img, ps, 0);
    }
  }

  // What keeps a member from being read.
  lemma MemberFails(zl: Zlib, img: seq<byte>, pos: nat)
    requires pos + 4 <= |img| && HeaderAt(img, pos)
    ensures |img| < pos + 10 ==> Split(zl, img, pos) == Overrun
    ensures pos + 10 <= |img| ==>
              match zl.inflate(img[pos + 10..])
              case NotDeflate => Split(zl, img, pos) == BadStream
              case Inflated(out, n) =>
                && (|img| < pos + 18 + n ==> Split(zl, img, pos) == Overrun)
                && (pos + 18 + n <= |img| && FromLittle(img[pos + 14 + n..pos + 18 + n]) != |out| ==>
                      Split(zl, img, pos) == SizeMismatch)
  {
    HeaderIs(img, pos);
    Powers();
  }
}
