// The structural checks of verify_file (verifier.cpp:43-135): the signature's footer must
// name the end-of-central-directory record that minzip will find.
module Verifier {
  import opened Bytes
  import opened Endian
  import opened ZipIndex

  const FOOTER_SIZE: int := 6
  const RSANUMBYTES: int := 256
  const EOCD_HEADER_SIZE: int := 22

  // The footer: where the signature starts, two 0xff, and the size of the comment.
  function CommentSize(f: seq<byte>): (n: nat)
    requires FOOTER_SIZE <= |f|
  {
    U16(f, |f| - 2)
  }

  // The mark of the record stands at p.
  predicate MarkAt(f: seq<byte>, p: nat)
  {
    p + 4 <= |f| && f[p] == 0x50 && f[p + 1] == 0x4b && f[p + 2] == 0x05 && f[p + 3] == 0x06
  }

  lemma MarkIsSignature(f: seq<byte>, p: nat)
    requires p + 4 <= |f|
    ensures MarkAt(f, p) <==> U32(f, p) == ENDSIG
  {
  }

  // Two marks cannot overlap.
  lemma MarksApart(f: seq<byte>, p: nat, q: nat)
    requires MarkAt(f, p) && MarkAt(f, q) && p < q
    ensures p + 4 <= q
  {
  }

  // A file that passes: the place of its record, and how much of it is signed.
  datatype Checked = Checked(eocd: nat, signedLen: nat)

  // What passing the checks means.
  ghost predicate Passes(f: seq<byte>, c: Checked)
  {
    && FOOTER_SIZE <= |f| && f[|f| - 4] == 0xff && f[|f| - 3] == 0xff
    && FOOTER_SIZE + RSANUMBYTES <= U16(f, |f| - 6)
    && c.eocd + EOCD_HEADER_SIZE + CommentSize(f) == |f| && c.signedLen == c.eocd + EOCD_HEADER_SIZE - 2
    && MarkAt(f, c.eocd) && forall p :: c.eocd < p && p + 4 <= |f| ==> !MarkAt(f, p)
  }

  // The scan for another mark (verifier.cpp:123-135), over the record read into memory.
  method SecondMark(f: seq<byte>, eocd: nat) returns (found: bool)
    requires MarkAt(f, eocd)
    ensures found <==> exists p :: eocd < p && p + 4 <= |f| && MarkAt(f, p)
  {
    var i := eocd + 4;
    found := false;
    while i < |f| - 3
      invariant eocd + 4 <= i && forall p :: eocd + 4 <= p < i && p + 4 <= |f| ==> !MarkAt(f, p)
    {
      if MarkAt(f, i) {
        return true;
      }
      i := i + 1;
    }
    forall p | eocd < p && p + 4 <= |f|
      ensures !MarkAt(f, p)
    {
      if MarkAt(f, p) {
        MarksApart(f, eocd, p);
      }
    }
  }

  // The checks before the signature itself is verified.
  method CheckStructure(f: seq<byte>) returns (r: Option<Checked>)
    ensures r.Some? <==> exists c :: Passes(f, c)
    ensures r.Some? ==> Passes(f, r.value)
  {
    if |f| < FOOTER_SIZE {
      return None;
    }
    if f[|f| - 4] != 0xff || f[|f| - 3] != 0xff {
      return None;
    }
    var commentSize, signatureStart := CommentSize(f), U16(f, |f| - 6);
    if signatureStart - FOOTER_SIZE < RSANUMBYTES {
      return None;
    }
    var eocdSize := commentSize + EOCD_HEADER_SIZE;
    if |f| < eocdSize {
      return None;
    }
    var eocd := |f| - eocdSize;
    if !MarkAt(f, eocd) {
      return None;
    }
    var second := SecondMark(f, eocd);
    if second {
      return None;
    }
    r := Some(Checked(eocd, eocd + EOCD_HEADER_SIZE - 2));
    assert Passes(f, r.value);
  }

  // On a file that passes, minzip's backward scan stops at the record the footer names.
  lemma ScanAgrees(f: seq<byte>, c: Checked)
    requires Passes(f, c)
    ensures LastMark(f, |f| - ENDHDR) == Some(c.eocd)
  {
    MarkIsSignature(f, c.eocd);
    var r := LastMark(f, |f| - ENDHDR);
    if r.Some? {
      MarkIsSignature(f, r.value);
    }
  }

  // A signed file: data, the end record without its comment's size, that size, and a comment
  // that ends in a footer which says how far from its end the signature starts.
  function Signed(data: seq<byte>, end: seq<byte>, size: seq<byte>, comment: seq<byte>, start: nat): (f: seq<byte>)
    requires |end| == 16 && |size| == 2
  {
    data + [0x50, 0x4b, 0x05, 0x06] + end + size
    + (comment + Little(start, 2) + [0xff, 0xff] + Little(|comment| + 6, 2))
  }

  lemma SignedParts(data: seq<byte>, mark: seq<byte>, end: seq<byte>, size: seq<byte>, comment: seq<byte>,
                    start: seq<byte>, ff: seq<byte>, total: seq<byte>)
    requires |mark| == 4 && |end| == 16 && |size| == |start| == |ff| == |total| == 2
    ensures var f, n := data + mark + end + size + (comment + start + ff + total), |data| + 28 + |comment|;
            && |f| == n && f[|data|..|data| + 4] == mark && f[n - 6..n - 4] == start && f[n - 4..n - 2] == ff
            && f[n - 2..] == total && f[..|data| + 20] == data + mark + end
  {
  }

  lemma TwoBytes(f: seq<byte>, p: nat, v: nat)
    requires v < 0x1_0000 && p + 2 <= |f| && f[p..p + 2] == Little(v, 2)
    ensures U16(f, p) == v
  {
    assert Little(v, 2) == [v % 256] + ([v / 256 % 256] + Little(v / 256 / 256, 0));
    assert f[p] == f[p..p + 2][0] && f[p + 1] == f[p..p + 2][1];
  }

  // It passes exactly if the signature has room for 256 bytes in front of the footer and no
  // other mark follows.  What is signed is everything in front of the comment's size.
  lemma SignedPasses(data: seq<byte>, end: seq<byte>, size: seq<byte>, comment: seq<byte>, start: nat, f: seq<byte>)
    requires |end| == 16 && |size| == 2 && f == Signed(data, end, size, comment, start)
    requires |comment| + 6 < 0x1_0000 && start < 0x1_0000
    ensures Passes(f, Checked(|data|, |data| + 20))
            <==> 262 <= start && forall p :: |data| < p && p + 4 <= |f| ==> !MarkAt(f, p)
    ensures f[..|data| + 20] == data + [0x50, 0x4b, 0x05, 0x06] + end
  {
    var n := |f|;
    SignedParts(data, [0x50, 0x4b, 0x05, 0x06], end, size, comment, Little(start, 2), [0xff, 0xff],
                Little(|comment| + 6, 2));
    TwoBytes(f, n - 6, start);
    TwoBytes(f, n - 2, |comment| + 6);
    assert f[n - 4] == f[n - 4..n - 2][0] && f[n - 3] == f[n - 4..n - 2][1];
    var mark := f[|data|..|data| + 4];
    assert f[|data|] == mark[0] && f[|data| + 1] == mark[1] && f[|data| + 2] == mark[2] && f[|data| + 3] == mark[3];
  }
}
