// The bytes of an IMGDIFF2 file, spelled out: where the reader finds each field of a record and
// what it makes of it (imgpatch.c:44-226), and where the writer puts it (imgdiff.c:993-1046).
module ImgLayout {
  import opened Bytes
  import opened Endian
  import opened PatchFormat
  import opened ImageChunks
  import opened ImgFormat

  lemma FourBytes(f: seq<byte>, p: nat, v: nat)
    requires FieldAt(f, p, 4, v) && v < 0x8000_0000
    ensures Read4(f[p..p + 4]) == v
  {
  }

  lemma EightBytes(f: seq<byte>, p: nat, v: nat)
    requires FieldAt(f, p, 8, v) && v < 0x8000_0000_0000_0000
    ensures Read8(f[p..p + 8]) == v
  {
  }

  // Kind 0: 24 more bytes say where the source data is and where the patch.  The patched data
  // goes out, and nothing does if it cannot be patched.
  lemma NormalAt(z: Codec, zl: Zlib, src: seq<byte>, file: seq<byte>, extra: seq<byte>, pos: nat, start: nat, len: nat,
                 off: nat)
    requires start < 0x8000_0000_0000_0000 && len < 0x8000_0000_0000_0000 && off < 0x8000_0000_0000_0000
    requires pos + 4 <= |file| && file[pos..pos + 4] == [0, 0, 0, 0]
    requires FieldAt(file, pos + 4, 8, start) && FieldAt(file, pos + 12, 8, len) && FieldAt(file, pos + 20, 8, off)
    ensures match Patched(z, UpTo(src, start, len), file, off)
            case Some(t) => OutcomeAt(z, zl, src, file, extra, pos) == Emit(t, pos + 28)
            case None => OutcomeAt(z, zl, src, file, extra, pos) == Emit([], pos + 28)
  {
    KindOf(file, pos, 0);
    EightBytes(file, pos + 4, start);
    EightBytes(file, pos + 12, len);
    EightBytes(file, pos + 20, off);
    assert UpTo(src, start, len) == Window(src, start, len);
  }

  // Kind 3: a length, and that many bytes, which go out.
  lemma RawAt(z: Codec, zl: Zlib, src: seq<byte>, file: seq<byte>, extra: seq<byte>, pos: nat, len: nat)
    requires len < 0x8000_0000
    requires pos + 4 <= |file| && file[pos..pos + 4] == [3, 0, 0, 0] && FieldAt(file, pos + 4, 4, len)
    ensures if pos + 8 + len <= |file| then
              OutcomeAt(z, zl, src, file, extra, pos) == Emit(file[pos + 8..pos + 8 + len], pos + 8 + len)
            else OutcomeAt(z, zl, src, file, extra, pos) == Stop
  {
    KindOf(file, pos, 3);
    FourBytes(file, pos + 4, len);
  }

  // Kind 2: 60 more bytes say where the packed source data is and where the patch, how long
  // the data to be patched is, how long the target, and how to deflate it.  The source data
  // inflated and the bonus must be as long as that.
  lemma DeflateAt(z: Codec, zl: Zlib, src: seq<byte>, file: seq<byte>, extra: seq<byte>, pos: nat, start: nat, len: nat,
                  off: nat, expanded: nat, level: nat, method_: nat, windowBits: nat, memLevel: nat, strategy: nat)
    requires start < 0x8000_0000_0000_0000 && len < 0x8000_0000_0000_0000 && off < 0x8000_0000_0000_0000
    requires expanded < 0x8000_0000_0000_0000 && pos + 64 <= |file|
    requires file[pos..pos + 4] == [2, 0, 0, 0]
    requires FieldAt(file, pos + 4, 8, start) && FieldAt(file, pos + 12, 8, len) && FieldAt(file, pos + 20, 8, off)
    requires FieldAt(file, pos + 28, 8, expanded)
    requires Fives(file, pos + 44, level, method_, windowBits, memLevel, strategy)
    ensures match zl.inflate(UpTo(src, start, len))
            case NotDeflate => OutcomeAt(z, zl, src, file, extra, pos) == Stop
            case Inflated(out, _) =>
              if |out| + |extra| != expanded then OutcomeAt(z, zl, src, file, extra, pos) == Stop
              else match Patched(z, out + extra, file, off)
                case None => OutcomeAt(z, zl, src, file, extra, pos) == Stop
                case Some(t) =>
                  OutcomeAt(z, zl, src, file, extra, pos)
                  == Emit(zl.deflate(DeflateParams(level, method_, windowBits, memLevel, strategy), t), pos + 64)
  {
    KindOf(file, pos, 2);
    EightBytes(file, pos + 4, start);
    EightBytes(file, pos + 12, len);
    EightBytes(file, pos + 20, off);
    EightBytes(file, pos + 28, expanded);
    FivesRead(file, pos + 44, level, method_, windowBits, memLevel, strategy);
    assert UpTo(src, start, len) == Window(src, start, len);
  }

  // Five numbers of four bytes.
  predicate Fives(f: seq<byte>, p: nat, a: nat, b: nat, c: nat, d: nat, e: nat)
  {
    && FieldAt(f, p, 4, a) && FieldAt(f, p + 4, 4, b) && FieldAt(f, p + 8, 4, c) && FieldAt(f, p + 12, 4, d)
    && FieldAt(f, p + 16, 4, e)
    && a < 0x8000_0000 && b < 0x8000_0000 && c < 0x8000_0000 && d < 0x8000_0000 && e < 0x8000_0000
  }

  lemma FivesRead(f: seq<byte>, p: nat, a: nat, b: nat, c: nat, d: nat, e: nat)
    requires Fives(f, p, a, b, c, d, e)
    ensures ReadParams(f[p..p + 20]) == DeflateParams(a, b, c, d, e)
  {
    FourBytes(f, p, a);
    FourBytes(f, p + 4, b);
    FourBytes(f, p + 8, c);
    FourBytes(f, p + 12, d);
    FourBytes(f, p + 16, e);
    SliceSlice(f, p, 20, 0, 4);
    SliceSlice(f, p, 20, 4, 8);
    SliceSlice(f, p, 20, 8, 12);
    SliceSlice(f, p, 20, 12, 16);
    SliceSlice(f, p, 20, 16, 20);
  }

  // There are no other kinds, and no record is shorter.
  lemma OtherAt(z: Codec, zl: Zlib, src: seq<byte>, file: seq<byte>, extra: seq<byte>, pos: nat)
    requires pos + 4 <= |file| ==>
               match file[pos]
               case 0 => file[pos + 1..pos + 4] != [0, 0, 0] || |file| < pos + 28
               case 2 => file[pos + 1..pos + 4] != [0, 0, 0] || |file| < pos + 64
               case 3 => file[pos + 1..pos + 4] != [0, 0, 0] || |file| < pos + 8
               case _ => true
    ensures OutcomeAt(z, zl, src, file, extra, pos) == Stop
  {
    if pos + 4 <= |file| {
      var kind := file[pos..pos + 4];
      assert kind[1..] == file[pos + 1..pos + 4];
      KindIs(kind, 0);
      KindIs(kind, 2);
      KindIs(kind, 3);
    }
  }

  lemma KindOf(f: seq<byte>, p: nat, k: byte)
    requires p + 4 <= |f| && f[p..p + 4] == [k, 0, 0, 0] && k < 128
    ensures Read4(f[p..p + 4]) == k
  {
    var b := [k, 0, 0, 0];
    assert b[1..] == [0, 0, 0] && b[1..][1..] == [0, 0] && b[1..][1..][1..] == [0];
    assert FromLittle([0]) == 0 && FromLittle([0, 0]) == 0 && FromLittle([0, 0, 0]) == 0;
  }

  lemma KindIs(b: seq<byte>, k: byte)
    requires |b| == 4 && k < 128
    ensures Read4(b) == k ==> b[0] == k && b[1..] == [0, 0, 0]
  {
    if Read4(b) == k {
      LittleOfFrom(b);
      assert b == Little(k, 4) == [k % 256] + Little(k / 256, 3);
      assert Little(0, 3) == [0, 0, 0];
    }
  }

  // A file without the magic number and the number of its records is refused.
  lemma FileStarts(z: Codec, zl: Zlib, src: seq<byte>, file: seq<byte>, bonus: Option<seq<byte>>, n: nat)
    ensures |file| < 12 || file[..8] != [0x49, 0x4d, 0x47, 0x44, 0x49, 0x46, 0x46, 0x32] ==>
              Apply(z, zl, src, file, bonus) == Applied(-1, [])
    ensures 12 <= |file| && file[..8] == [0x49, 0x4d, 0x47, 0x44, 0x49, 0x46, 0x46, 0x32] && FieldAt(file, 8, 4, n)
            && n < 0x8000_0000 ==>
              Apply(z, zl, src, file, bonus) == ApplyFrom(z, zl, src, file, bonus, 0, n, 12)
  {
    if FieldAt(file, 8, 4, n) && n < 0x8000_0000 {
      FourBytes(file, 8, n);
    }
  }
}
