// The IMGDIFF2 format: a header of chunk records, then a BSDIFF40 patch for each chunk
// that is not raw.  The writer's layout is imgdiff.c:977-1046, the reader is
// imgpatch.c:38-232; the lemmas show that the reader undoes the writer.
module ImgFormat {
  import opened Bytes
  import opened Endian
  import opened PatchFormat
  import opened ImageChunks

  const CHUNK_NORMAL: int := 0
  const CHUNK_DEFLATE: int := 2
  const CHUNK_RAW: int := 3

  const IMG_MAGIC: seq<byte> := [73, 77, 71, 68, 73, 70, 70, 50] // "IMGDIFF2"

  // How to make one chunk of the target.
  datatype Plan =
    | RawPlan(bytes: seq<byte>)
    | NormalPlan(srcStart: nat, srcLen: nat, patch: seq<byte>)
    | DeflatePlan(srcStart: nat, srcLen: nat, expanded: nat, tgtLen: nat, params: DeflateParams, patch: seq<byte>)
  {
    // The patch that goes behind the header.
    function Tail(): seq<byte> {
      if RawPlan? then [] else patch
    }

    // What the record of the chunk adds to the header (imgdiff.c:978-991).
    function RecordSize(): nat {
      4 + match this
          case RawPlan(bytes) => 4 + |bytes|
          case NormalPlan(_, _, _) => 8 * 3
          case DeflatePlan(_, _, _, _, _, _) => 8 * 5 + 4 * 5
    }
  }

  function ParamBytes(p: DeflateParams): (b: seq<byte>)
    ensures |b| == 20
  {
    Write4(p.level) + Write4(p.method_) + Write4(p.windowBits) + Write4(p.memLevel) + Write4(p.strategy)
  }

  // The record of one chunk, whose patch goes to offset off (imgdiff.c:1001-1036).
  function Record(p: Plan, off: nat): (b: seq<byte>)
  {
    match p
    case RawPlan(bytes) => Write4(CHUNK_RAW) + (Write4(|bytes|) + bytes)
    case NormalPlan(start, len, _) => Write4(CHUNK_NORMAL) + (Write8(start) + Write8(len) + Write8(off))
    case DeflatePlan(start, len, expanded, tgtLen, params, _) =>
      Write4(CHUNK_DEFLATE)
      + ((Write8(start) + Write8(len) + Write8(off) + Write8(expanded) + Write8(tgtLen)) + ParamBytes(params))
  }

  function Records(ps: seq<Plan>, off: nat): (b: seq<byte>)
  {
    if ps == [] then [] else Record(ps[0], off) + Records(ps[1..], off + |ps[0].Tail()|)
  }

  function Tails(ps: seq<Plan>): (b: seq<byte>)
  {
    if ps == [] then [] else ps[0].Tail() + Tails(ps[1..])
  }

  function RecordSizes(ps: seq<Plan>): (n: nat)
  {
    if ps == [] then 0 else ps[0].RecordSize() + RecordSizes(ps[1..])
  }

  // total_header_size (imgdiff.c:977-991).
  function HeaderSize(ps: seq<Plan>): (n: nat)
  {
    12 + RecordSizes(ps)
  }

  // The whole file.
  function ImgFile(ps: seq<Plan>): (f: seq<byte>)
  {
    IMG_MAGIC + Write4(|ps|) + Records(ps, HeaderSize(ps)) + Tails(ps)
  }

  // The size computed beforehand is the size of what is written, wherever the patches go.
  lemma {:induction false} RecordsSize(ps: seq<Plan>, off: nat)
    ensures |Records(ps, off)| == RecordSizes(ps)
  {
    if ps != [] {
      RecordsSize(ps[1..], off + |ps[0].Tail()|);
    }
  }

  // Where the patch of chunk i ends up in the file.
  function TailOffset(ps: seq<Plan>, i: nat): (n: nat)
    requires i <= |ps|
  {
    if i == 0 then HeaderSize(ps) else TailOffset(ps, i - 1) + |ps[i - 1].Tail()|
  }

  lemma {:induction false} TailsSplit(ps: seq<Plan>, i: nat)
    requires i < |ps|
    ensures Tails(ps) == Tails(ps[..i]) + ps[i].Tail() + Tails(ps[i + 1..])
  {
    if i > 0 {
      TailsSplit(ps[1..], i - 1);
      assert ps[1..][..i - 1] == ps[..i][1..] && ps[1..][i - 1] == ps[i] && ps[1..][i..] == ps[i + 1..];
      assert ps[..i][0] == ps[0];
      Reassociate4(ps[0].Tail(), Tails(ps[..i][1..]), ps[i].Tail(), Tails(ps[i + 1..]));
    }
  }

  lemma Reassociate4(a: seq<byte>, b: seq<byte>, c: seq<byte>, d: seq<byte>)
    ensures a + (b + c + d) == (a + b) + c + d
  {
  }

  lemma {:induction false} TailOffsetIs(ps: seq<Plan>, i: nat)
    requires i <= |ps|
    ensures TailOffset(ps, i) == HeaderSize(ps) + |Tails(ps[..i])|
  {
    if i > 0 {
      TailOffsetIs(ps, i - 1);
      TailsSplit(ps[..i], i - 1);
      assert ps[..i][..i - 1] == ps[..i - 1] && ps[..i][i..] == [];
    }
  }

  // Every recorded offset points at the chunk's own patch.
  lemma OffsetPoints(ps: seq<Plan>, i: nat)
    requires i < |ps|
    ensures var (o, f, t) := (TailOffset(ps, i), ImgFile(ps), ps[i].Tail());
            o + |t| <= |f| && f[o..o + |t|] == t
  {
    TailOffsetIs(ps, i);
    TailsSplit(ps, i);
    RecordsSize(ps, HeaderSize(ps));
    PartOf(ImgFile(ps), IMG_MAGIC + Write4(|ps|) + Records(ps, HeaderSize(ps)), Tails(ps[..i]), ps[i].Tail(),
           Tails(ps[i + 1..]),
           TailOffset(ps, i));
  }

  lemma PartOf(f: seq<byte>, head: seq<byte>, a: seq<byte>, b: seq<byte>, c: seq<byte>, o: nat)
    requires f == head + (a + b + c) && o == |head| + |a|
    ensures o + |b| <= |f| && f[o..o + |b|] == b
  {
  }

  // What one record makes the reader do.
  datatype Outcome = Stop | Emit(out: seq<byte>, next: nat)

  // The old data patched from offset off of the file; nothing when that is no patch.
  function PatchedAt(z: Codec, base: seq<byte>, file: seq<byte>, off: int): (r: Option<seq<byte>>)
  {
    if off < 0 then None else Patched(z, base, file, off)
  }

  // A normal record whose fields start at p (imgpatch.c:74-88).  A corrupt patch emits
  // nothing and does not stop the reader.
  function NormalOutcome(z: Codec, src: seq<byte>, file: seq<byte>, p: nat): (r: Outcome)
  {
    if |file| < p + 24 then Stop
    else
      var base := Window(src, Read8(file[p..p + 8]), Read8(file[p + 8..p + 16]));
      var r := PatchedAt(z, base, file, Read8(file[p + 16..p + 24]));
      Emit(if r.Some? then r.value else [], p + 24)
  }

  // A raw record (imgpatch.c:89-110).
  function RawOutcome(file: seq<byte>, p: nat): (r: Outcome)
  {
    if |file| < p + 4 then Stop
    else
      var len := Read4(file[p..p + 4]);
      if len < 0 || |file| < p + 4 + len then Stop
      else Emit(file[p + 4..p + 4 + len], p + 4 + len)
  }

  function ReadParams(b: seq<byte>): (p: DeflateParams)
    requires |b| == 20
  {
    DeflateParams(Read4(b[..4]), Read4(b[4..8]), Read4(b[8..12]), Read4(b[12..16]), Read4(b[16..20]))
  }

  // The data a deflate chunk is patched from: the inflated source, which must fill the
  // expanded length but for the bonus, and the bonus (imgpatch.c:131-184).
  function Expand(zl: Zlib, packed: seq<byte>, expanded: int, extra: seq<byte>): (r: Option<seq<byte>>)
  {
    match zl.inflate(packed)
    case NotDeflate => None
    case Inflated(out, _) => if |out| > expanded || expanded - |out| != |extra| then None else Some(out + extra)
  }

  // A deflate record (imgpatch.c:111-226).
  function DeflateOutcome(z: Codec, zl: Zlib, src: seq<byte>, file: seq<byte>, extra: seq<byte>, p: nat): (r: Outcome)
  {
    if |file| < p + 60 then Stop
    else
      var packed := Window(src, Read8(file[p..p + 8]), Read8(file[p + 8..p + 16]));
      match Expand(zl, packed, Read8(file[p + 24..p + 32]), extra)
      case None => Stop
      case Some(base) =>
        match PatchedAt(z, base, file, Read8(file[p + 16..p + 24]))
        case None => Stop
        case Some(t) => Emit(zl.deflate(ReadParams(file[p + 40..p + 60]), t), p + 60)
  }

  // The bonus belongs to chunk 1 only (imgpatch.c:138).
  function Extra(bonus: Option<seq<byte>>, i: nat): (b: seq<byte>)
  {
    if i == 1 && bonus.Some? then bonus.value else []
  }

  // The record at pos.
  function OutcomeAt(z: Codec, zl: Zlib, src: seq<byte>, file: seq<byte>, extra: seq<byte>, pos: nat): (r: Outcome)
  {
    if |file| < pos + 4 then Stop
    else
      var kind := Read4(file[pos..pos + 4]);
      if kind == CHUNK_NORMAL then NormalOutcome(z, src, file, pos + 4)
      else if kind == CHUNK_RAW then RawOutcome(file, pos + 4)
      else if kind == CHUNK_DEFLATE then DeflateOutcome(z, zl, src, file, extra, pos + 4)
      else Stop
  }

  // The result code, and the bytes produced up to the end or the failure.
  datatype Applied = Applied(rc: int, out: seq<byte>)

  function After(front: seq<byte>, a: Applied): (r: Applied)
  {
    Applied(a.rc, front + a.out)
  }

  // The chunks from number i of n, the record of which is at pos.
  function ApplyFrom(z: Codec, zl: Zlib, src: seq<byte>, file: seq<byte>, bonus: Option<seq<byte>>, i: nat, n: int,
                     pos: nat): (r: Applied)
    ensures r.rc == 0 || r.rc == -1
    decreases n - i
  {
    if n <= i then Applied(0, [])
    else match OutcomeAt(z, zl, src, file, Extra(bonus, i), pos)
      case Stop => Applied(-1, [])
      case Emit(out, next) => After(out, ApplyFrom(z, zl, src, file, bonus, i + 1, n, next))
  }

  // Only chunk 1 is patched from the inflated source and the bonus: chunk 0 and those from
  // number 2 on are patched as if there were none.
  lemma BonusForOne(z: Codec, zl: Zlib, src: seq<byte>, file: seq<byte>, b: seq<byte>, n: int, pos: nat, out: seq<byte>,
                    next: nat)
    requires 1 < n
    ensures OutcomeAt(z, zl, src, file, [], pos) == Emit(out, next) ==>
              ApplyFrom(z, zl, src, file, Some(b), 0, n, pos)
              == After(out, ApplyFrom(z, zl, src, file, Some(b), 1, n, next))
    ensures OutcomeAt(z, zl, src, file, b, pos) == Emit(out, next) ==>
              ApplyFrom(z, zl, src, file, Some(b), 1, n, pos)
              == After(out, ApplyFrom(z, zl, src, file, None, 2, n, next))
    ensures OutcomeAt(z, zl, src, file, [], pos) == Stop ==>
              ApplyFrom(z, zl, src, file, Some(b), 0, n, pos) == Applied(-1, [])
    ensures OutcomeAt(z, zl, src, file, b, pos) == Stop ==>
              ApplyFrom(z, zl, src, file, Some(b), 1, n, pos) == Applied(-1, [])
  {
    BonusPassed(z, zl, src, file, Some(b), 2, n, next);
  }

  lemma {:induction false} BonusPassed(z: Codec, zl: Zlib, src: seq<byte>, file: seq<byte>, bonus: Option<seq<byte>>,
                                       i: nat, n: int, pos: nat)
    requires 2 <= i
    ensures ApplyFrom(z, zl, src, file, bonus, i, n, pos) == ApplyFrom(z, zl, src, file, None, i, n, pos)
    decreases n - i
  {
    if i < n {
      var r := OutcomeAt(z, zl, src, file, [], pos);
      if r.Emit? {
        BonusPassed(z, zl, src, file, bonus, i + 1, n, r.next);
      }
    }
  }

  // What ApplyImagePatch makes of src and a patch file, given room for its output.
  function Apply(z: Codec, zl: Zlib, src: seq<byte>, file: seq<byte>, bonus: Option<seq<byte>>): (r: Applied)
  {
    if |file| < 12 || file[..8] != IMG_MAGIC then Applied(-1, [])
    else ApplyFrom(z, zl, src, file, bonus, 0, Read4(file[8..12]), 12)
  }

  // The outputs of the chunks from number i of n, one by one.
  function PartsFrom(z: Codec, zl: Zlib, src: seq<byte>, file: seq<byte>, bonus: Option<seq<byte>>, i: nat, n: int,
                     pos: nat): (ts: seq<seq<byte>>)
    decreases n - i
  {
    if n <= i then []
    else match OutcomeAt(z, zl, src, file, Extra(bonus, i), pos)
      case Stop => []
      case Emit(out, next) => [out] + PartsFrom(z, zl, src, file, bonus, i + 1, n, next)
  }

  function Parts(z: Codec, zl: Zlib, src: seq<byte>, file: seq<byte>, bonus: Option<seq<byte>>): (ts: seq<seq<byte>>)
  {
    if |file| < 12 || file[..8] != IMG_MAGIC then []
    else PartsFrom(z, zl, src, file, bonus, 0, Read4(file[8..12]), 12)
  }

  // Together they are the output.
  lemma {:induction false} PartsMake(z: Codec, zl: Zlib, src: seq<byte>, file: seq<byte>, bonus: Option<seq<byte>>,
                                     i: nat, n: int, pos: nat)
    ensures Concat(PartsFrom(z, zl, src, file, bonus, i, n, pos)) == ApplyFrom(z, zl, src, file, bonus, i, n, pos).out
    decreases n - i
  {
    if i < n {
      var r := OutcomeAt(z, zl, src, file, Extra(bonus, i), pos);
      if r.Emit? {
        PartsMake(z, zl, src, file, bonus, i + 1, n, r.next);
        PartsFirst(z, zl, src, file, bonus, i, n, pos, r.out, r.next);
        ConcatFirst(r.out, PartsFrom(z, zl, src, file, bonus, i + 1, n, r.next));
      }
    }
  }

  lemma PartsFirst(z: Codec, zl: Zlib, src: seq<byte>, file: seq<byte>, bonus: Option<seq<byte>>, i: nat, n: int,
                   pos: nat, out: seq<byte>, next: nat)
    requires i < n && OutcomeAt(z, zl, src, file, Extra(bonus, i), pos) == Emit(out, next)
    ensures PartsFrom(z, zl, src, file, bonus, i, n, pos) == [out] + PartsFrom(z, zl, src, file, bonus, i + 1, n, next)
    ensures ApplyFrom(z, zl, src, file, bonus, i, n, pos)
            == After(out, ApplyFrom(z, zl, src, file, bonus, i + 1, n, next))
  {
  }

  lemma ConcatFirst(t: seq<byte>, ts: seq<seq<byte>>)
    ensures Concat([t] + ts) == t + Concat(ts)
  {
    assert ([t] + ts)[1..] == ts;
  }

  // The patch turns base into t wherever in a file it stands.
  ghost predicate Portable(z: Codec, base: seq<byte>, patch: seq<byte>, t: seq<byte>)
  {
    forall front, back {:trigger front + patch + back} :: Patched(z, base, front + patch + back, |front|) == Some(t)
  }

  // The plan makes t from src.
  ghost predicate Makes(z: Codec, zl: Zlib, src: seq<byte>, p: Plan, extra: seq<byte>, t: seq<byte>)
  {
    match p
    case RawPlan(bytes) => bytes == t && |bytes| < TWO31
    case NormalPlan(start, len, patch) =>
      start < TWO63 && len < TWO63 && Portable(z, Window(src, start, len), patch, t)
    case DeflatePlan(start, len, expanded, tgtLen, params, patch) =>
      && start < TWO63 && len < TWO63 && expanded < TWO63 && tgtLen < TWO63 && Params(params)
      && exists base, u {:trigger Portable(z, base, patch, u)} ::
           && Expand(zl, Window(src, start, len), expanded, extra) == Some(base)
           && Portable(z, base, patch, u) && zl.deflate(params, u) == t
  }

  // The parameters fit their fields.
  ghost predicate Params(p: DeflateParams)
  {
    && -TWO31 <= p.level < TWO31 && -TWO31 <= p.method_ < TWO31 && -TWO31 <= p.windowBits < TWO31
    && -TWO31 <= p.memLevel < TWO31 && -TWO31 <= p.strategy < TWO31
  }

  lemma ParamsRoundTrip(p: DeflateParams)
    requires Params(p)
    ensures ReadParams(ParamBytes(p)) == p
  {
    var b := ParamBytes(p);
    FiveFours(Write4(p.level), Write4(p.method_), Write4(p.windowBits), Write4(p.memLevel), Write4(p.strategy));
    Write4RoundTrip(p.level);
    Write4RoundTrip(p.method_);
    Write4RoundTrip(p.windowBits);
    Write4RoundTrip(p.memLevel);
    Write4RoundTrip(p.strategy);
  }

  lemma FiveFours(a: seq<byte>, b: seq<byte>, c: seq<byte>, d: seq<byte>, e: seq<byte>)
    requires |a| == |b| == |c| == |d| == |e| == 4
    ensures var s := a + b + c + d + e;
            s[..4] == a && s[4..8] == b && s[8..12] == c && s[12..16] == d && s[16..20] == e
  {
  }

  lemma SliceSlice(f: seq<byte>, p: nat, n: nat, i: nat, j: nat)
    requires i <= j <= n && p + n <= |f|
    ensures f[p..p + n][i..j] == f[p + i..p + j]
  {
    var l, r := f[p..p + n][i..j], f[p + i..p + j];
    assert |l| == |r|;
    assert forall k :: 0 <= k < |l| ==> l[k] == f[p + i + k] == r[k];
  }

  // Fields of a record, read in place.
  lemma ThreeEights(f: seq<byte>, p: nat, a: seq<byte>, b: seq<byte>, c: seq<byte>, rest: seq<byte>)
    requires |a| == |b| == |c| == 8 && p + 24 + |rest| <= |f| && f[p..p + 24 + |rest|] == a + b + c + rest
    ensures f[p..p + 8] == a && f[p + 8..p + 16] == b && f[p + 16..p + 24] == c && f[p + 24..p + 24 + |rest|] == rest
  {
    var n := 24 + |rest|;
    SliceSlice(f, p, n, 0, 8);
    SliceSlice(f, p, n, 8, 16);
    SliceSlice(f, p, n, 16, 24);
    SliceSlice(f, p, n, 24, n);
    FourParts(a, b, c, rest);
  }

  lemma FourParts(a: seq<byte>, b: seq<byte>, c: seq<byte>, rest: seq<byte>)
    requires |a| == |b| == |c| == 8
    ensures var w := a + b + c + rest;
            w[0..8] == a && w[8..16] == b && w[16..24] == c && w[24..24 + |rest|] == rest
  {
  }

  lemma TwoEights(f: seq<byte>, p: nat, a: seq<byte>, b: seq<byte>, rest: seq<byte>)
    requires |a| == |b| == 8 && p + 16 + |rest| <= |f| && f[p..p + 16 + |rest|] == a + b + rest
    ensures f[p..p + 8] == a && f[p + 8..p + 16] == b && f[p + 16..p + 16 + |rest|] == rest
  {
    var n := 16 + |rest|;
    var w := f[p..p + n];
    assert f[p..p + 8] == w[..8] && f[p + 8..p + 16] == w[8..16] && f[p + 16..p + n] == w[16..];
  }

  lemma FourThen(f: seq<byte>, p: nat, a: seq<byte>, rest: seq<byte>)
    requires |a| == 4 && p + 4 + |rest| <= |f| && f[p..p + 4 + |rest|] == a + rest
    ensures f[p..p + 4] == a && f[p + 4..p + 4 + |rest|] == rest
  {
    var w := f[p..p + 4 + |rest|];
    assert f[p..p + 4] == w[..4] && f[p + 4..p + 4 + |rest|] == w[4..];
  }

  // A portable patch at its place in the file.
  lemma PatchInPlace(z: Codec, base: seq<byte>, file: seq<byte>, off: nat, patch: seq<byte>, back: seq<byte>,
                     t: seq<byte>)
    requires Portable(z, base, patch, t) && off <= |file| && file[off..] == patch + back
    ensures PatchedAt(z, base, file, off) == Some(t)
  {
    var front := file[..off];
    assert file == front + (patch + back);
    assert front + (patch + back) == front + patch + back;
  }

  ghost predicate RecordAt(file: seq<byte>, p: Plan, pos: nat, off: nat)
  {
    pos + p.RecordSize() <= |file| && file[pos..pos + p.RecordSize()] == Record(p, off)
  }

  // The record of a plan is at pos of a file that has the plan's patch at off.
  ghost predicate InPlace(file: seq<byte>, p: Plan, pos: nat, off: nat, back: seq<byte>)
  {
    RecordAt(file, p, pos, off) && off <= |file| < TWO63 && file[off..] == p.Tail() + back
  }

  // Each kind of record makes the reader emit what its plan makes.
  lemma RawReads(z: Codec, zl: Zlib, src: seq<byte>, file: seq<byte>, p: Plan, extra: seq<byte>, pos: nat, off: nat,
                 back: seq<byte>, t: seq<byte>)
    requires p.RawPlan? && InPlace(file, p, pos, off, back) && Makes(z, zl, src, p, extra, t)
    ensures OutcomeAt(z, zl, src, file, extra, pos) == Emit(t, pos + p.RecordSize())
  {
    FourThen(file, pos, Write4(CHUNK_RAW), Write4(|p.bytes|) + p.bytes);
    FourThen(file, pos + 4, Write4(|p.bytes|), p.bytes);
    Write4RoundTrip(CHUNK_RAW);
    Write4RoundTrip(|p.bytes|);
  }

  lemma NormalReads(z: Codec, zl: Zlib, src: seq<byte>, file: seq<byte>, p: Plan, extra: seq<byte>, pos: nat, off: nat,
                    back: seq<byte>, t: seq<byte>)
    requires p.NormalPlan? && InPlace(file, p, pos, off, back) && Makes(z, zl, src, p, extra, t)
    ensures OutcomeAt(z, zl, src, file, extra, pos) == Emit(t, pos + p.RecordSize())
  {
    var a, b, c := Write8(p.srcStart), Write8(p.srcLen), Write8(off);
    FourThen(file, pos, Write4(CHUNK_NORMAL), a + b + c);
    assert a + b + c + [] == a + b + c;
    ThreeEights(file, pos + 4, a, b, c, []);
    Write4RoundTrip(CHUNK_NORMAL);
    Write8RoundTrip(p.srcStart);
    Write8RoundTrip(p.srcLen);
    Write8RoundTrip(off);
    PatchInPlace(z, Window(src, p.srcStart, p.srcLen), file, off, p.patch, back, t);
  }

  // The fields of a deflate record.
  lemma DeflateFields(file: seq<byte>, p: Plan, pos: nat, off: nat)
    requires p.DeflatePlan? && pos + 64 <= |file| && file[pos..pos + 64] == Record(p, off)
    ensures file[pos..pos + 4] == Write4(CHUNK_DEFLATE)
    ensures file[pos + 4..pos + 12] == Write8(p.srcStart) && file[pos + 12..pos + 20] == Write8(p.srcLen)
    ensures file[pos + 20..pos + 28] == Write8(off) && file[pos + 28..pos + 36] == Write8(p.expanded)
    ensures file[pos + 36..pos + 44] == Write8(p.tgtLen) && file[pos + 44..pos + 64] == ParamBytes(p.params)
  {
    var a, b, c, d := Write8(p.srcStart), Write8(p.srcLen), Write8(off), Write8(p.expanded);
    var e, g := Write8(p.tgtLen), ParamBytes(p.params);
    FourThen(file, pos, Write4(CHUNK_DEFLATE), (a + b + c + d + e) + g);
    SixParts(a, b, c, d, e, g);
    ThreeEights(file, pos + 4, a, b, c, d + e + g);
    TwoEights(file, pos + 28, d, e, g);
  }

  lemma SixParts(a: seq<byte>, b: seq<byte>, c: seq<byte>, d: seq<byte>, e: seq<byte>, g: seq<byte>)
    ensures (a + b + c + d + e) + g == a + b + c + (d + e + g)
  {
  }

  lemma DeflateReads(z: Codec, zl: Zlib, src: seq<byte>, file: seq<byte>, p: Plan, extra: seq<byte>, pos: nat,
                     off: nat, back: seq<byte>, t: seq<byte>)
    requires p.DeflatePlan? && InPlace(file, p, pos, off, back) && Makes(z, zl, src, p, extra, t)
    ensures OutcomeAt(z, zl, src, file, extra, pos) == Emit(t, pos + p.RecordSize())
  {
    DeflateFields(file, p, pos, off);
    Write4RoundTrip(CHUNK_DEFLATE);
    Write8RoundTrip(p.srcStart);
    Write8RoundTrip(p.srcLen);
    Write8RoundTrip(off);
    Write8RoundTrip(p.expanded);
    ParamsRoundTrip(p.params);
    var base, u :| Expand(zl, Window(src, p.srcStart, p.srcLen), p.expanded, extra) == Some(base)
                   && Portable(z, base, p.patch, u) && zl.deflate(p.params, u) == t;
    PatchInPlace(z, base, file, off, p.patch, back, u);
  }

  lemma RecordReads(z: Codec, zl: Zlib, src: seq<byte>, file: seq<byte>, p: Plan, extra: seq<byte>, pos: nat, off: nat,
                    back: seq<byte>, t: seq<byte>)
    requires InPlace(file, p, pos, off, back) && Makes(z, zl, src, p, extra, t)
    ensures OutcomeAt(z, zl, src, file, extra, pos) == Emit(t, pos + p.RecordSize())
  {
    match p
    case RawPlan(_) => RawReads(z, zl, src, file, p, extra, pos, off, back, t);
    case NormalPlan(_, _, _) => NormalReads(z, zl, src, file, p, extra, pos, off, back, t);
    case DeflatePlan(_, _, _, _, _, _) => DeflateReads(z, zl, src, file, p, extra, pos, off, back, t);
  }

  // The plans make the pieces of the target, chunk i first.
  ghost predicate MakesAll(z: Codec, zl: Zlib, src: seq<byte>, ps: seq<Plan>, bonus: Option<seq<byte>>, i: nat,
                           ts: seq<seq<byte>>)
  {
    |ps| == |ts| && forall k :: 0 <= k < |ps| ==> Makes(z, zl, src, ps[k], Extra(bonus, i + k), ts[k])
  }

  lemma MakesRest(z: Codec, zl: Zlib, src: seq<byte>, ps: seq<Plan>, bonus: Option<seq<byte>>, i: nat,
                  ts: seq<seq<byte>>,
                  ps': seq<Plan>, ts': seq<seq<byte>>)
    requires MakesAll(z, zl, src, ps, bonus, i, ts) && ps != [] && ps' == ps[1..] && ts' == ts[1..]
    ensures Makes(z, zl, src, ps[0], Extra(bonus, i), ts[0]) && MakesAll(z, zl, src, ps', bonus, i + 1, ts')
  {
    assert Makes(z, zl, src, ps[0], Extra(bonus, i + 0), ts[0]);
    forall k | 0 <= k < |ps| - 1
      ensures Makes(z, zl, src, ps'[k], Extra(bonus, i + 1 + k), ts'[k])
    {
      assert Makes(z, zl, src, ps[k + 1], Extra(bonus, i + (k + 1)), ts[k + 1]);
    }
  }

  // The records of ps stand at pos of the file, for patches from off on.
  ghost predicate RecordsAt(file: seq<byte>, ps: seq<Plan>, pos: nat, off: nat)
  {
    pos + RecordSizes(ps) <= |file| && file[pos..pos + RecordSizes(ps)] == Records(ps, off)
  }

  // The patches of ps are the end of the file, from off on.
  ghost predicate TailsAt(file: seq<byte>, ps: seq<Plan>, off: nat)
  {
    off <= |file| < TWO63 && file[off..] == Tails(ps)
  }

  lemma RecordsRest(file: seq<byte>, ps: seq<Plan>, pos: nat, off: nat, ps': seq<Plan>, next: nat, off': nat)
    requires RecordsAt(file, ps, pos, off) && ps != [] && ps' == ps[1..]
    requires next == pos + ps[0].RecordSize() && off' == off + |ps[0].Tail()|
    ensures RecordAt(file, ps[0], pos, off) && RecordsAt(file, ps', next, off')
  {
    var n, m := ps[0].RecordSize(), RecordSizes(ps');
    Cut(file, pos, n, m, Record(ps[0], off), Records(ps', off'));
  }

  lemma FirstSums(ps: seq<Plan>, i: nat)
    requires 0 < i <= |ps|
    ensures RecordSizes(ps[..i]) == ps[0].RecordSize() + RecordSizes(ps[1..][..i - 1])
    ensures |Tails(ps[..i])| == |ps[0].Tail()| + |Tails(ps[1..][..i - 1])|
  {
    assert ps[1..][..i - 1] == ps[..i][1..] && ps[..i][0] == ps[0];
  }

  lemma {:induction false} RecordFurther(file: seq<byte>, ps: seq<Plan>, pos: nat, off: nat, i: nat, p: nat, o: nat)
    requires i < |ps| && RecordsAt(file, ps, pos, off)
    requires p == pos + RecordSizes(ps[..i]) && o == off + |Tails(ps[..i])|
    ensures RecordAt(file, ps[i], p, o)
    decreases i
  {
    var next, off', rest := Rest(file, ps, pos, off);
    if i == 0 {
      assert ps[..0] == [];
    } else {
      FirstSums(ps, i);
      RecordFurther(file, rest, next, off', i - 1, p, o);
    }
  }

  lemma Rest(file: seq<byte>, ps: seq<Plan>, pos: nat, off: nat) returns (next: nat, off': nat, rest: seq<Plan>)
    requires ps != [] && RecordsAt(file, ps, pos, off)
    ensures rest == ps[1..] && next == pos + ps[0].RecordSize() && off' == off + |ps[0].Tail()|
    ensures RecordAt(file, ps[0], pos, off) && RecordsAt(file, rest, next, off')
  {
    next, off', rest := pos + ps[0].RecordSize(), off + |ps[0].Tail()|, ps[1..];
    RecordsRest(file, ps, pos, off, rest, next, off');
  }

  // The record of chunk i stands behind those before it, and carries the chunk's offset.
  lemma RecordWhere(ps: seq<Plan>, i: nat)
    requires i < |ps|
    ensures RecordAt(ImgFile(ps), ps[i], 12 + RecordSizes(ps[..i]), TailOffset(ps, i))
  {
    RecordsStart(ps);
    TailOffsetIs(ps, i);
    RecordFurther(ImgFile(ps), ps, 12, HeaderSize(ps), i, 12 + RecordSizes(ps[..i]), TailOffset(ps, i));
  }

  lemma RecordsStart(ps: seq<Plan>)
    ensures RecordsAt(ImgFile(ps), ps, 12, HeaderSize(ps))
  {
    RecordsSize(ps, HeaderSize(ps));
    HeaderParts(IMG_MAGIC, Write4(|ps|), Records(ps, HeaderSize(ps)), Tails(ps));
  }

  lemma TailsRest(file: seq<byte>, ps: seq<Plan>, off: nat, ps': seq<Plan>, off': nat)
    requires TailsAt(file, ps, off) && ps != [] && ps' == ps[1..] && off' == off + |ps[0].Tail()|
    ensures TailsAt(file, ps', off')
  {
    CutTail(file, off, ps[0].Tail(), Tails(ps'));
  }

  lemma Cut(f: seq<byte>, p: nat, n: nat, m: nat, a: seq<byte>, b: seq<byte>)
    requires p + n + m <= |f| && f[p..p + n + m] == a + b && |a| == n
    ensures f[p..p + n] == a && f[p + n..p + n + m] == b
  {
    var w := f[p..p + n + m];
    assert f[p..p + n] == w[..n] && f[p + n..p + n + m] == w[n..];
  }

  lemma CutTail(f: seq<byte>, off: nat, a: seq<byte>, b: seq<byte>)
    requires off <= |f| && f[off..] == a + b
    ensures off + |a| <= |f| && f[off + |a|..] == b
  {
    assert f[off + |a|..] == f[off..][|a|..];
  }

  lemma ApplyOne(z: Codec, zl: Zlib, src: seq<byte>, file: seq<byte>, bonus: Option<seq<byte>>, i: nat, n: nat,
                 pos: nat, next: nat, t: seq<byte>, rest: seq<byte>)
    requires i < n && OutcomeAt(z, zl, src, file, Extra(bonus, i), pos) == Emit(t, next)
    requires ApplyFrom(z, zl, src, file, bonus, i + 1, n, next) == Applied(0, rest)
    ensures ApplyFrom(z, zl, src, file, bonus, i, n, pos) == Applied(0, t + rest)
  {
  }

  lemma FirstEmits(z: Codec, zl: Zlib, src: seq<byte>, file: seq<byte>, ps: seq<Plan>, extra: seq<byte>, t: seq<byte>,
                   pos: nat, off: nat)
    requires ps != [] && Makes(z, zl, src, ps[0], extra, t)
    requires RecordAt(file, ps[0], pos, off) && TailsAt(file, ps, off)
    ensures OutcomeAt(z, zl, src, file, extra, pos) == Emit(t, pos + ps[0].RecordSize())
  {
    RecordReads(z, zl, src, file, ps[0], extra, pos, off, Tails(ps[1..]), t);
  }

  // The first record makes the first piece and leaves the others as they were.
  lemma FirstReads(z: Codec, zl: Zlib, src: seq<byte>, file: seq<byte>, ps: seq<Plan>, bonus: Option<seq<byte>>,
                   ts: seq<seq<byte>>, i: nat, pos: nat, off: nat)
    returns (next: nat, off': nat, ps': seq<Plan>, ts': seq<seq<byte>>)
    requires ps != [] && MakesAll(z, zl, src, ps, bonus, i, ts) && RecordsAt(file, ps, pos, off)
             && TailsAt(file, ps, off)
    ensures OutcomeAt(z, zl, src, file, Extra(bonus, i), pos) == Emit(ts[0], next)
    ensures |ps'| == |ps| - 1 && MakesAll(z, zl, src, ps', bonus, i + 1, ts')
    ensures RecordsAt(file, ps', next, off') && TailsAt(file, ps', off') && Concat(ts) == ts[0] + Concat(ts')
  {
    next, off', ps', ts' := pos + ps[0].RecordSize(), off + |ps[0].Tail()|, ps[1..], ts[1..];
    MakesRest(z, zl, src, ps, bonus, i, ts, ps', ts');
    RecordsRest(file, ps, pos, off, ps', next, off');
    TailsRest(file, ps, off, ps', off');
    FirstEmits(z, zl, src, file, ps, Extra(bonus, i), ts[0], pos, off);
  }

  // Reading back the records of plans gives what the plans make.
  lemma {:induction false} ApplyLaidOut(z: Codec, zl: Zlib, src: seq<byte>, file: seq<byte>, ps: seq<Plan>,
                                        bonus: Option<seq<byte>>,
                                        ts: seq<seq<byte>>, i: nat, n: nat, pos: nat, off: nat)
    requires n == i + |ps| && MakesAll(z, zl, src, ps, bonus, i, ts) && RecordsAt(file, ps, pos, off)
             && TailsAt(file, ps, off)
    ensures ApplyFrom(z, zl, src, file, bonus, i, n, pos) == Applied(0, Concat(ts))
    decreases |ps|
  {
    if ps != [] {
      var next, off', ps', ts' := FirstReads(z, zl, src, file, ps, bonus, ts, i, pos, off);
      ApplyLaidOut(z, zl, src, file, ps', bonus, ts', i + 1, n, next, off');
      ApplyOne(z, zl, src, file, bonus, i, n, pos, next, ts[0], Concat(ts'));
    }
  }

  // The file written for plans that make the pieces of the target turns the source into
  // the target.
  lemma ImgRoundTrip(z: Codec, zl: Zlib, src: seq<byte>, ps: seq<Plan>, bonus: Option<seq<byte>>, ts: seq<seq<byte>>)
    requires MakesAll(z, zl, src, ps, bonus, 0, ts) && |ps| < TWO31 && |ImgFile(ps)| < TWO63
    ensures Apply(z, zl, src, ImgFile(ps), bonus) == Applied(0, Concat(ts))
  {
    var f, h := ImgFile(ps), HeaderSize(ps);
    RecordsSize(ps, h);
    HeaderParts(IMG_MAGIC, Write4(|ps|), Records(ps, h), Tails(ps));
    Write4RoundTrip(|ps|);
    ApplyLaidOut(z, zl, src, f, ps, bonus, ts, 0, |ps|, 12, h);
  }

  lemma HeaderParts(m: seq<byte>, n: seq<byte>, r: seq<byte>, t: seq<byte>)
    requires |m| == 8 && |n| == 4
    ensures var f := m + n + r + t;
            f[..8] == m && f[8..12] == n && f[12..12 + |r|] == r && f[12 + |r|..] == t
  {
  }
}
