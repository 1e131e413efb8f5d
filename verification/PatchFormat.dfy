// The BSDIFF40 format: a header, and three compressed streams of control triples, byte
// differences and extra bytes.  Replay says what a reader makes of the streams; Builds
// says what a writer puts into them; the lemmas show that the two agree.
module PatchFormat {
  import opened Bytes
  import opened Endian

  // A stream compressor.  unpack gives the bytes a decompressor delivers from the start
  // of its input until it meets the end of the stream or an error.
  datatype Codec = Codec(pack: seq<byte> -> seq<byte>, unpack: seq<byte> -> seq<byte>)

  // A packed stream marks its own end: whatever follows it is not read.
  ghost predicate Faithful(z: Codec)
  {
    forall x, tail {:trigger z.unpack(z.pack(x) + tail)} :: z.unpack(z.pack(x) + tail) == x
  }

  // Such compressors exist: one writes a 1 before each byte and a 0 at the end.
  function PackBytes(x: seq<byte>): (p: seq<byte>)
  {
    if x == [] then [0] else [1, x[0]] + PackBytes(x[1..])
  }

  function UnpackBytes(p: seq<byte>): (x: seq<byte>)
  {
    if 2 <= |p| && p[0] == 1 then [p[1]] + UnpackBytes(p[2..]) else []
  }

  lemma {:induction false} PackedReads(x: seq<byte>, tail: seq<byte>)
    ensures UnpackBytes(PackBytes(x) + tail) == x
  {
    if x != [] {
      PackedReads(x[1..], tail);
      assert (PackBytes(x) + tail)[2..] == PackBytes(x[1..]) + tail;
    }
  }

  lemma SomeCodecIsFaithful()
    ensures Faithful(Codec(PackBytes, UnpackBytes))
  {
    forall x: seq<byte>, tail
      ensures UnpackBytes(PackBytes(x) + tail) == x
    {
      PackedReads(x, tail);
    }
  }

  // Add add bytes of differences to the old data, copy copy extra bytes, then move seek
  // further in the old data.
  datatype Triple = Triple(add: int, copy: int, seek: int)

  function EncodeTriple(t: Triple): (b: seq<byte>)
    ensures |b| == 24
  {
    OfftOut(t.add) + OfftOut(t.copy) + OfftOut(t.seek)
  }

  function DecodeTriple(c: seq<byte>): (t: Triple)
    requires |c| == 24
  {
    Triple(OfftIn(c[..8]), OfftIn(c[8..16]), OfftIn(c[16..24]))
  }

  // The whole triples of a control stream.
  function Triples(c: seq<byte>): (ts: seq<Triple>)
    ensures |ts| == |c| / 24
  {
    seq(|c| / 24, k requires 0 <= k < |c| / 24 => DecodeTriple(c[24 * k..24 * k + 24]))
  }

  lemma TriplesCons(b: seq<byte>, c: seq<byte>)
    requires |b| == 24
    ensures Triples(b + c) == [DecodeTriple(b)] + Triples(c)
  {
    var l, r := Triples(b + c), [DecodeTriple(b)] + Triples(c);
    forall k | 0 <= k < |l|
      ensures l[k] == r[k]
    {
      if k == 0 {
        assert (b + c)[0..24] == b;
      } else {
        assert (b + c)[24 * k..24 * k + 24] == c[24 * (k - 1)..24 * (k - 1) + 24];
      }
    }
  }

  // Every field fits the signed form.
  ghost predicate Encodable(t: Triple)
  {
    -TWO63 < t.add < TWO63 && -TWO63 < t.copy < TWO63 && -TWO63 < t.seek < TWO63
  }

  lemma TripleRoundTrip(t: Triple)
    requires Encodable(t)
    ensures DecodeTriple(EncodeTriple(t)) == t
  {
    var c := EncodeTriple(t);
    assert c[..8] == OfftOut(t.add) && c[8..16] == OfftOut(t.copy) && c[16..24] == OfftOut(t.seek);
    OfftRoundTrip(t.add);
    OfftRoundTrip(t.copy);
    OfftRoundTrip(t.seek);
  }

  // One step of a patch, with the bytes it puts into the difference and extra streams.
  datatype Step = Step(diff: seq<byte>, extra: seq<byte>, seek: int) {
    function Control(): Triple {
      Triple(|diff|, |extra|, seek)
    }
  }

  // The bytes the steps put into a stream, one after the other.
  function StreamOf(f: Step -> seq<byte>, g: seq<Step>): (b: seq<byte>)
  {
    if g == [] then [] else f(g[0]) + StreamOf(f, g[1..])
  }

  function ControlBytes(x: Step): (b: seq<byte>)
    ensures |b| == 24
  {
    EncodeTriple(x.Control())
  }

  function DiffBytes(x: Step): (b: seq<byte>)
  {
    x.diff
  }

  function ExtraBytes(x: Step): (b: seq<byte>)
  {
    x.extra
  }

  // The three streams of a list of steps.
  function ControlOf(g: seq<Step>): (b: seq<byte>)
  {
    StreamOf(ControlBytes, g)
  }

  function DiffOf(g: seq<Step>): (b: seq<byte>)
  {
    StreamOf(DiffBytes, g)
  }

  function ExtraOf(g: seq<Step>): (b: seq<byte>)
  {
    StreamOf(ExtraBytes, g)
  }

  // The old byte at position p, or nothing to add when p is outside the old data.
  function OldByte(base: seq<byte>, p: int): (b: byte)
  {
    if 0 <= p < |base| then base[p] else 0
  }

  // Differences added to the old data from position p on.
  function AddOld(base: seq<byte>, diff: seq<byte>, p: int): (r: seq<byte>)
    ensures |r| == |diff|
    ensures forall i :: 0 <= i < |diff| ==> r[i] == (diff[i] as int + OldByte(base, p + i)) % 256
  {
    seq(|diff|, i requires 0 <= i < |diff| => (diff[i] as int + OldByte(base, p + i)) % 256)
  }

  // What reading has produced, and what is left of the streams.
  datatype Replayed = Replayed(out: seq<byte>, ctrl: seq<Triple>, diff: seq<byte>, extra: seq<byte>)

  // Follow triples until todo more bytes are there; None when a stream runs dry or a
  // triple reaches past the end of the output.
  function Replay(base: seq<byte>, ts: seq<Triple>, d: seq<byte>, e: seq<byte>, p: int,
                  todo: nat): (r: Option<Replayed>)
    ensures r.Some? ==> |r.value.out| == todo
    decreases |ts|
  {
    if todo == 0 then
      Some(Replayed([], ts, d, e))
    else if ts == [] then
      None
    else
      var t := ts[0];
      if t.add > todo || t.add < 0 || |d| < t.add || t.copy > todo - t.add || t.copy < 0 || |e| < t.copy then
        None
      else
        var r := Replay(base, ts[1..], d[t.add..], e[t.copy..], p + t.add + t.seek, todo - t.add - t.copy);
        Prepend(AddOld(base, d[..t.add], p) + e[..t.copy], r)
  }

  function Prepend(front: seq<byte>, r: Option<Replayed>): (q: Option<Replayed>)
  {
    if r.None? then None else Some(r.value.(out := front + r.value.out))
  }

  lemma PrependTwice(a: seq<byte>, b: seq<byte>, r: Option<Replayed>)
    ensures Prepend(a, Prepend(b, r)) == Prepend(a + b, r)
  {
    if r.Some? {
      assert a + (b + r.value.out) == (a + b) + r.value.out;
    }
  }

  // What the steps build from the old data, starting at position p of it.
  function Output(base: seq<byte>, g: seq<Step>, p: int): (out: seq<byte>)
  {
    if g == [] then []
    else AddOld(base, g[0].diff, p) + g[0].extra + Output(base, g[1..], p + |g[0].diff| + g[0].seek)
  }

  // Where in the old data the steps leave the reader.
  function Position(g: seq<Step>, p: int): (q: int)
  {
    if g == [] then p else Position(g[1..], p + |g[0].diff| + g[0].seek)
  }

  // Another step at the end adds its bytes to each stream and to the output.
  lemma {:induction false} StreamMore(f: Step -> seq<byte>, g: seq<Step>, x: Step)
    ensures StreamOf(f, g + [x]) == StreamOf(f, g) + f(x)
  {
    if g != [] {
      StreamMore(f, g[1..], x);
      assert (g + [x])[1..] == g[1..] + [x];
    } else {
      assert (g + [x])[1..] == [];
    }
  }

  lemma StreamsMore(g: seq<Step>, x: Step)
    ensures ControlOf(g + [x]) == ControlOf(g) + EncodeTriple(x.Control())
    ensures DiffOf(g + [x]) == DiffOf(g) + x.diff && ExtraOf(g + [x]) == ExtraOf(g) + x.extra
  {
    StreamMore(ControlBytes, g, x);
    StreamMore(DiffBytes, g, x);
    StreamMore(ExtraBytes, g, x);
  }

  lemma {:induction false} OutputMore(base: seq<byte>, g: seq<Step>, x: Step, p: int)
    ensures Output(base, g + [x], p) == Output(base, g, p) + (AddOld(base, x.diff, Position(g, p)) + x.extra)
    ensures Position(g + [x], p) == Position(g, p) + |x.diff| + x.seek
  {
    if g != [] {
      OutputMore(base, g[1..], x, p + |g[0].diff| + g[0].seek);
      assert (g + [x])[1..] == g[1..] + [x];
    } else {
      assert (g + [x])[1..] == [];
    }
  }

  // The output is as long as the difference and extra streams together.
  lemma {:induction false} OutputSize(base: seq<byte>, g: seq<Step>, p: int)
    ensures |Output(base, g, p)| == |DiffOf(g)| + |ExtraOf(g)|
  {
    if g != [] {
      OutputSize(base, g[1..], p + |g[0].diff| + g[0].seek);
    }
  }

  // All steps can be encoded, and the last one adds something, so that a reader who has
  // the whole output has read it.
  ghost predicate Readable(g: seq<Step>)
  {
    && (forall i :: 0 <= i < |g| ==> Encodable(g[i].Control()))
    && (g != [] ==> g[|g| - 1].diff != [] || g[|g| - 1].extra != [])
  }

  // The triples of a list of steps.
  function Controls(g: seq<Step>): (ts: seq<Triple>)
  {
    if g == [] then [] else [g[0].Control()] + Controls(g[1..])
  }

  lemma {:induction false} ControlsRoundTrip(g: seq<Step>)
    requires Readable(g)
    ensures Triples(ControlOf(g)) == Controls(g)
  {
    if g != [] {
      ControlsRoundTrip(g[1..]);
      TripleRoundTrip(g[0].Control());
      TriplesCons(EncodeTriple(g[0].Control()), ControlOf(g[1..]));
    }
  }

  // One step, read off the front of the streams.
  lemma ReplayOne(base: seq<byte>, x: Step, ts0: seq<Triple>, d0: seq<byte>, e0: seq<byte>, p: int, n: nat,
                  ts: seq<Triple>, d: seq<byte>, e: seq<byte>, q: int, todo: nat)
    requires ts0 == [x.Control()] + ts && d0 == x.diff + d && e0 == x.extra + e
    requires n == |x.diff| + |x.extra| + todo > 0 && q == p + |x.diff| + x.seek
    ensures Replay(base, ts0, d0, e0, p, n)
            == Prepend(AddOld(base, x.diff, p) + x.extra, Replay(base, ts, d, e, q, todo))
  {
    assert ts0[0] == x.Control() && ts0[1..] == ts;
    assert d0[..|x.diff|] == x.diff && d0[|x.diff|..] == d;
    assert e0[..|x.extra|] == x.extra && e0[|x.extra|..] == e;
  }

  lemma ReplayFirst(base: seq<byte>, g: seq<Step>, p: int, q: int, todo: nat)
    requires g != [] && Readable(g) && q == p + |g[0].diff| + g[0].seek && todo == |Output(base, g[1..], q)|
    ensures Replay(base, Controls(g), DiffOf(g), ExtraOf(g), p, |Output(base, g, p)|)
         == Prepend(AddOld(base, g[0].diff, p) + g[0].extra,
                    Replay(base, Controls(g[1..]), DiffOf(g[1..]), ExtraOf(g[1..]), q, todo))
  {
    LastShows(base, g, p);
    ReplayOne(base, g[0], Controls(g), DiffOf(g), ExtraOf(g), p, |Output(base, g, p)|,
              Controls(g[1..]), DiffOf(g[1..]), ExtraOf(g[1..]), q, todo);
  }

  // Reading back the streams of a list of steps gives its output and uses them all up.
  lemma {:induction false} ReplayAll(base: seq<byte>, g: seq<Step>, p: int)
    requires Readable(g)
    ensures Replay(base, Controls(g), DiffOf(g), ExtraOf(g), p, |Output(base, g, p)|)
         == Some(Replayed(Output(base, g, p), [], [], []))
    decreases |g|
  {
    if g != [] {
      var q := p + |g[0].diff| + g[0].seek;
      ReplayAll(base, g[1..], q);
      ReplayFirst(base, g, p, q, |Output(base, g[1..], q)|);
    }
  }

  lemma {:induction false} LastShows(base: seq<byte>, g: seq<Step>, p: int)
    requires Readable(g) && g != []
    ensures Output(base, g, p) != []
    decreases |g|
  {
    if |g| > 1 {
      LastShows(base, g[1..], p + |g[0].diff| + g[0].seek);
    }
  }

  const MAGIC: seq<byte> := [66, 83, 68, 73, 70, 70, 52, 48] // "BSDIFF40"

  // The file bsdiff writes (bsdiff.c:261-402).
  function PatchFile(z: Codec, g: seq<Step>, newSize: nat): (f: seq<byte>)
    ensures 32 <= |f|
  {
    var c, dz := z.pack(ControlOf(g)), z.pack(DiffOf(g));
    MAGIC + OfftOut(|c|) + OfftOut(|dz|) + OfftOut(newSize) + c + dz + z.pack(ExtraOf(g))
  }

  // Up to n bytes of f from position a on.
  function Window(f: seq<byte>, a: int, n: int): (w: seq<byte>)
  {
    if a < 0 || |f| <= a || n <= 0 then [] else if a + n <= |f| then f[a..a + n] else f[a..]
  }

  datatype Header = Header(ctrlLen: int, dataLen: int, newSize: int)

  // The header at offset at, if it is one (bspatch.c:138-152).
  function ReadHeader(f: seq<byte>, at: nat): (h: Option<Header>)
    ensures h.Some? ==> at + 32 <= |f| && 0 <= h.value.ctrlLen && 0 <= h.value.dataLen && 0 <= h.value.newSize
  {
    if |f| < at + 32 || f[at..at + 8] != MAGIC then None
    else
      var h := Header(OfftIn(f[at + 8..at + 16]), OfftIn(f[at + 16..at + 24]), OfftIn(f[at + 24..at + 32]));
      if h.ctrlLen < 0 || h.dataLen < 0 || h.newSize < 0 then None else Some(h)
  }

  // The decompressed streams of the patch at offset at (bspatch.c:156-184).
  function Streams(z: Codec, f: seq<byte>, at: nat, h: Header): (r: (seq<byte>, seq<byte>, seq<byte>))
  {
    var a := at + 32;
    (z.unpack(Window(f, a, h.ctrlLen)),
     z.unpack(Window(f, a + h.ctrlLen, h.dataLen)),
     z.unpack(Window(f, a + h.ctrlLen + h.dataLen, |f|)))
  }

  // What a patch at offset at of f turns the old data into, if anything.
  function Patched(z: Codec, base: seq<byte>, f: seq<byte>, at: nat): (r: Option<seq<byte>>)
  {
    match ReadHeader(f, at)
    case None => None
    case Some(h) =>
      var (c, d, e) := Streams(z, f, at, h);
      match Replay(base, Triples(c), d, e, 0, h.newSize)
      case None => None
      case Some(r) => Some(r.out)
  }

  // A patch file of manageable size.
  ghost predicate Storable(z: Codec, g: seq<Step>)
  {
    |z.pack(ControlOf(g))| < TWO63 && |z.pack(DiffOf(g))| < TWO63
  }

  // The four fields of a header.
  lemma HeaderFields(f: seq<byte>, front: seq<byte>, m: seq<byte>, a: seq<byte>, b: seq<byte>, c: seq<byte>,
                     rest: seq<byte>)
    requires |m| == |a| == |b| == |c| == 8 && f == front + (m + a + b + c) + rest
    ensures var n := |front|;
            && n + 32 <= |f| && f[n..n + 8] == m && f[n + 8..n + 16] == a && f[n + 16..n + 24] == b
            && f[n + 24..n + 32] == c
  {
  }

  lemma HeaderRoundTrip(z: Codec, g: seq<Step>, newSize: nat, front: seq<byte>, back: seq<byte>)
    requires Storable(z, g) && newSize < TWO63
    ensures ReadHeader(front + PatchFile(z, g, newSize) + back, |front|)
         == Some(Header(|z.pack(ControlOf(g))|, |z.pack(DiffOf(g))|, newSize))
  {
    var c, dz, ez := z.pack(ControlOf(g)), z.pack(DiffOf(g)), z.pack(ExtraOf(g));
    Regroup(front, MAGIC + OfftOut(|c|) + OfftOut(|dz|) + OfftOut(newSize), c, dz, ez, back);
    Reassociate(front, MAGIC + OfftOut(|c|) + OfftOut(|dz|) + OfftOut(newSize), c, dz, ez + back);
    HeaderFields(front + PatchFile(z, g, newSize) + back, front, MAGIC, OfftOut(|c|), OfftOut(|dz|), OfftOut(newSize),
                 c + dz + (ez + back));
    OfftRoundTrip(|c|);
    OfftRoundTrip(|dz|);
    OfftRoundTrip(newSize);
  }

  lemma Reassociate(a: seq<byte>, b: seq<byte>, c: seq<byte>, d: seq<byte>, e: seq<byte>)
    ensures (a + b) + c + d + e == a + b + (c + d + e)
  {
  }

  lemma WindowOf(f: seq<byte>, front: seq<byte>, w: seq<byte>, back: seq<byte>)
    requires f == front + w + back
    ensures Window(f, |front|, |w|) == w
    ensures back == [] ==> Window(f, |front|, |f|) == w
  {
  }

  lemma Regroup(front: seq<byte>, head: seq<byte>, c: seq<byte>, d: seq<byte>, e: seq<byte>, back: seq<byte>)
    ensures front + (head + c + d + e) + back == (front + head) + c + d + (e + back)
  {
  }

  // The three windows the header points at, in a patch written by PatchFile.
  lemma PatchWindows(f: seq<byte>, front: seq<byte>, c: seq<byte>, dz: seq<byte>, ez: seq<byte>)
    requires f == front + c + dz + ez
    ensures Window(f, |front|, |c|) == c
    ensures Window(f, |front| + |c|, |dz|) == dz
    ensures Window(f, |front| + |c| + |dz|, |f|) == ez
  {
    WindowOf(f, front, c, dz + ez);
    WindowOf(f, front + c, dz, ez);
    WindowOf(f, front + c + dz, ez, []);
  }

  lemma StreamsRoundTrip(z: Codec, g: seq<Step>, newSize: nat, front: seq<byte>, back: seq<byte>)
    requires Faithful(z)
    ensures Streams(z, front + PatchFile(z, g, newSize) + back, |front|,
                    Header(|z.pack(ControlOf(g))|, |z.pack(DiffOf(g))|, newSize))
         == (ControlOf(g), DiffOf(g), ExtraOf(g))
  {
    var c, dz, ez := z.pack(ControlOf(g)), z.pack(DiffOf(g)), z.pack(ExtraOf(g));
    var head := MAGIC + OfftOut(|c|) + OfftOut(|dz|) + OfftOut(newSize);
    Regroup(front, head, c, dz, ez, back);
    PatchWindows(front + PatchFile(z, g, newSize) + back, front + head, c, dz, ez + back);
    Unpacks(z, ControlOf(g));
    Unpacks(z, DiffOf(g));
  }

  lemma Unpacks(z: Codec, x: seq<byte>)
    requires Faithful(z)
    ensures z.unpack(z.pack(x)) == x
  {
    assert z.pack(x) + [] == z.pack(x);
  }

  // A patch written for a list of steps yields its output, wherever in a file the patch
  // stands.
  lemma PatchRoundTrip(z: Codec, base: seq<byte>, g: seq<Step>, front: seq<byte>, back: seq<byte>)
    requires Faithful(z) && Storable(z, g) && Readable(g) && |Output(base, g, 0)| < TWO63
    ensures Patched(z, base, front + PatchFile(z, g, |Output(base, g, 0)|) + back, |front|) == Some(Output(base, g, 0))
  {
    var n := |Output(base, g, 0)|;
    HeaderRoundTrip(z, g, n, front, back);
    StreamsRoundTrip(z, g, n, front, back);
    ControlsRoundTrip(g);
    ReplayAll(base, g, 0);
  }

  // The streams begin with those of the steps.
  ghost predicate Fronts(g: seq<Step>, ts: seq<Triple>, d: seq<byte>, e: seq<byte>)
  {
    Controls(g) <= ts && DiffOf(g) <= d && ExtraOf(g) <= e
  }

  // What the steps leave of the streams is what r has.
  ghost predicate Uses(g: seq<Step>, ts: seq<Triple>, d: seq<byte>, e: seq<byte>, r: Replayed)
  {
    ts == Controls(g) + r.ctrl && d == DiffOf(g) + r.diff && e == ExtraOf(g) + r.extra
  }

  // The steps read off the front of the streams.
  lemma {:induction false} ReplaySteps(base: seq<byte>, ts: seq<Triple>, d: seq<byte>, e: seq<byte>, p: int, todo: nat)
    returns (g: seq<Step>)
    requires Replay(base, ts, d, e, p, todo).Some?
    ensures var r := Replay(base, ts, d, e, p, todo).value;
            Uses(g, ts, d, e, r) && Fronts(g, ts, d, e) && Output(base, g, p) == r.out
    decreases |ts|
  {
    if todo == 0 {
      assert [] + ts == ts && [] + d == d && [] + e == e;
      return [];
    }
    var x, q, left := FirstTriple(base, ts, d, e, p, todo);
    var rest := ReplaySteps(base, ts[1..], d[|x.diff|..], e[|x.extra|..], q, left);
    FrontsMore(x, rest, ts, d, e);
    UsesMore(x, rest, ts, d, e, Replay(base, ts[1..], d[|x.diff|..], e[|x.extra|..], q, left).value);
    FirstStep(base, x, rest, p);
    g := [x] + rest;
  }

  lemma FirstTriple(base: seq<byte>, ts: seq<Triple>, d: seq<byte>, e: seq<byte>, p: int, todo: nat)
    returns (x: Step, q: int, left: nat)
    requires Replay(base, ts, d, e, p, todo).Some? && todo > 0
    ensures ts != [] && ts[0] == x.Control() && q == p + |x.diff| + x.seek
    ensures x.diff <= d && x.extra <= e
    ensures var r := Replay(base, ts[1..], d[|x.diff|..], e[|x.extra|..], q, left);
            && r.Some?
            && Replay(base, ts, d, e, p, todo).value
               == r.value.(out := AddOld(base, x.diff, p) + x.extra + r.value.out)
  {
    var t := ts[0];
    x, q, left := Step(d[..t.add], e[..t.copy], t.seek), p + t.add + t.seek, todo - t.add - t.copy;
  }

  lemma UsesMore(x: Step, rest: seq<Step>, ts: seq<Triple>, d: seq<byte>, e: seq<byte>, r: Replayed)
    requires ts != [] && ts[0] == x.Control() && x.diff <= d && x.extra <= e
    requires Uses(rest, ts[1..], d[|x.diff|..], e[|x.extra|..], r)
    ensures Uses([x] + rest, ts, d, e, r)
  {
    FirstStep([], x, rest, 0);
    Rejoined(ts, [ts[0]], Controls(rest), r.ctrl);
    Rejoined(d, x.diff, DiffOf(rest), r.diff);
    Rejoined(e, x.extra, ExtraOf(rest), r.extra);
  }

  lemma Rejoined<T>(s: seq<T>, a: seq<T>, b: seq<T>, c: seq<T>)
    requires a <= s && s[|a|..] == b + c
    ensures s == (a + b) + c
  {
    assert s == a + s[|a|..];
  }

  lemma FrontsMore(x: Step, rest: seq<Step>, ts: seq<Triple>, d: seq<byte>, e: seq<byte>)
    requires ts != [] && ts[0] == x.Control() && x.diff <= d && x.extra <= e
    requires Fronts(rest, ts[1..], d[|x.diff|..], e[|x.extra|..])
    ensures Fronts([x] + rest, ts, d, e)
  {
    FirstStep([], x, rest, 0);
    FrontOf(ts, [ts[0]], Controls(rest));
    FrontOf(d, x.diff, DiffOf(rest));
    FrontOf(e, x.extra, ExtraOf(rest));
  }

  lemma FirstStep(base: seq<byte>, x: Step, rest: seq<Step>, p: int)
    ensures var g := [x] + rest;
            && Controls(g) == [x.Control()] + Controls(rest) && DiffOf(g) == x.diff + DiffOf(rest)
            && ExtraOf(g) == x.extra + ExtraOf(rest)
            && Output(base, g, p) == AddOld(base, x.diff, p) + x.extra + Output(base, rest, p + |x.diff| + x.seek)
  {
    assert ([x] + rest)[1..] == rest;
  }

  lemma FrontOf<T>(s: seq<T>, a: seq<T>, b: seq<T>)
    requires |a| <= |s| && a == s[..|a|] && b <= s[|a|..]
    ensures a + b <= s
  {
    assert s == a + s[|a|..];
  }

  lemma BehindFront<T>(s: seq<T>, a: seq<T>, b: seq<T>)
    requires a + b <= s
    ensures |a| <= |s| && s[..|a|] == a && b <= s[|a|..]
  {
    var n := |a| + |b|;
    assert s[..|a|] == s[..n][..|a|] == a;
    assert s[|a|..][..|b|] == s[..n][|a|..] == b;
  }

  // Streams that begin with those of steps whose output is as long as wanted give this output.
  lemma {:induction false} StepsReplay(base: seq<byte>, g: seq<Step>, ts: seq<Triple>, d: seq<byte>, e: seq<byte>,
                                       p: int)
    requires Fronts(g, ts, d, e)
    ensures var r := Replay(base, ts, d, e, p, |Output(base, g, p)|);
            r.Some? && r.value.out == Output(base, g, p)
    decreases |g|
  {
    if Output(base, g, p) != [] {
      var x, rest := g[0], g[1..];
      BehindFront(ts, [x.Control()], Controls(rest));
      BehindFront(d, x.diff, DiffOf(rest));
      BehindFront(e, x.extra, ExtraOf(rest));
      assert ts[0] == ts[..1][0] == x.Control();
      StepsReplay(base, rest, ts[1..], d[|x.diff|..], e[|x.extra|..], p + |x.diff| + x.seek);
    }
  }

  // The patch of these steps, or more, stands at offset at of f: what its header says is where
  // the streams are, and how long the output is.
  ghost predicate PatchOf(z: Codec, base: seq<byte>, f: seq<byte>, at: nat, g: seq<Step>)
  {
    && at + 32 <= |f| && f[at..at + 8] == [0x42, 0x53, 0x44, 0x49, 0x46, 0x46, 0x34, 0x30]
    && var c, n, size := OfftIn(f[at + 8..at + 16]), OfftIn(f[at + 16..at + 24]), OfftIn(f[at + 24..at + 32]);
       && 0 <= c && 0 <= n && size == |Output(base, g, 0)|
       && Fronts(g, Triples(z.unpack(UpTo(f, at + 32, c))), z.unpack(UpTo(f, at + 32 + c, n)),
                 z.unpack(UpTo(f, at + 32 + c + n, |f|)))
  }

  // Up to n bytes of f from off on: what Window gives where nothing is negative (WindowIs), said
  // without it.
  function UpTo(f: seq<byte>, off: nat, n: nat): (w: seq<byte>)
  {
    if |f| <= off then [] else if |f| < off + n then f[off..] else f[off..off + n]
  }

  lemma WindowIs(f: seq<byte>, off: nat, n: nat)
    ensures Window(f, off, n) == UpTo(f, off, n)
  {
  }

  // A patch turns the old data into something exactly if it is the patch of some steps, and
  // then into their output.
  lemma PatchedIff(z: Codec, base: seq<byte>, f: seq<byte>, at: nat, t: seq<byte>)
    ensures Patched(z, base, f, at) == Some(t)
            <==> exists g {:trigger Output(base, g, 0)} :: PatchOf(z, base, f, at, g) && t == Output(base, g, 0)
  {
    if Patched(z, base, f, at) == Some(t) {
      var g := PatchedSteps(z, base, f, at);
      assert t == Output(base, g, 0);
    }
    forall g | PatchOf(z, base, f, at, g) && t == Output(base, g, 0)
      ensures Patched(z, base, f, at) == Some(t)
    {
      StepsPatched(z, base, f, at, g);
    }
  }

  lemma HeaderIs(z: Codec, f: seq<byte>, at: nat, h: Header)
    ensures ReadHeader(f, at) == Some(h) <==>
              && at + 32 <= |f| && f[at..at + 8] == [0x42, 0x53, 0x44, 0x49, 0x46, 0x46, 0x34, 0x30]
              && h.ctrlLen == OfftIn(f[at + 8..at + 16]) >= 0 && h.dataLen == OfftIn(f[at + 16..at + 24]) >= 0
              && h.newSize == OfftIn(f[at + 24..at + 32]) >= 0
    ensures h.ctrlLen >= 0 && h.dataLen >= 0 ==>
              Streams(z, f, at, h) == (z.unpack(UpTo(f, at + 32, h.ctrlLen)),
                                       z.unpack(UpTo(f, at + 32 + h.ctrlLen, h.dataLen)),
                                       z.unpack(UpTo(f, at + 32 + h.ctrlLen + h.dataLen, |f|)))
  {
    if h.ctrlLen >= 0 && h.dataLen >= 0 {
      WindowIs(f, at + 32, h.ctrlLen);
      WindowIs(f, at + 32 + h.ctrlLen, h.dataLen);
      WindowIs(f, at + 32 + h.ctrlLen + h.dataLen, |f|);
    }
  }

  lemma PatchedSteps(z: Codec, base: seq<byte>, f: seq<byte>, at: nat) returns (g: seq<Step>)
    requires Patched(z, base, f, at).Some?
    ensures PatchOf(z, base, f, at, g) && Patched(z, base, f, at) == Some(Output(base, g, 0))
  {
    var h := ReadHeader(f, at).value;
    var (c, d, e) := Streams(z, f, at, h);
    g := ReplaySteps(base, Triples(c), d, e, 0, h.newSize);
    StepsAre(z, base, f, at, g, h, c, d, e);
  }

  lemma StepsAre(z: Codec, base: seq<byte>, f: seq<byte>, at: nat, g: seq<Step>, h: Header, c: seq<byte>,
                 d: seq<byte>, e: seq<byte>)
    requires ReadHeader(f, at) == Some(h) && Streams(z, f, at, h) == (c, d, e)
    requires Fronts(g, Triples(c), d, e) && |Output(base, g, 0)| == h.newSize
    ensures PatchOf(z, base, f, at, g)
  {
    HeaderIs(z, f, at, h);
  }

  lemma StepsPatched(z: Codec, base: seq<byte>, f: seq<byte>, at: nat, g: seq<Step>)
    requires PatchOf(z, base, f, at, g)
    ensures Patched(z, base, f, at) == Some(Output(base, g, 0))
  {
    var h := Header(OfftIn(f[at + 8..at + 16]), OfftIn(f[at + 16..at + 24]), OfftIn(f[at + 24..at + 32]));
    HeaderIs(z, f, at, h);
    var (c, d, e) := Streams(z, f, at, h);
    StepsReplay(base, g, Triples(c), d, e, 0);
  }
}
