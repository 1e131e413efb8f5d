// ApplyBSDiffPatchMem (bspatch.c:84-252): the reader of BSDIFF40 patches.
module Bspatch {
  import opened Bytes
  import opened PatchFormat

  // A decompressor: the bytes it has yet to deliver before its input ends or turns bad.
  class BzStream {
    var pending: seq<byte>

    constructor (bytes: seq<byte>)
      ensures pending == bytes
    {
      pending := bytes;
    }
  }

  // FillBuffer (bspatch.c:84-98): move size bytes from the stream to buffer[at..].  It
  // fails when the stream cannot deliver them.
  method FillBuffer(buffer: array<byte>, at: nat, size: int, stream: BzStream) returns (ok: bool)
    requires at <= buffer.Length && at + size <= buffer.Length
    modifies buffer, stream
    ensures ok <==> 0 <= size <= |old(stream.pending)|
    ensures ok ==> stream.pending == old(stream.pending)[size..]
    ensures ok ==> buffer[..] == old(buffer[..at]) + old(stream.pending)[..size] + old(buffer[at + size..])
  {
    if size < 0 || |stream.pending| < size {
      return false;
    }
    ghost var was := buffer[..];
    var i := 0;
    while i < size
      invariant 0 <= i <= size && stream.pending == old(stream.pending)
      invariant buffer[..] == was[..at] + stream.pending[..i] + was[at + i..]
    {
      CopyOne(was, stream.pending, at, i);
      buffer[at + i] := stream.pending[i];
      i := i + 1;
    }
    stream.pending := stream.pending[size..];
    return true;
  }

  // Add the old data to the differences just read (bspatch.c:221-225).
  method AddOldData(buffer: array<byte>, at: nat, size: nat, base: seq<byte>, p: int)
    requires at + size <= buffer.Length
    modifies buffer
    ensures buffer[..] == old(buffer[..at]) + AddOld(base, old(buffer[at..at + size]), p) + old(buffer[at + size..])
  {
    ghost var was := buffer[..];
    var i := 0;
    while i < size
      invariant 0 <= i <= size
      invariant forall k :: 0 <= k < buffer.Length ==>
                  buffer[k] == if at <= k < at + i then (was[k] as int + OldByte(base, p + k - at)) % 256 else was[k]
    {
      if 0 <= p + i < |base| {
        buffer[at + i] := (buffer[at + i] as int + base[p + i]) % 256;
      }
      i := i + 1;
    }
    var sum := AddOld(base, was[at..at + size], p);
    forall k | at <= k < at + size
      ensures buffer[k] == sum[k - at]
    {
      assert sum[k - at] == (was[at..at + size][k - at] as int + OldByte(base, p + (k - at))) % 256;
    }
    assert buffer[..] == was[..at] + sum + was[at + size..];
  }

  lemma NextTriple(c: seq<byte>)
    requires 24 <= |c|
    ensures Triples(c) == [DecodeTriple(c[..24])] + Triples(c[24..])
  {
    TriplesCons(c[..24], c[24..]);
    assert c == c[..24] + c[24..];
  }

  // The streams can deliver what the triple asks for, and todo bytes of output hold it.
  predicate Fits(t: Triple, d: seq<byte>, e: seq<byte>, todo: int)
  {
    0 <= t.add <= |d| && 0 <= t.copy <= |e| && t.add + t.copy <= todo
  }

  // What one triple does to the output and to the streams.
  lemma ReplayStep(base: seq<byte>, c: seq<byte>, d: seq<byte>, e: seq<byte>, p: int, todo: nat)
    requires todo > 0
    ensures |c| < 24 ==> Replay(base, Triples(c), d, e, p, todo) == None
    ensures 24 <= |c| ==>
              var t := DecodeTriple(c[..24]);
              Replay(base, Triples(c), d, e, p, todo)
              == if Fits(t, d, e, todo) then
                   Prepend(AddOld(base, d[..t.add], p) + e[..t.copy],
                           Replay(base, Triples(c[24..]), d[t.add..], e[t.copy..], p + t.add + t.seek,
                                  todo - t.add - t.copy))
                 else None
  {
    if 24 <= |c| {
      NextTriple(c);
      ReplayTriple(base, DecodeTriple(c[..24]), Triples(c[24..]), d, e, p, todo);
    }
  }

  lemma ReplayTriple(base: seq<byte>, t: Triple, ts: seq<Triple>, d: seq<byte>, e: seq<byte>, p: int, todo: nat)
    requires todo > 0
    ensures Replay(base, [t] + ts, d, e, p, todo)
            == if Fits(t, d, e, todo) then
                 Prepend(AddOld(base, d[..t.add], p) + e[..t.copy],
                         Replay(base, ts, d[t.add..], e[t.copy..], p + t.add + t.seek, todo - t.add - t.copy))
               else None
  {
    assert ([t] + ts)[0] == t && ([t] + ts)[1..] == ts;
  }

  // The three decompressors of a patch.
  ghost predicate Distinct(cs: BzStream, ds: BzStream, es: BzStream)
  {
    cs != ds && cs != es && ds != es
  }

  // The rest of the replay, from the state of the reader.
  ghost function Rest(base: seq<byte>, cs: BzStream, ds: BzStream, es: BzStream, p: int, todo: nat): Option<Replayed>
    reads cs, ds, es
  {
    Replay(base, Triples(cs.pending), ds.pending, es.pending, p, todo)
  }

  lemma AddedTo(was: seq<byte>, filled: seq<byte>, at: nat, diff: seq<byte>)
    requires at + |diff| <= |was| && filled == was[..at] + diff + was[at + |diff|..]
    ensures filled[..at] == was[..at] && filled[at..at + |diff|] == diff && filled[at + |diff|..] == was[at + |diff|..]
  {
  }

  lemma BothParts(was: seq<byte>, half: seq<byte>, full: seq<byte>, at: nat, mid: nat, sum: seq<byte>, extra: seq<byte>)
    requires at + |sum| == mid && mid + |extra| <= |was|
    requires half == was[..at] + sum + was[mid..] && full == half[..mid] + extra + half[mid + |extra|..]
    ensures full[..at] == was[..at] && full[at..mid + |extra|] == sum + extra
  {
  }

  // Read size bytes of differences and add the old data to them (bspatch.c:214-225).
  method ReadDifferences(base: seq<byte>, data: array<byte>, at: nat, size: int, p: int, ds: BzStream)
    returns (ok: bool)
    requires at + size <= data.Length && at <= data.Length
    modifies data, ds
    ensures ok <==> 0 <= size <= |old(ds.pending)|
    ensures ok ==> ds.pending == old(ds.pending)[size..]
    ensures ok ==> data[..] == old(data[..at]) + AddOld(base, old(ds.pending)[..size], p) + old(data[at + size..])
  {
    ghost var was, d := data[..], ds.pending;
    ok := FillBuffer(data, at, size, ds);
    if ok {
      AddedTo(was, data[..], at, d[..size]);
      AddOldData(data, at, size, base, p);
    }
  }

  // Read one triple (bspatch.c:200-208), through a local buffer of 24 bytes.
  method ReadTriple(cs: BzStream) returns (ok: bool, t: Triple)
    modifies cs
    ensures ok <==> 24 <= |old(cs.pending)|
    ensures ok ==> t == DecodeTriple(old(cs.pending)[..24]) && cs.pending == old(cs.pending)[24..]
  {
    ghost var c := cs.pending;
    var buf := new byte[24];
    ok := FillBuffer(buf, 0, 24, cs);
    t := Triple(0, 0, 0);
    if ok {
      assert buf[..] == c[..24];
      t := DecodeTriple(buf[..]);
    }
  }

  // Read the bytes a triple asks for (bspatch.c:210-239).
  method ReadBlocks(base: seq<byte>, data: array<byte>, at: nat, t: Triple, p: int, ds: BzStream, es: BzStream)
    returns (ok: bool)
    requires at <= data.Length && ds != es
    modifies data, ds, es
    ensures ok <==> Fits(t, old(ds.pending), old(es.pending), data.Length - at)
    ensures ok ==> ds.pending == old(ds.pending)[t.add..] && es.pending == old(es.pending)[t.copy..]
    ensures ok ==> data[..at] == old(data[..at])
    ensures ok ==> data[at..at + t.add + t.copy]
                   == AddOld(base, old(ds.pending)[..t.add], p) + old(es.pending)[..t.copy]
  {
    ghost var d, e, was := ds.pending, es.pending, data[..];
    if at + t.add > data.Length {
      return false;
    }
    ok := ReadDifferences(base, data, at, t.add, p, ds);
    if !ok {
      return;
    }
    var mid := at + t.add;
    if mid + t.copy > data.Length {
      return false;
    }
    ghost var half := data[..];
    ok := FillBuffer(data, mid, t.copy, es);
    if ok {
      BothParts(was, half, data[..], at, mid, AddOld(base, d[..t.add], p), e[..t.copy]);
    }
  }

  // One turn of the loop (bspatch.c:199-245): read a triple, then the bytes it asks for.
  method ApplyTriple(base: seq<byte>, data: array<byte>, newpos: nat, oldpos: int, cs: BzStream, ds: BzStream,
                     es: BzStream)
    returns (ok: bool, newpos': nat, oldpos': int)
    requires newpos < data.Length && Distinct(cs, ds, es)
    modifies data, cs, ds, es
    ensures newpos <= newpos' <= data.Length
    ensures !ok ==> old(Rest(base, cs, ds, es, oldpos, data.Length - newpos)) == None
    ensures ok ==> |cs.pending| < |old(cs.pending)|
    ensures ok ==> data[..newpos] == old(data[..newpos])
    ensures ok ==> (old(Rest(base, cs, ds, es, oldpos, data.Length - newpos))
                    == Prepend(data[newpos..newpos'], Rest(base, cs, ds, es, oldpos', data.Length - newpos')))
  {
    ReplayStep(base, cs.pending, ds.pending, es.pending, oldpos, data.Length - newpos);
    newpos', oldpos' := newpos, oldpos;
    var t;
    ok, t := ReadTriple(cs);
    if ok {
      ok := ReadBlocks(base, data, newpos, t, oldpos, ds, es);
      if ok {
        newpos', oldpos' := newpos + t.add + t.copy, oldpos + t.add + t.seek;
      }
    }
  }

  // The loop over the triples (bspatch.c:198-246).
  method ReplayStreams(base: seq<byte>, data: array<byte>, cs: BzStream, ds: BzStream, es: BzStream) returns (ok: bool)
    requires Distinct(cs, ds, es)
    modifies data, cs, ds, es
    ensures var r := old(Rest(base, cs, ds, es, 0, data.Length));
            ok == r.Some? && (ok ==> data[..] == r.value.out)
  {
    ghost var whole := Rest(base, cs, ds, es, 0, data.Length);
    PrependNothing(whole);
    var oldpos, newpos := 0, 0;
    while newpos < data.Length
      invariant 0 <= newpos <= data.Length
      invariant whole == Prepend(data[..newpos], Rest(base, cs, ds, es, oldpos, data.Length - newpos))
      decreases |cs.pending|
    {
      ghost var was, p := data[..newpos], newpos;
      ok, newpos, oldpos := ApplyTriple(base, data, newpos, oldpos, cs, ds, es);
      if !ok {
        return;
      }
      assert data[..newpos] == was + data[p..newpos];
      PrependTwice(was, data[p..newpos], Rest(base, cs, ds, es, oldpos, data.Length - newpos));
    }
    assert data[..newpos] + [] == data[..];
    ok := true;
  }

  // ApplyBSDiffPatchMem: the new data, or None when the patch is corrupt.
  method ApplyBSDiffPatchMem(z: Codec, base: seq<byte>, patch: seq<byte>, offset: nat) returns (r: Option<seq<byte>>)
    ensures r == Patched(z, base, patch, offset)
  {
    var header := ReadHeader(patch, offset);
    if header.None? {
      return None;
    }
    var h := header.value;
    var (c, d, e) := Streams(z, patch, offset, h);
    var cs := new BzStream(c);
    var ds := new BzStream(d);
    var es := new BzStream(e);
    var data := new byte[h.newSize];
    var ok := ReplayStreams(base, data, cs, ds, es);
    return if ok then Some(data[..]) else None;
  }

  lemma PrependNothing(r: Option<Replayed>)
    ensures Prepend([], r) == r
  {
    if r.Some? {
      assert [] + r.value.out == r.value.out;
    }
  }
}
