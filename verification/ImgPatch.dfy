// ApplyBSDiffPatch (bspatch.c:100-121) and ApplyImagePatch (imgpatch.c:38-232): apply a
// patch, pushing the output into a sink that may run out of room, and into a running hash.
module ImgPatch {
  import opened Bytes
  import opened Endian
  import opened PatchFormat
  import opened Bspatch
  import opened ImageChunks
  import opened ImgFormat

  // MemorySink takes all of a piece or nothing; FileSink may take a part of it
  // (applypatch.c:639-668).  room is what the sink is still sure to take.
  class Sink {
    const memory: bool
    var sunk: seq<byte>
    var room: nat

    constructor (memory: bool, room: nat)
      ensures this.memory == memory && this.room == room && sunk == []
    {
      this.memory, this.room, sunk := memory, room, [];
    }

    method Write(data: seq<byte>) returns (n: int)
      modifies this
      ensures n <= |data| && (|data| <= old(room) ==> n == |data|)
      ensures memory ==> n == if |data| <= old(room) then |data| else -1
      ensures !memory ==> 0 <= n
      ensures sunk == old(sunk) + data[..if n < 0 then 0 else n] && room >= old(room) - |data|
    {
      if memory && room < |data| {
        assert data[..0] == [];
        return -1;
      }
      var least := if room < |data| then room else |data|;
      n :| least <= n <= |data|;
      sunk := sunk + data[..n];
      room := if n <= room then room - n else 0;
    }
  }

  // The running SHA-1 context: the bytes it has been fed.
  class Sha {
    var hashed: seq<byte>

    constructor ()
      ensures hashed == []
    {
      hashed := [];
    }

    method Update(data: seq<byte>)
      modifies this
      ensures hashed == old(hashed) + data
    {
      hashed := hashed + data;
    }
  }

  // The state of a sink and of a hash.
  datatype Flow = Flow(sunk: seq<byte>, hashed: seq<byte>, room: nat)

  ghost function FlowOf(sink: Sink, sha: Sha): Flow
    reads sink, sha
  {
    Flow(sink.sunk, sha.hashed, sink.room)
  }

  // x is some of the parts, one after the other.
  ghost predicate SomeOf(x: seq<byte>, parts: seq<seq<byte>>)
    decreases |parts|
  {
    if parts == [] then x == []
    else SomeOf(x, parts[1..]) || (parts[0] <= x && SomeOf(x[|parts[0]|..], parts[1..]))
  }

  lemma {:induction false} SomeOfMore(x: seq<byte>, parts: seq<seq<byte>>, y: seq<byte>, part: seq<byte>)
    requires SomeOf(x, parts) && (y == x || y == x + part)
    ensures SomeOf(y, parts + [part])
    decreases |parts|
  {
    var more := parts + [part];
    if parts == [] {
      assert more[1..] == [];
    } else {
      assert more[1..] == parts[1..] + [part];
      if SomeOf(x, parts[1..]) {
        SomeOfMore(x, parts[1..], y, part);
      } else {
        var n := |parts[0]|;
        assert y == x + part ==> y[n..] == x[n..] + part;
        SomeOfMore(x[n..], parts[1..], y[n..], part);
      }
    }
  }

  // On the way from a to b the hash was fed some of the parts.
  ghost predicate Fed(a: Flow, b: Flow, parts: seq<seq<byte>>)
  {
    a.hashed <= b.hashed && SomeOf(b.hashed[|a.hashed|..], parts)
  }

  lemma FedMore(a: Flow, b: Flow, c: Flow, parts: seq<seq<byte>>, part: seq<byte>)
    requires Fed(a, b, parts) && (c.hashed == b.hashed || c.hashed == b.hashed + part)
    ensures Fed(a, c, parts + [part])
  {
    SomeOfMore(b.hashed[|a.hashed|..], parts, c.hashed[|a.hashed|..], part);
  }

  // out has been pushed on the way from a to b.  With enough room all of it arrived; and
  // whenever the hash has seen as many bytes as out has, hash and sink have seen exactly
  // out.
  ghost predicate Pushed(a: Flow, b: Flow, out: seq<byte>)
  {
    && (|out| <= a.room ==> b.sunk == a.sunk + out && b.hashed == a.hashed + out && b.room >= a.room - |out|)
    && |b.hashed| <= |a.hashed| + |out|
    && (|b.hashed| == |a.hashed| + |out| ==> b.hashed == a.hashed + out && b.sunk == a.sunk + out)
  }

  lemma PushedTwice(a: Flow, b: Flow, c: Flow, out: seq<byte>, more: seq<byte>)
    requires Pushed(a, b, out) && Pushed(b, c, more)
    ensures Pushed(a, c, out + more)
  {
    assert a.sunk + (out + more) == (a.sunk + out) + more;
    assert a.hashed + (out + more) == (a.hashed + out) + more;
  }

  lemma PushedNothing(a: Flow)
    ensures Pushed(a, a, [])
  {
    assert a.sunk + [] == a.sunk && a.hashed + [] == a.hashed;
  }

  // ApplyBSDiffPatch: -1 for a corrupt patch, 1 for a short write, which is not hashed.
  method ApplyBSDiffPatch(z: Codec, base: seq<byte>, patch: seq<byte>, offset: int, sink: Sink, sha: Sha)
    returns (rc: int)
    modifies sink, sha
    ensures var r := PatchedAt(z, base, patch, offset);
            && (r.None? ==> rc == -1 && FlowOf(sink, sha) == old(FlowOf(sink, sha)))
            && (r.Some? ==> (rc == 0 || rc == 1) && Pushed(old(FlowOf(sink, sha)), FlowOf(sink, sha), r.value)
                            && (sha.hashed == old(sha.hashed) || sha.hashed == old(sha.hashed) + r.value))
            && (r.Some? && |r.value| <= old(sink.room) ==> rc == 0)
            && (rc == 0 ==> sink.sunk == old(sink.sunk) + r.value && sha.hashed == old(sha.hashed) + r.value)
  {
    if offset < 0 {
      return -1;
    }
    var r := ApplyBSDiffPatchMem(z, base, patch, offset);
    if r.None? {
      return -1;
    }
    var n := sink.Write(r.value);
    if n < |r.value| {
      return 1;
    }
    assert r.value[..n] == r.value;
    sha.Update(r.value);
    return 0;
  }

  // What one record does to the flow: it fails as the format says, or for want of room.
  ghost predicate Did(r: Outcome, a: Flow, b: Flow, ok: bool, next: nat)
  {
    && (r.Stop? ==> !ok && a == b)
    && (r.Emit? && |r.out| <= a.room ==> ok)
    && (ok ==> r.Emit? && next == r.next && Pushed(a, b, r.out))
    && (ok ==> b.hashed == a.hashed || b.hashed == a.hashed + r.out)
  }

  // A normal record.  The result of the patch is ignored.
  method ApplyNormal(z: Codec, src: seq<byte>, file: seq<byte>, p: nat, sink: Sink, sha: Sha)
    returns (ok: bool, next: nat)
    modifies sink, sha
    ensures Did(NormalOutcome(z, src, file, p), old(FlowOf(sink, sha)), FlowOf(sink, sha), ok, next)
  {
    next := p + 24;
    if next > |file| {
      return false, next;
    }
    PushedNothing(FlowOf(sink, sha));
    var srcStart, srcLen, offset := Read8(file[p..p + 8]), Read8(file[p + 8..p + 16]), Read8(file[p + 16..p + 24]);
    var _ := ApplyBSDiffPatch(z, Window(src, srcStart, srcLen), file, offset, sink, sha);
    ok := true;
  }

  // A raw record: hashed first, then written.
  method ApplyRaw(file: seq<byte>, p: nat, sink: Sink, sha: Sha) returns (ok: bool, next: nat)
    modifies sink, sha
    ensures Did(RawOutcome(file, p), old(FlowOf(sink, sha)), FlowOf(sink, sha), ok, next)
  {
    next := p + 4;
    if next > |file| {
      return false, next;
    }
    var len := Read4(file[p..p + 4]);
    if len < 0 || next + len > |file| {
      return false, next;
    }
    var data := file[next..next + len];
    sha.Update(data);
    var n := sink.Write(data);
    if n != len {
      return false, next;
    }
    assert data[..n] == data;
    return true, next + len;
  }

  // The loop that deflates into a buffer of size bytes, and writes and hashes it each time
  // it fills (imgpatch.c:208-220).
  method PushPieces(packed: seq<byte>, size: nat, sink: Sink, sha: Sha) returns (ok: bool)
    requires 0 < size
    modifies sink, sha
    ensures |packed| <= old(sink.room) ==> ok
    ensures ok ==> Pushed(old(FlowOf(sink, sha)), FlowOf(sink, sha), packed)
    ensures ok ==> sha.hashed == old(sha.hashed) + packed
  {
    ghost var start := FlowOf(sink, sha);
    PushedNothing(start);
    var done := 0;
    while true
      invariant 0 <= done <= |packed| && Pushed(start, FlowOf(sink, sha), packed[..done])
      invariant sha.hashed == old(sha.hashed) + packed[..done]
      decreases |packed| - done + (if done < |packed| then 1 else 0)
    {
      var have := if |packed| - done < size then |packed| - done else size;
      ok := PushPiece(packed[done..done + have], sink, sha);
      if !ok {
        return;
      }
      assert packed[..done + have] == packed[..done] + packed[done..done + have];
      done := done + have;
      if done == |packed| {
        break;
      }
    }
    assert packed[..done] == packed;
  }

  method PushPiece(piece: seq<byte>, sink: Sink, sha: Sha) returns (ok: bool)
    modifies sink, sha
    ensures |piece| <= old(sink.room) ==> ok
    ensures ok ==> Pushed(old(FlowOf(sink, sha)), FlowOf(sink, sha), piece) && sha.hashed == old(sha.hashed) + piece
  {
    var n := sink.Write(piece);
    if n != |piece| {
      return false;
    }
    assert piece[..n] == piece;
    sha.Update(piece);
    return true;
  }

  // A deflate record.
  method ApplyDeflate(z: Codec, zl: Zlib, src: seq<byte>, file: seq<byte>, extra: seq<byte>, p: nat, sink: Sink,
                      sha: Sha)
    returns (ok: bool, next: nat)
    modifies sink, sha
    ensures Did(DeflateOutcome(z, zl, src, file, extra, p), old(FlowOf(sink, sha)), FlowOf(sink, sha), ok, next)
  {
    next := p + 60;
    if next > |file| {
      return false, next;
    }
    var srcStart, srcLen, offset := Read8(file[p..p + 8]), Read8(file[p + 8..p + 16]), Read8(file[p + 16..p + 24]);
    var expandedLen := Read8(file[p + 24..p + 32]);
    var params := ReadParams(file[p + 40..p + 60]);
    var base := Expand(zl, Window(src, srcStart, srcLen), expandedLen, extra);
    if base.None? || offset < 0 {
      return false, next;
    }
    var t := ApplyBSDiffPatchMem(z, base.value, file, offset);
    if t.None? {
      return false, next;
    }
    ok := PushPieces(zl.deflate(params, t.value), if expandedLen < 32768 then 32768 else expandedLen, sink, sha);
  }

  // The record at pos.
  method ApplyRecord(z: Codec, zl: Zlib, src: seq<byte>, file: seq<byte>, extra: seq<byte>, pos: nat, sink: Sink,
                     sha: Sha)
    returns (ok: bool, next: nat)
    modifies sink, sha
    ensures Did(OutcomeAt(z, zl, src, file, extra, pos), old(FlowOf(sink, sha)), FlowOf(sink, sha), ok, next)
  {
    if pos + 4 > |file| {
      return false, pos;
    }
    var kind := Read4(file[pos..pos + 4]);
    if kind == CHUNK_NORMAL {
      ok, next := ApplyNormal(z, src, file, pos + 4, sink, sha);
    } else if kind == CHUNK_RAW {
      ok, next := ApplyRaw(file, pos + 4, sink, sha);
    } else if kind == CHUNK_DEFLATE {
      ok, next := ApplyDeflate(z, zl, src, file, extra, pos + 4, sink, sha);
    } else {
      return false, pos;
    }
  }

  // With room for its output the whole run does what Apply says; and a run that succeeds
  // and has hashed as much as it should has written exactly what it hashed.
  ghost predicate Ran(full: Applied, a: Flow, b: Flow, rc: int)
  {
    && (|full.out| <= a.room ==> rc == full.rc && Pushed(a, b, full.out))
    && (rc == 0 ==> full.rc == 0 && Pushed(a, b, full.out))
  }

  // The records so far emitted done, in parts, and the rest and the parts left remain.
  ghost predicate Midway(full: Applied, all: seq<seq<byte>>, done: seq<byte>, parts: seq<seq<byte>>, rest: Applied,
                         left: seq<seq<byte>>, a: Flow, b: Flow)
  {
    Pushed(a, b, done) && Fed(a, b, parts) && full == After(done, rest) && all == parts + left
  }

  lemma Begins(full: Applied, all: seq<seq<byte>>, a: Flow)
    ensures Midway(full, all, [], [], full, all, a, a)
  {
    PushedNothing(a);
    AfterNothing(full);
    assert [] + all == all;
  }

  lemma RunStep(full: Applied, all: seq<seq<byte>>, done: seq<byte>, parts: seq<seq<byte>>, r: Outcome, rest: Applied,
                left: seq<seq<byte>>, a: Flow, b: Flow, c: Flow, next: nat)
    requires Did(r, b, c, true, next)
    requires Midway(full, all, done, parts, After(r.out, rest), [r.out] + left, a, b)
    ensures Midway(full, all, done + r.out, parts + [r.out], rest, left, a, c)
  {
    PushedTwice(a, b, c, done, r.out);
    FedMore(a, b, c, parts, r.out);
    Associative(done, r.out, rest.out);
    Associative(parts, [r.out], left);
  }

  lemma RunStops(full: Applied, all: seq<seq<byte>>, done: seq<byte>, parts: seq<seq<byte>>, r: Outcome, rest: Applied,
                 left: seq<seq<byte>>, a: Flow, b: Flow, c: Flow, next: nat)
    requires Did(r, b, c, false, next)
    requires Midway(full, all, done, parts, if r.Stop? then Applied(-1, []) else After(r.out, rest), left, a, b)
    ensures Ran(full, a, c, -1)
  {
    assert done + [] == done;
  }

  // The loop over the records (imgpatch.c:59-229).
  method ApplyRecords(z: Codec, zl: Zlib, src: seq<byte>, file: seq<byte>, num: int, bonus: Option<seq<byte>>,
                      sink: Sink, sha: Sha)
    returns (rc: int)
    modifies sink, sha
    ensures Ran(ApplyFrom(z, zl, src, file, bonus, 0, num, 12), old(FlowOf(sink, sha)), FlowOf(sink, sha), rc)
    ensures rc == 0 ==> Fed(old(FlowOf(sink, sha)), FlowOf(sink, sha), PartsFrom(z, zl, src, file, bonus, 0, num, 12))
  {
    ghost var full, start, done := ApplyFrom(z, zl, src, file, bonus, 0, num, 12), FlowOf(sink, sha), [];
    ghost var all, parts := PartsFrom(z, zl, src, file, bonus, 0, num, 12), [];
    Begins(full, all, start);
    var pos, i := 12, 0;
    while i < num
      invariant 0 <= i
      invariant Midway(full, all, done, parts, ApplyFrom(z, zl, src, file, bonus, i, num, pos),
                       PartsFrom(z, zl, src, file, bonus, i, num, pos), start, FlowOf(sink, sha))
    {
      ghost var out;
      rc, pos, out := NextRecord(z, zl, src, file, num, bonus, sink, sha, i, pos, full, all, done, parts, start);
      if rc != 0 {
        return;
      }
      done, i, parts := done + out, i + 1, parts + [out];
    }
    assert done + [] == done && parts + [] == parts;
    return 0;
  }

  // One turn.
  method NextRecord(z: Codec, zl: Zlib, src: seq<byte>, file: seq<byte>, num: int, bonus: Option<seq<byte>>,
                    sink: Sink, sha: Sha, i: nat, pos: nat, ghost full: Applied, ghost all: seq<seq<byte>>,
                    ghost done: seq<byte>, ghost parts: seq<seq<byte>>, ghost start: Flow)
    returns (rc: int, next: nat, ghost out: seq<byte>)
    requires i < num
    requires Midway(full, all, done, parts, ApplyFrom(z, zl, src, file, bonus, i, num, pos),
                    PartsFrom(z, zl, src, file, bonus, i, num, pos), start, FlowOf(sink, sha))
    modifies sink, sha
    ensures rc == 0 || (rc == -1 && Ran(full, start, FlowOf(sink, sha), -1))
    ensures rc == 0 ==>
              Midway(full, all, done + out, parts + [out], ApplyFrom(z, zl, src, file, bonus, i + 1, num, next),
                               PartsFrom(z, zl, src, file, bonus, i + 1, num, next), start, FlowOf(sink, sha))
  {
    var extra := Extra(bonus, i);
    ghost var r, before := OutcomeAt(z, zl, src, file, extra, pos), FlowOf(sink, sha);
    var ok;
    ok, next := ApplyRecord(z, zl, src, file, extra, pos, sink, sha);
    ghost var rest := if r.Emit? then ApplyFrom(z, zl, src, file, bonus, i + 1, num, r.next) else full;
    if !ok {
      RunStops(full, all, done, parts, r, rest, PartsFrom(z, zl, src, file, bonus, i, num, pos), start, before,
               FlowOf(sink, sha), next);
      return -1, next, [];
    }
    out := r.out;
    PartsFirst(z, zl, src, file, bonus, i, num, pos, out, next);
    RunStep(full, all, done, parts, r, rest, PartsFrom(z, zl, src, file, bonus, i + 1, num, next), start, before,
            FlowOf(sink, sha), next);
    rc := 0;
  }

  lemma AfterNothing(a: Applied)
    ensures After([], a) == a
  {
    assert [] + a.out == a.out;
  }

  // ApplyImagePatch.
  method ApplyImagePatch(z: Codec, zl: Zlib, src: seq<byte>, file: seq<byte>, sink: Sink, sha: Sha,
                         bonus: Option<seq<byte>>)
    returns (rc: int)
    modifies sink, sha
    ensures Ran(Apply(z, zl, src, file, bonus), old(FlowOf(sink, sha)), FlowOf(sink, sha), rc)
    ensures rc == 0 ==> Fed(old(FlowOf(sink, sha)), FlowOf(sink, sha), Parts(z, zl, src, file, bonus))
  {
    PushedNothing(FlowOf(sink, sha));
    if |file| < 12 {
      return -1;
    }
    if file[..8] != IMG_MAGIC {
      return -1;
    }
    rc := ApplyRecords(z, zl, src, file, Read4(file[8..12]), bonus, sink, sha);
  }

  // A run into a sink with any room at all, checked by the hash as applypatch does
  // (applypatch.c:986-1006): if it reports success and what was hashed has the digest of the
  // wanted output, which the output with some chunks left out has not, the wanted output is in
  // the sink.  Where the sink has room, the check passes.
  method ApplyChecked(z: Codec, zl: Zlib, src: seq<byte>, file: seq<byte>, bonus: Option<seq<byte>>,
                      memory: bool, room: nat, sha: seq<byte> -> seq<byte>, ghost wanted: seq<byte>)
    returns (rc: int, digest: seq<byte>, sunk: seq<byte>)
    requires Apply(z, zl, src, file, bonus).out == wanted
    requires forall x {:trigger sha(x)} ::
               SomeOf(x, Parts(z, zl, src, file, bonus)) && sha(x) == sha(wanted) ==> x == wanted
    ensures rc == 0 && digest == sha(wanted) ==> sunk == wanted
    ensures |wanted| <= room && Apply(z, zl, src, file, bonus).rc == 0 ==> rc == 0 && digest == sha(wanted)
  {
    var sink := new Sink(memory, room);
    var ctx := new Sha();
    rc := ApplyImagePatch(z, zl, src, file, sink, ctx, bonus);
    assert [] + wanted == wanted && ctx.hashed[0..] == ctx.hashed;
    digest, sunk := sha(ctx.hashed), sink.sunk;
  }
}
