// applypatch (applypatch.c:717-1042): replace a file by its patched version so that a run
// may be cut off at any moment and started again.
module ApplyPatch {
  import opened Bytes
  import opened PatchFormat
  import opened ImageChunks
  import opened ImgFormat
  import opened ImgPatch
  import opened FileSystem
  import opened FreeCache
  import Retouch

  type Digest = seq<byte>

  // The hash, the codecs, the masking of retouched binaries, which may fail, and the contents
  // that the source and the saved copy may come to have.
  datatype World = World(z: Codec, zl: Zlib, sha: seq<byte> -> Digest, mask: seq<byte> -> Option<seq<byte>>,
                         known: iset<seq<byte>>)

  datatype Value = Blob(data: seq<byte>) | OtherValue

  // What applypatch is asked to do: make the target from any file that has one of the
  // listed hashes, by the patch beside it.  A hash that cannot be parsed is None.
  datatype Job = Job(source: Path, target_: Path, targetSha: Digest, targetSize: nat,
                     shas: seq<Option<Digest>>, patches: seq<Value>, bonus: Option<seq<byte>>)
  {
    // "-" stands for the source itself (applypatch.c:727-730).
    function Target(): Path {
      if target_ == "-" then source else target_
    }

    function Out(): Path {
      Target() + ".patch"
    }
  }

  predicate IsPartition(p: Path)
  {
    "MTD:" <= p || "EMMC:" <= p
  }

  // What loading a file with these contents gives: a partition is not masked.
  function Loaded(w: World, p: Path, content: seq<byte>): (r: Option<seq<byte>>)
  {
    if IsPartition(p) then Some(content) else w.mask(content)
  }

  // FindMatchingPatch (applypatch.c:575-589): the first entry with this hash, or -1.
  function Matching(sha: Digest, shas: seq<Option<Digest>>): (i: int)
    ensures -1 <= i < |shas| && (0 <= i ==> shas[i] == Some(sha))
    ensures forall j :: 0 <= j < (if i < 0 then |shas| else i) ==> shas[j] != Some(sha)
  {
    if shas == [] then -1
    else if shas[0] == Some(sha) then 0
    else
      var i := Matching(sha, shas[1..]);
      assert forall j {:trigger shas[j]} :: 0 < j <= (if i < 0 then |shas| - 1 else i) ==> shas[j] == shas[1..][j - 1];
      if i < 0 then -1 else i + 1
  }

  method FindMatchingPatch(sha: Digest, shas: seq<Option<Digest>>) returns (r: int)
    ensures r == Matching(sha, shas)
  {
    var i := 0;
    while i < |shas|
      invariant 0 <= i <= |shas| && forall j :: 0 <= j < i ==> shas[j] != Some(sha)
    {
      if shas[i] == Some(sha) {
        return i;
      }
      i := i + 1;
    }
    return -1;
  }

  // The masking that loading a file does (applypatch.c:90-102).
  function MaskOf(x: seq<byte>): (r: Option<seq<byte>>)
  {
    var m := Retouch.Retouch(x, Some(0));
    if m.code == Retouch.MATCHED then Some(m.bytes) else None
  }

  // It can be done twice where the relocation list is not among the words it names.
  lemma MaskedStays(x: seq<byte>)
    requires Retouch.Sparse(x) && MaskOf(x).Some?
    ensures MaskOf(MaskOf(x).value) == MaskOf(x)
  {
    Retouch.RetouchTwice(x, 0, 0);
  }

  // What a patch of either format makes of data.
  function PatchOutput(w: World, patch: seq<byte>, data: seq<byte>, bonus: Option<seq<byte>>): (a: Applied)
  {
    if |patch| >= 8 && patch[..8] == MAGIC then
      match Patched(w.z, data, patch, 0)
      case None => Applied(-1, [])
      case Some(t) => Applied(0, t)
    else if |patch| >= 8 && patch[..8] == IMG_MAGIC then Apply(w.z, w.zl, data, patch, bonus)
    else Applied(1, [])
  }

  // The pieces in which it makes its output; a failed chunk of an image patch is left out of
  // what is hashed.
  function PatchParts(w: World, patch: seq<byte>, data: seq<byte>, bonus: Option<seq<byte>>): (ts: seq<seq<byte>>)
  {
    if |patch| >= 8 && patch[..8] == MAGIC then
      match Patched(w.z, data, patch, 0)
      case None => []
      case Some(t) => [t]
    else if |patch| >= 8 && patch[..8] == IMG_MAGIC then Parts(w.z, w.zl, data, patch, bonus)
    else []
  }

  // The patch makes wanted from data, and its output with chunks left out has not the
  // target's hash.
  ghost predicate Leads(w: World, job: Job, wanted: seq<byte>, data: seq<byte>, patch: Value)
  {
    && patch.Blob? && PatchOutput(w, patch.data, data, job.bonus) == Applied(0, wanted)
    && forall x {:trigger w.sha(x)} ::
         SomeOf(x, PatchParts(w, patch.data, data, job.bonus)) && w.sha(x) == job.targetSha ==> x == wanted
  }

  // What loading known contents gives is known, and so is every beginning of known contents.
  ghost predicate Closed(w: World)
  {
    && (forall x {:trigger w.mask(x)} :: x in w.known && w.mask(x).Some? ==> w.mask(x).value in w.known)
    && (forall x, n {:trigger x[..n]} :: x in w.known && 0 <= n <= |x| ==> x[..n] in w.known)
  }

  // A sound job: wanted has the target's hash and carries nothing to mask; and of the contents
  // that may occur, each that has a listed hash comes with a patch that leads to wanted, and
  // is not changed by masking it again.
  ghost predicate Sound(w: World, job: Job, wanted: seq<byte>)
  {
    && w.sha(wanted) == job.targetSha && w.mask(wanted) == Some(wanted) && wanted in w.known && Closed(w)
    && |job.patches| == |job.shas|
    && (forall x {:trigger Matching(w.sha(x), job.shas)} :: x in w.known && 0 <= Matching(w.sha(x), job.shas) ==>
          Leads(w, job, wanted, x, job.patches[Matching(w.sha(x), job.shas)]))
    && (forall x {:trigger w.mask(x)} ::
          x in w.known && w.mask(x).Some? && 0 <= Matching(w.sha(w.mask(x).value), job.shas) ==>
            w.mask(w.mask(x).value) == w.mask(x))
  }

  // The target is a regular file, the paths do not clash, and neither source nor target is
  // among the files that may be deleted to make room.
  ghost predicate Placed(job: Job)
  {
    && !IsPartition(job.Target()) && job.Target() != CACHE_TEMP_SOURCE && job.source != CACHE_TEMP_SOURCE
    && job.source != job.Out() && !Expendable(job.Target()) && !Expendable(job.source)
  }

  // The target file is as it should be.
  ghost predicate Wanted(w: World, job: Job, d: Disk)
  {
    var t := job.Target();
    t in d && Loaded(w, t, d[t]).Some? && w.sha(Loaded(w, t, d[t]).value) == job.targetSha
  }

  // The file at p has a listed hash.
  ghost predicate Listed(w: World, job: Job, p: Path, d: Disk)
  {
    p in d && Loaded(w, p, d[p]).Some? && 0 <= Matching(w.sha(Loaded(w, p, d[p]).value), job.shas)
  }

  // The contents of the source and of the saved copy are known.
  ghost predicate Known(w: World, job: Job, d: Disk)
  {
    && (job.source in d ==> d[job.source] in w.known)
    && (CACHE_TEMP_SOURCE in d ==> d[CACHE_TEMP_SOURCE] in w.known)
  }

  ghost predicate AllKnown(w: World, job: Job, before: seq<Disk>, after: seq<Disk>)
  {
    forall i {:trigger after[i]} :: |before| <= i < |after| ==> Known(w, job, after[i])
  }

  // From this state the update can be completed.
  ghost predicate Safe(w: World, job: Job, d: Disk)
  {
    Known(w, job, d) && (Wanted(w, job, d) || Listed(w, job, job.source, d) || Listed(w, job, CACHE_TEMP_SOURCE, d))
  }

  ghost predicate AllSafe(w: World, job: Job, ds: seq<Disk>)
  {
    forall i :: 0 <= i < |ds| ==> Safe(w, job, ds[i])
  }

  // A file that makes the state safe and is not touched keeps the states safe, as long as what
  // is written to the source and the saved copy is known.
  lemma StillSafe(w: World, job: Job, before: seq<Disk>, after: seq<Disk>, d: Disk, ps: iset<Path>)
    requires AllSafe(w, job, before) && GainedBut(before, after, d, ps) && AllKnown(w, job, before, after)
    requires || (Wanted(w, job, d) && job.Target() !in ps)
             || (Listed(w, job, job.source, d) && job.source !in ps)
             || (Listed(w, job, CACHE_TEMP_SOURCE, d) && CACHE_TEMP_SOURCE !in ps)
    ensures AllSafe(w, job, after)
  {
    forall i | 0 <= i < |after|
      ensures Safe(w, job, after[i])
    {
      if i < |before| {
        assert after[i] == after[..|before|][i] == before[i];
      } else {
        assert AgreeBut(after[i], d, ps);
      }
    }
  }

  // Where neither is written to, they stay known.
  lemma StillKnown(w: World, job: Job, before: seq<Disk>, after: seq<Disk>, d: Disk, ps: iset<Path>)
    requires Known(w, job, d) && GainedBut(before, after, d, ps) && job.source !in ps && CACHE_TEMP_SOURCE !in ps
    ensures AllKnown(w, job, before, after)
  {
  }

  lemma PresentKnown(w: World, job: Job, ds: seq<Disk>, d: Disk)
    requires AllSafe(w, job, ds) && Ends(ds, d)
    ensures Known(w, job, d)
  {
    assert Safe(w, job, ds[|ds| - 1]);
  }

  // The free space passes the guard of the first attempt (applypatch.c:870-873).
  predicate Enough(job: Job, free: nat)
  {
    free > 0x4_0000 && free > job.targetSize * 3 / 2
  }

  // The original file is as it was, or the wanted file has taken its place.
  ghost predicate Kept(job: Job, wanted: seq<byte>, was: Disk, d: Disk)
  {
    || ((job.source in d <==> job.source in was) && (job.source in d ==> d[job.source] == was[job.source]))
    || (job.source == job.Target() && job.source in d && d[job.source] == wanted)
  }

  ghost predicate AllKept(job: Job, wanted: seq<byte>, was: Disk, before: seq<Disk>, after: seq<Disk>)
  {
    forall i {:trigger after[i]} :: |before| <= i < |after| ==> Kept(job, wanted, was, after[i])
  }

  // In some state the original file is gone, and the target is not there or as it was.
  ghost predicate Missing(job: Job, was: Disk, before: seq<Disk>, after: seq<Disk>)
  {
    exists i {:trigger after[i]} :: |before| <= i < |after| && Gone(job, was, after[i])
  }

  ghost predicate Gone(job: Job, was: Disk, d: Disk)
  {
    var t := job.Target();
    job.source !in d && (t in d ==> t in was && d[t] == was[t])
  }

  // The paths that an attempt writes to.
  ghost function Scratch(job: Job): iset<Path> {
    EXPENDABLE + iset{CACHE_TEMP_SOURCE, job.source, job.Out()}
  }

  lemma OutApart(job: Job)
    ensures job.Out() != CACHE_TEMP_SOURCE && job.Out() != job.Target()
  {
    var o := job.Out();
    assert o[|o| - 1] == 'h';
    assert CACHE_TEMP_SOURCE[|CACHE_TEMP_SOURCE| - 1] == 'e';
  }

  lemma SavedIsFile()
    ensures !IsPartition(CACHE_TEMP_SOURCE)
  {
    assert CACHE_TEMP_SOURCE[0] == '/' && "MTD:"[0] == 'M' && "EMMC:"[0] == 'E';
  }

  datatype FileContents = FileContents(data: seq<byte>, sha1: Digest)

  // LoadFileContents (applypatch.c:53-106).
  method LoadFileContents(fs: FileSystem, w: World, p: Path) returns (r: Option<FileContents>)
    ensures r.Some? ==> p in fs.disk && Loaded(w, p, fs.disk[p]) == Some(r.value.data)
                        && r.value.sha1 == w.sha(r.value.data)
    ensures fs.reliable && p in fs.disk && Loaded(w, p, fs.disk[p]).Some? ==> r.Some?
  {
    var content := fs.Read(p);
    if content.None? {
      return None;
    }
    var data := Loaded(w, p, content.value);
    if data.None? {
      return None;
    }
    return Some(FileContents(data.value, w.sha(data.value)));
  }

  // SaveFileContents (applypatch.c:324-356).
  method SaveFileContents(fs: FileSystem, p: Path, data: seq<byte>) returns (rc: int)
    requires fs.Valid()
    modifies fs`disk, fs`trace
    ensures fs.Valid() && GainedBut(old(fs.trace), fs.trace, old(fs.disk), iset{p})
            && AgreeBut(fs.disk, old(fs.disk), iset{p})
    ensures (fs.reliable ==> rc == 0) && (rc == 0 || rc == -1) && (rc == 0 ==> p in fs.disk && fs.disk[p] == data)
    ensures Filling(old(fs.trace), fs.trace, p, data)
  {
    var ok := fs.Open(p);
    if !ok {
      return -1;
    }
    ghost var t, d := fs.trace, fs.disk;
    var written := fs.FileSink(p, data);
    GainedTrans(old(fs.trace), t, fs.trace, old(fs.disk), d, iset{p});
    assert [] + data == data;
    FillingTrans(old(fs.trace), t, fs.trace, p, data);
    if written != |data| {
      return -1;
    }
    assert data[..written] == data;
    var mode := fs.SetMode();
    if !mode {
      return -1;
    }
    mode := fs.SetMode();
    return if mode then 0 else -1;
  }

  // The source is on the disk, has a listed hash, and loads as data.
  ghost predicate Held(w: World, job: Job, d: Disk, data: seq<byte>)
  {
    && job.source in d && Loaded(w, job.source, d[job.source]) == Some(data)
    && 0 <= Matching(w.sha(data), job.shas)
  }

  // The states gained differ from d only where an attempt writes.
  ghost predicate Scratched(job: Job, t: seq<Disk>, d: Disk, t': seq<Disk>, d': Disk)
  {
    GainedBut(t, t', d, Scratch(job)) && AgreeBut(d', d, Scratch(job))
  }

  lemma ScratchedTwice(job: Job, t: seq<Disk>, d: Disk, t1: seq<Disk>, d1: Disk, t2: seq<Disk>, d2: Disk)
    requires Scratched(job, t, d, t1, d1) && Scratched(job, t1, d1, t2, d2)
    ensures Scratched(job, t, d, t2, d2)
  {
    GainedTrans(t, t1, t2, d, d1, Scratch(job));
  }

  // Make room for a copy of the source.
  method ClearCache(fs: FileSystem, w: World, job: Job, data: seq<byte>) returns (rc: int)
    requires fs.Valid() && AllSafe(w, job, fs.trace) && Held(w, job, fs.disk, data) && !Expendable(job.source)
    modifies fs
    ensures fs.Valid() && AllSafe(w, job, fs.trace) && Held(w, job, fs.disk, data) && (fs.reliable ==> rc == 0)
    ensures rc >= 0 ==> |data| <= fs.lastFree
    ensures Scratched(job, old(fs.trace), old(fs.disk), fs.trace, fs.disk)
  {
    ghost var d, t := fs.disk, fs.trace;
    ghost var free;
    rc, free := MakeFreeSpaceOnCache(fs, |data|);
    PresentKnown(w, job, t, d);
    StillKnown(w, job, t, fs.trace, d, EXPENDABLE);
    StillSafe(w, job, t, fs.trace, d, EXPENDABLE);
    GainedWider(t, fs.trace, d, EXPENDABLE, Scratch(job));
  }

  // Copy it.
  method SaveCopy(fs: FileSystem, w: World, job: Job, data: seq<byte>) returns (rc: int)
    requires fs.Valid() && AllSafe(w, job, fs.trace) && Held(w, job, fs.disk, data) && job.source != CACHE_TEMP_SOURCE
    requires w.mask(data) == Some(data) && data in w.known && Closed(w)
    modifies fs`disk, fs`trace
    ensures fs.Valid() && AllSafe(w, job, fs.trace) && (fs.reliable ==> rc == 0) && (rc == 0 || rc == -1)
    ensures rc == 0 ==> Listed(w, job, CACHE_TEMP_SOURCE, fs.disk)
    ensures Scratched(job, old(fs.trace), old(fs.disk), fs.trace, fs.disk)
  {
    ghost var d, t := fs.disk, fs.trace;
    rc := SaveFileContents(fs, CACHE_TEMP_SOURCE, data);
    PresentKnown(w, job, t, d);
    CopyKnown(w, job, t, fs.trace, d, data);
    StillSafe(w, job, t, fs.trace, d, iset{CACHE_TEMP_SOURCE});
    GainedWider(t, fs.trace, d, iset{CACHE_TEMP_SOURCE}, Scratch(job));
    SavedIsFile();
  }

  lemma CopyKnown(w: World, job: Job, before: seq<Disk>, after: seq<Disk>, d: Disk, data: seq<byte>)
    requires Known(w, job, d) && GainedBut(before, after, d, iset{CACHE_TEMP_SOURCE}) && job.source != CACHE_TEMP_SOURCE
    requires Filling(before, after, CACHE_TEMP_SOURCE, data) && data in w.known && Closed(w)
    ensures AllKnown(w, job, before, after)
  {
    forall i {:trigger after[i]} | |before| <= i < |after|
      ensures Known(w, job, after[i])
    {
      var x := after[i][CACHE_TEMP_SOURCE];
      assert x == data[..|x|] && AgreeBut(after[i], d, iset{CACHE_TEMP_SOURCE});
    }
  }

  // Delete the original, with the copy in place.
  method DeleteSource(fs: FileSystem, w: World, job: Job)
    requires fs.Valid() && AllSafe(w, job, fs.trace) && Listed(w, job, CACHE_TEMP_SOURCE, fs.disk)
             && job.source != CACHE_TEMP_SOURCE
    modifies fs`disk, fs`trace
    ensures fs.Valid() && AllSafe(w, job, fs.trace) && Listed(w, job, CACHE_TEMP_SOURCE, fs.disk)
    ensures fs.reliable ==> job.source !in fs.disk
    ensures Scratched(job, old(fs.trace), old(fs.disk), fs.trace, fs.disk)
  {
    ghost var d, t := fs.disk, fs.trace;
    fs.Unlink(job.source);
    PresentKnown(w, job, t, d);
    UnlinkKnown(w, job, t, fs.trace, d, fs.disk, job.source);
    StillSafe(w, job, t, fs.trace, d, iset{job.source});
    GainedWider(t, fs.trace, d, iset{job.source}, Scratch(job));
  }

  lemma UnlinkKnown(w: World, job: Job, before: seq<Disk>, after: seq<Disk>, d: Disk, d': Disk, p: Path)
    requires Known(w, job, d) && (after == before || after == before + [d']) && (p in d' ==> d' == d)
    requires AgreeBut(d', d, iset{p})
    ensures AllKnown(w, job, before, after)
  {
    assert job.source in iset{p} ==> job.source == p;
    assert CACHE_TEMP_SOURCE in iset{p} ==> CACHE_TEMP_SOURCE == p;
  }

  // Save the source to the cache and delete the original, to make room for the target
  // (applypatch.c:882-911).
  method BackUpSource(fs: FileSystem, w: World, job: Job, data: seq<byte>) returns (ok: bool)
    requires fs.Valid() && Placed(job) && AllSafe(w, job, fs.trace) && Held(w, job, fs.disk, data)
             && w.mask(data) == Some(data) && data in w.known && Closed(w)
    modifies fs
    ensures fs.Valid() && AllSafe(w, job, fs.trace) && (fs.reliable ==> ok)
    ensures ok ==> Listed(w, job, CACHE_TEMP_SOURCE, fs.disk) && |data| <= fs.lastFree
    ensures fs.reliable ==> job.source !in fs.disk
    ensures Scratched(job, old(fs.trace), old(fs.disk), fs.trace, fs.disk)
  {
    ghost var t0, d0 := fs.trace, fs.disk;
    var rc := ClearCache(fs, w, job, data);
    if rc < 0 {
      return false;
    }
    ghost var t1, d1 := fs.trace, fs.disk;
    rc := SaveCopy(fs, w, job, data);
    ScratchedTwice(job, t0, d0, t1, d1, fs.trace, fs.disk);
    if rc < 0 {
      return false;
    }
    ghost var t2, d2 := fs.trace, fs.disk;
    DeleteSource(fs, w, job);
    ScratchedTwice(job, t0, d0, t2, d2, fs.trace, fs.disk);
    ok := true;
  }

  // A source that was masked when it was loaded is not changed by masking again.
  lemma HeldMasked(w: World, job: Job, wanted: seq<byte>, d: Disk, data: seq<byte>)
    requires Sound(w, job, wanted) && Held(w, job, d, data) && Known(w, job, d) && !IsPartition(job.source)
    ensures w.mask(data) == Some(data) && data in w.known
  {
  }

  // One attempt at writing the output: given up, failed, or done with these bytes hashed.
  datatype Attempt = Abort | Failed | Done(hashed: seq<byte>)

  // Apply the patch of whichever format it is.
  method RunPatch(w: World, patch: seq<byte>, data: seq<byte>, bonus: Option<seq<byte>>, room: nat)
    returns (a: Attempt, sunk: seq<byte>)
    ensures var full := PatchOutput(w, patch, data, bonus);
            && (a.Done? ==> full.rc == 0 && (a.hashed == full.out ==> sunk == full.out))
            && (a.Abort? <==> |patch| < 8 || (patch[..8] != MAGIC && patch[..8] != IMG_MAGIC))
            && (a.Done? ==> SomeOf(a.hashed, PatchParts(w, patch, data, bonus)))
            && (|full.out| <= room && full.rc == 0 ==> a == Done(full.out))
  {
    var sink := new Sink(false, room);
    var ctx := new Sha();
    ghost var full := PatchOutput(w, patch, data, bonus);
    assert [] + full.out == full.out;
    var result;
    if |patch| >= 8 && patch[..8] == MAGIC {
      result := ApplyBSDiffPatch(w.z, data, patch, 0, sink, ctx);
    } else if |patch| >= 8 && patch[..8] == IMG_MAGIC {
      result := ApplyImagePatch(w.z, w.zl, data, patch, sink, ctx, bonus);
    } else {
      return Abort, [];
    }
    assert ctx.hashed[0..] == ctx.hashed && ([full.out][0] <= full.out && full.out[|full.out|..] == []);
    return if result != 0 then Failed else Done(ctx.hashed), sink.sunk;
  }

  // Write the patched data to the .patch file (applypatch.c:914-984).
  method WriteOutput(fs: FileSystem, w: World, job: Job, patch: Value, data: seq<byte>) returns (a: Attempt)
    requires fs.Valid()
    modifies fs
    ensures var o := job.Out();
            fs.Valid() && GainedBut(old(fs.trace), fs.trace, old(fs.disk), iset{o})
            && AgreeBut(fs.disk, old(fs.disk), iset{o})
    ensures a.Done? ==> patch.Blob? && job.Out() in fs.disk
    ensures a.Done? ==> var full := PatchOutput(w, patch.data, data, job.bonus);
                        full.rc == 0 && (a.hashed == full.out ==> fs.disk[job.Out()] == full.out)
                        && SomeOf(a.hashed, PatchParts(w, patch.data, data, job.bonus))
    ensures fs.reliable && patch.Blob? && PatchOutput(w, patch.data, data, job.bonus).rc == 0 ==>
              a == Done(PatchOutput(w, patch.data, data, job.bonus).out)
  {
    assert fs.trace[..|fs.trace|] == fs.trace;
    if !patch.Blob? {
      return Abort;
    }
    var ok := fs.Open(job.Out());
    if !ok {
      return Abort;
    }
    ghost var t, d := fs.trace, fs.disk;
    var full := PatchOutput(w, patch.data, data, job.bonus);
    var room: nat :| fs.reliable ==> |full.out| <= room;
    var sunk;
    a, sunk := RunPatch(w, patch.data, data, job.bonus, room);
    fs.Deliver(job.Out(), sunk);
    assert [] + sunk == sunk;
    GainedTrans(old(fs.trace), t, fs.trace, old(fs.disk), d, iset{job.Out()});
  }

  // What the retry loop knows before each turn: the file it patches from is still there.
  ghost predicate Ready(w: World, job: Job, d: Disk, data: seq<byte>, fromSource: bool)
  {
    if fromSource then
      Held(w, job, d, data)
    else
      Listed(w, job, CACHE_TEMP_SOURCE, d)
  }

  // One turn of the retry loop (applypatch.c:843-1000).  free is the space FreeSpaceForFile
  // finds on the target's file system.
  method TryOnce(fs: FileSystem, w: World, job: Job, from: FileContents, patch: Value, fromSource: bool, retry0: int,
                 free: nat, ghost wanted: seq<byte>)
    returns (a: Attempt, retry: int, madeCopy: bool)
    requires fs.Valid() && Sound(w, job, wanted) && Placed(job) && AllSafe(w, job, fs.trace)
    requires Ready(w, job, fs.disk, from.data, fromSource) && Leads(w, job, wanted, from.data, patch)
    modifies fs
    ensures fs.Valid() && AllSafe(w, job, fs.trace) && retry == (if retry0 > 0 && Enough(job, free) then retry0 else 0)
    ensures madeCopy ==> fromSource && retry == 0
    ensures Ready(w, job, fs.disk, from.data, fromSource && !madeCopy) || (a.Abort? && Safe(w, job, fs.disk))
    ensures a.Done? ==> job.Out() in fs.disk && (a.hashed == wanted ==> fs.disk[job.Out()] == wanted)
    ensures a.Done? && w.sha(a.hashed) == job.targetSha ==> a.hashed == wanted
    ensures fs.reliable && !(fromSource && IsPartition(job.source)) ==> a == Done(wanted)
    ensures Scratched(job, old(fs.trace), old(fs.disk), fs.trace, fs.disk)
    ensures !fromSource || retry > 0 ==> GainedBut(old(fs.trace), fs.trace, old(fs.disk), iset{job.Out()})
                                         && AgreeBut(fs.disk, old(fs.disk), iset{job.Out()})
    ensures fs.reliable && fromSource && retry == 0 && !IsPartition(job.source) ==> madeCopy && job.source !in fs.disk
  {
    retry, madeCopy := retry0, false;
    OutApart(job);
    assert fs.trace[..|fs.trace|] == fs.trace;
    var enough := false;
    if retry > 0 {
      enough := free > 0x4_0000 && free > job.targetSize * 3 / 2;
    }
    if !enough {
      retry := 0;
    }
    if !enough && fromSource {
      if IsPartition(job.source) {
        return Abort, retry, madeCopy;
      }
      PresentKnown(w, job, fs.trace, fs.disk);
      HeldMasked(w, job, wanted, fs.disk, from.data);
      var ok := BackUpSource(fs, w, job, from.data);
      if !ok {
        assert Safe(w, job, fs.trace[|fs.trace| - 1]);
        return Abort, retry, madeCopy;
      }
      madeCopy := true;
    }
    ghost var d, t := fs.disk, fs.trace;
    a := WriteOutput(fs, w, job, patch, from.data);
    PresentKnown(w, job, t, d);
    StillKnown(w, job, t, fs.trace, d, iset{job.Out()});
    StillSafe(w, job, t, fs.trace, d, iset{job.Out()});
    GainedWider(t, fs.trace, d, iset{job.Out()}, Scratch(job));
    ScratchedTwice(job, old(fs.trace), old(fs.disk), t, d, fs.trace, fs.disk);
  }

  // The paths that putting the output in place changes.
  ghost function Moved(job: Job): iset<Path> {
    iset{job.Out(), job.Target(), CACHE_TEMP_SOURCE}
  }

  // The states gained have the wanted file in place of the target, and differ otherwise only
  // in the output file and the saved copy.
  ghost predicate Placing(job: Job, t: seq<Disk>, d: Disk, t': seq<Disk>, d': Disk, wanted: seq<byte>)
  {
    && GainedBut(t, t', d, Moved(job)) && AgreeBut(d', d, Moved(job))
    && forall i {:trigger t'[i]} :: |t| <= i < |t'| ==> job.Target() in t'[i] && t'[i][job.Target()] == wanted
  }

  // The saved copy is as it was.
  ghost predicate SameSaved(d: Disk, d': Disk)
  {
    (CACHE_TEMP_SOURCE in d <==> CACHE_TEMP_SOURCE in d')
    && (CACHE_TEMP_SOURCE in d ==> d[CACHE_TEMP_SOURCE] == d'[CACHE_TEMP_SOURCE])
  }

  lemma PlacingNothing(job: Job, t: seq<Disk>, d: Disk, wanted: seq<byte>)
    ensures Placing(job, t, d, t, d, wanted)
  {
    assert t[..|t|] == t;
  }

  lemma PlacingOnce(job: Job, t: seq<Disk>, d: Disk, d': Disk, wanted: seq<byte>)
    requires AgreeBut(d', d, Moved(job)) && job.Target() in d' && d'[job.Target()] == wanted
    ensures Placing(job, t, d, t + [d'], d', wanted)
  {
  }

  // Rename the output to the target.
  method MoveOutput(fs: FileSystem, w: World, job: Job, ghost wanted: seq<byte>) returns (ok: bool)
    requires fs.Valid() && Sound(w, job, wanted) && Placed(job) && AllSafe(w, job, fs.trace)
    requires job.Out() in fs.disk && fs.disk[job.Out()] == wanted
    modifies fs
    ensures fs.Valid() && AllSafe(w, job, fs.trace) && (fs.reliable ==> ok)
    ensures ok ==> job.Target() in fs.disk && fs.disk[job.Target()] == wanted
    ensures Placing(job, old(fs.trace), old(fs.disk), fs.trace, fs.disk, wanted) && SameSaved(old(fs.disk), fs.disk)
  {
    ghost var t, d := fs.trace, fs.disk;
    OutApart(job);
    ok := fs.Rename(job.Out(), job.Target());
    if ok {
      PlacingOnce(job, t, d, fs.disk, wanted);
      PresentKnown(w, job, t, d);
      assert Wanted(w, job, fs.disk) && Known(w, job, fs.disk);
    } else {
      PlacingNothing(job, t, d, wanted);
    }
  }

  // Delete the saved copy, with the target in place.
  method DropCopy(fs: FileSystem, w: World, job: Job, ghost wanted: seq<byte>, ghost t0: seq<Disk>, ghost d0: Disk)
    requires fs.Valid() && Sound(w, job, wanted) && Placed(job) && AllSafe(w, job, fs.trace)
    requires job.Target() in fs.disk && fs.disk[job.Target()] == wanted
             && Placing(job, t0, d0, fs.trace, fs.disk, wanted)
    modifies fs
    ensures fs.Valid() && AllSafe(w, job, fs.trace) && job.Target() in fs.disk && fs.disk[job.Target()] == wanted
    ensures Placing(job, t0, d0, fs.trace, fs.disk, wanted) && (fs.reliable ==> CACHE_TEMP_SOURCE !in fs.disk)
  {
    ghost var d, t := fs.disk, fs.trace;
    assert Wanted(w, job, d);
    fs.Unlink(CACHE_TEMP_SOURCE);
    PresentKnown(w, job, t, d);
    UnlinkKnown(w, job, t, fs.trace, d, fs.disk, CACHE_TEMP_SOURCE);
    StillSafe(w, job, t, fs.trace, d, iset{CACHE_TEMP_SOURCE});
    GainedWider(t, fs.trace, d, iset{CACHE_TEMP_SOURCE}, Moved(job));
    GainedTrans(t0, t, fs.trace, d0, d, Moved(job));
    forall i {:trigger fs.trace[i]} | |t0| <= i < |fs.trace|
      ensures job.Target() in fs.trace[i] && fs.trace[i][job.Target()] == wanted
    {
      if i < |t| {
        assert fs.trace[i] == fs.trace[..|t|][i] == t[i];
      }
    }
  }

  // Move the output into place, and drop the saved copy this run made (applypatch.c:1016-1041).
  method PutInPlace(fs: FileSystem, w: World, job: Job, madeCopy: bool, ghost wanted: seq<byte>) returns (rc: int)
    requires fs.Valid() && Sound(w, job, wanted) && Placed(job) && AllSafe(w, job, fs.trace)
    requires job.Out() in fs.disk && fs.disk[job.Out()] == wanted
    modifies fs
    ensures fs.Valid() && AllSafe(w, job, fs.trace) && (fs.reliable ==> rc == 0)
    ensures rc == 0 ==> Wanted(w, job, fs.disk)
    ensures Placing(job, old(fs.trace), old(fs.disk), fs.trace, fs.disk, wanted)
    ensures if madeCopy then fs.reliable ==> CACHE_TEMP_SOURCE !in fs.disk else SameSaved(old(fs.disk), fs.disk)
  {
    ghost var t0, d0 := fs.trace, fs.disk;
    PlacingNothing(job, t0, d0, wanted);
    var ok := fs.SetMode();
    if !ok {
      return 1;
    }
    ok := fs.SetMode();
    if !ok {
      return 1;
    }
    ok := MoveOutput(fs, w, job, wanted);
    if !ok {
      return 1;
    }
    if madeCopy {
      DropCopy(fs, w, job, wanted, t0, d0);
    }
    return 0;
  }

  // What the attempts have written to, if the file patched from has not been deleted.
  ghost predicate Clean(job: Job, t: seq<Disk>, d: Disk, t': seq<Disk>, d': Disk)
  {
    GainedBut(t, t', d, iset{job.Out()}) && AgreeBut(d', d, iset{job.Out()})
  }

  lemma CleanTwice(job: Job, t: seq<Disk>, d: Disk, t1: seq<Disk>, d1: Disk, t2: seq<Disk>, d2: Disk)
    requires Clean(job, t, d, t1, d1) && Clean(job, t1, d1, t2, d2)
    ensures Clean(job, t, d, t2, d2)
  {
    GainedTrans(t, t1, t2, d, d1, iset{job.Out()});
  }

  lemma PrefixTwice(a: seq<Disk>, b: seq<Disk>, c: seq<Disk>)
    requires a <= b && b <= c
    ensures a <= c
  {
  }

  // The retry loop (applypatch.c:843-1000).
  method TryAll(fs: FileSystem, w: World, job: Job, from: FileContents, patch: Value, fromSource: bool,
                free: nat, ghost wanted: seq<byte>)
    returns (a: Attempt, madeCopy: bool, ghost retried: bool, ghost first: Attempt)
    requires fs.Valid() && Sound(w, job, wanted) && Placed(job) && AllSafe(w, job, fs.trace)
    requires Ready(w, job, fs.disk, from.data, fromSource) && Leads(w, job, wanted, from.data, patch)
    modifies fs
    ensures fs.Valid() && AllSafe(w, job, fs.trace) && old(fs.trace) <= fs.trace
    ensures a.Done? ==> job.Out() in fs.disk && (a.hashed == wanted ==> fs.disk[job.Out()] == wanted)
    ensures a.Done? && w.sha(a.hashed) == job.targetSha ==> a.hashed == wanted
    ensures fs.reliable && !(fromSource && IsPartition(job.source)) ==> a == Done(wanted) && !retried
    ensures (retried <==> Enough(job, free) && first.Failed?) && (!retried ==> a == first)
    ensures madeCopy ==> fromSource && (retried || !Enough(job, free))
    ensures !fromSource || (Enough(job, free) && !retried) ==>
              Clean(job, old(fs.trace), old(fs.disk), fs.trace, fs.disk)
    ensures fs.reliable && fromSource && !Enough(job, free) && !IsPartition(job.source) ==>
              madeCopy && job.source !in fs.disk && Scratched(job, old(fs.trace), old(fs.disk), fs.trace, fs.disk)
  {
    OutApart(job);
    ghost var t0, d0 := fs.trace, fs.disk;
    assert fs.trace[..|fs.trace|] == fs.trace;
    var retry := 1;
    retried, first := false, Abort;
    while true
      invariant retried ==> Enough(job, free) && first.Failed?
      invariant 0 <= retry <= 1 && retried == (retry == 0) && fs.Valid() && AllSafe(w, job, fs.trace)
      invariant Ready(w, job, fs.disk, from.data, fromSource)
      invariant t0 <= fs.trace && (!retried ==> fs.trace == t0 && fs.disk == d0)
      invariant !fromSource || !retried ==> Clean(job, t0, d0, fs.trace, fs.disk)
      invariant fs.reliable && !(fromSource && IsPartition(job.source)) ==> !retried
      decreases retry
    {
      ghost var t1, d1 := fs.trace, fs.disk;
      a, retry, madeCopy := TryOnce(fs, w, job, from, patch, fromSource, retry, free, wanted);
      first := if retried then first else a;
      if !fromSource {
        CleanTwice(job, t0, d0, t1, d1, fs.trace, fs.disk);
      }
      PrefixTwice(t0, t1, fs.trace);
      if !a.Failed? || retry == 0 {
        return;
      }
      ghost var t2, d2 := fs.trace, fs.disk;
      fs.Unlink(job.Out());
      PresentKnown(w, job, t2, d2);
      StillKnown(w, job, t2, fs.trace, d2, iset{job.Out()});
      StillSafe(w, job, t2, fs.trace, d2, iset{job.Out()});
      CleanTwice(job, t0, d0, t2, d2, fs.trace, fs.disk);
      retry, retried := retry - 1, true;
    }
  }

  // Before the output is put in place: whether only the output file has been written to, and
  // whether the source has been deleted.
  ghost predicate SoFar(job: Job, t0: seq<Disk>, d0: Disk, t: seq<Disk>, d: Disk, clean: bool, gone: bool)
  {
    && Ends(t0, d0) && Ends(t, d) && t0 <= t
    && (clean ==> Clean(job, t0, d0, t, d))
    && (gone ==> job.source in d0 && job.source !in d && Scratched(job, t0, d0, t, d))
  }

  // What has become of the original.
  ghost predicate Fate(job: Job, wanted: seq<byte>, t0: seq<Disk>, d0: Disk, t: seq<Disk>, d: Disk, clean: bool,
                       gone: bool)
  {
    && t0 <= t
    && (clean ==> AllKept(job, wanted, d0, t0, t) && Kept(job, wanted, d0, d) && SameSaved(d0, d))
    && (gone ==> Missing(job, d0, t0, t) && (job.source != job.Target() ==> job.source !in d))
  }

  // GenerateTarget (applypatch.c:813-1042), for a target that is a regular file.
  method GenerateTarget(fs: FileSystem, w: World, job: Job, from: FileContents, patch: Value, fromSource: bool,
                        free: nat, ghost wanted: seq<byte>)
    returns (rc: int, ghost retried: bool, ghost first: Attempt)
    requires fs.Valid() && Sound(w, job, wanted) && Placed(job) && AllSafe(w, job, fs.trace)
    requires Ready(w, job, fs.disk, from.data, fromSource) && Leads(w, job, wanted, from.data, patch)
    modifies fs
    ensures fs.Valid() && AllSafe(w, job, fs.trace)
    ensures rc == 0 ==> Wanted(w, job, fs.disk)
    ensures fs.reliable && !(fromSource && IsPartition(job.source)) ==> rc == 0 && !retried
    ensures retried <==> Enough(job, free) && first.Failed?
    ensures var clean := !fromSource || (Enough(job, free) && !retried);
            var gone := fs.reliable && fromSource && !Enough(job, free) && !IsPartition(job.source);
            Fate(job, wanted, old(fs.trace), old(fs.disk), fs.trace, fs.disk, clean, gone)
            && (gone ==> CACHE_TEMP_SOURCE !in fs.disk)
  {
    ghost var t0, d0 := fs.trace, fs.disk;
    ghost var gone := fs.reliable && fromSource && !Enough(job, free) && !IsPartition(job.source);
    var a, madeCopy;
    a, madeCopy, retried, first := TryAll(fs, w, job, from, patch, fromSource, free, wanted);
    ghost var clean, t, d := !fromSource || (Enough(job, free) && !retried), fs.trace, fs.disk;
    assert SoFar(job, t0, d0, t, d, clean, gone);
    if !a.Done? || w.sha(a.hashed) != job.targetSha {
      KeptOutside(job, wanted, d0, t0, t, d, clean);
      if clean {
        CleanSaved(job, t0, d0, t, d);
      }
      return 1, retried, first;
    }
    rc := PutInPlace(fs, w, job, madeCopy, wanted);
    FateSealed(job, wanted, t0, d0, t, d, fs.trace, fs.disk, clean, gone);
  }

  lemma CleanSaved(job: Job, t0: seq<Disk>, d0: Disk, t: seq<Disk>, d: Disk)
    requires Clean(job, t0, d0, t, d)
    ensures SameSaved(d0, d)
  {
    OutApart(job);
  }

  lemma FateSealed(job: Job, wanted: seq<byte>, t0: seq<Disk>, d0: Disk, t: seq<Disk>, d: Disk,
                   t': seq<Disk>, d': Disk, clean: bool, gone: bool)
    requires Placed(job) && SoFar(job, t0, d0, t, d, clean, gone) && Placing(job, t, d, t', d', wanted)
    requires Ends(t', d') && (clean ==> SameSaved(d, d'))
    ensures Fate(job, wanted, t0, d0, t', d', clean, gone)
  {
    KeptPlaced(job, wanted, d0, t0, t, d, t', d', clean);
    if clean {
      CleanSaved(job, t0, d0, t, d);
    }
    if gone {
      GoneFor(job, wanted, d0, t0, t, d, t', d');
    }
    assert t'[..|t0|] == t'[..|t|][..|t0|];
  }

  // The source was gone before the output was put in place, and stays so unless it is the
  // target.
  lemma GoneFor(job: Job, wanted: seq<byte>, d0: Disk, t0: seq<Disk>, t: seq<Disk>, d: Disk, t': seq<Disk>, d': Disk)
    requires Placed(job) && Scratched(job, t0, d0, t, d) && job.source !in d && job.source in d0
    requires Ends(t0, d0) && Ends(t, d) && Placing(job, t, d, t', d', wanted)
    ensures Missing(job, d0, t0, t') && (job.source != job.Target() ==> job.source !in d')
  {
    OutApart(job);
    assert t[|t0| - 1] == t[..|t0|][|t0| - 1];
    assert Gone(job, d0, d);
    assert t'[|t| - 1] == t'[..|t|][|t| - 1] == d;
  }

  // Where only the output file has been written to, the original is as it was.
  lemma KeptOutside(job: Job, wanted: seq<byte>, was: Disk, before: seq<Disk>, after: seq<Disk>, d: Disk, clean: bool)
    requires Placed(job) && (clean ==> Clean(job, before, was, after, d))
    ensures clean ==> AllKept(job, wanted, was, before, after) && Kept(job, wanted, was, d)
  {
  }

  // Putting the output in place changes the original only if it is the target.
  lemma KeptPlaced(job: Job, wanted: seq<byte>, was: Disk, t0: seq<Disk>, t: seq<Disk>, d: Disk,
                   t': seq<Disk>, d': Disk, clean: bool)
    requires Placed(job) && Placing(job, t, d, t', d', wanted) && |t0| <= |t|
    requires Ends(t', d') && Ends(t, d)
    requires clean ==> Clean(job, t0, was, t, d)
    ensures clean ==> AllKept(job, wanted, was, t0, t') && Kept(job, wanted, was, d')
  {
    KeptOutside(job, wanted, was, t0, t, d, clean);
    forall i {:trigger t'[i]} | |t0| <= i < |t'| && clean
      ensures Kept(job, wanted, was, t'[i])
    {
      if i < |t| {
        assert t'[i] == t'[..|t|][i] == t[i];
      } else {
        assert AgreeBut(t'[i], d, Moved(job));
      }
    }
    if |t'| == |t| {
      assert t' == t'[..|t|];
    }
  }

  // What to do (applypatch.c:745-801): nothing if the target is right; else which file to patch
  // and how.
  method Choose(fs: FileSystem, w: World, job: Job, ghost wanted: seq<byte>)
    returns (right: bool, file: Option<FileContents>, patch: Value, fromSource: bool)
    requires fs.Valid() && Sound(w, job, wanted) && AllSafe(w, job, fs.trace)
    ensures right ==> Wanted(w, job, fs.disk)
    ensures !right && file.Some? ==>
              Ready(w, job, fs.disk, file.value.data, fromSource) && Leads(w, job, wanted, file.value.data, patch)
    ensures fs.reliable ==> (right <==> Wanted(w, job, fs.disk)) && (right || file.Some?)
    ensures fs.reliable && !right ==> (fromSource <==> Listed(w, job, job.source, fs.disk))
  {
    assert Safe(w, job, fs.trace[|fs.trace| - 1]);
    SavedIsFile();
    right, fromSource, patch := false, false, OtherValue;
    file := LoadFileContents(fs, w, job.Target());
    if file.Some? && file.value.sha1 == job.targetSha {
      right := true;
      return;
    }
    if file.None? || job.Target() != job.source {
      file := LoadFileContents(fs, w, job.source);
    }
    var toUse := -1;
    if file.Some? {
      toUse := FindMatchingPatch(file.value.sha1, job.shas);
    }
    if toUse >= 0 {
      fromSource, patch := true, job.patches[toUse];
      return;
    }
    file := LoadFileContents(fs, w, CACHE_TEMP_SOURCE);
    if file.None? {
      return;
    }
    toUse := FindMatchingPatch(file.value.sha1, job.shas);
    if toUse < 0 {
      file := None;
      return;
    }
    patch := job.patches[toUse];
  }

  // applypatch: if the target is not as it should be, make it from the source, or from the
  // saved copy of the source.  The original is kept until the wanted file is there unless it
  // is patched from and either there is too little room or the first attempt fails.  Then,
  // in a run that meets no failure, it is deleted first, and does not come back.
  method ApplyPatch(fs: FileSystem, w: World, job: Job, free: nat, ghost wanted: seq<byte>)
    returns (rc: int, ghost fromSource: bool, ghost retried: bool)
    requires fs.Valid() && Sound(w, job, wanted) && Placed(job) && AllSafe(w, job, fs.trace)
    modifies fs
    ensures fs.Valid() && AllSafe(w, job, fs.trace) && old(fs.trace) <= fs.trace
    ensures rc == 0 ==> Wanted(w, job, fs.disk)
    ensures fs.reliable && !IsPartition(job.source) ==> rc == 0
    ensures fs.reliable && old(Wanted(w, job, fs.disk)) ==>
              rc == 0 && fs.disk == old(fs.disk) && fs.trace == old(fs.trace)
    ensures !fromSource || (Enough(job, free) && !retried) ==>
              && AllKept(job, wanted, old(fs.disk), old(fs.trace), fs.trace) && Kept(job, wanted, old(fs.disk), fs.disk)
              && SameSaved(old(fs.disk), fs.disk)
    ensures fs.reliable && !IsPartition(job.source) ==>
              !retried && (fromSource <==> old(!Wanted(w, job, fs.disk) && Listed(w, job, job.source, fs.disk)))
    ensures fs.reliable && fromSource && !Enough(job, free) && !IsPartition(job.source) ==>
              && Missing(job, old(fs.disk), old(fs.trace), fs.trace) && CACHE_TEMP_SOURCE !in fs.disk
              && (job.source != job.Target() ==> job.source !in fs.disk)
  {
    fromSource, retried := false, false;
    var right, file, patch, usesSource := Choose(fs, w, job, wanted);
    if right || file.None? {
      rc := if right then 0 else 1;
      return;
    }
    fromSource := usesSource;
    ghost var first;
    rc, retried, first := GenerateTarget(fs, w, job, file.value, patch, usesSource, free, wanted);
  }

  // The source is there in the end, and as it was in every state, exactly if there was room
  // enough; otherwise there is a state in which both files are missing.
  ghost predicate Survives(w: World, job: Job, start: Disk, states: seq<Disk>, d: Disk, enough: bool)
    requires job.source in start
  {
    && (job.source in d <==> enough)
    && ((forall e :: e in states ==> job.source in e && e[job.source] == start[job.source]) <==> enough)
    && (!enough ==> exists e :: e in states && Gone(job, start, e) && !Wanted(w, job, e))
  }

  // In a run that meets no failure and makes another file from the source, the source
  // survives exactly if there was room enough.
  method SourceSurvives(start: Disk, w: World, job: Job, free: nat, ghost wanted: seq<byte>)
    returns (d: Disk, states: seq<Disk>)
    requires Sound(w, job, wanted) && Placed(job) && !IsPartition(job.source) && job.source != job.Target()
    requires !Wanted(w, job, start) && Listed(w, job, job.source, start) && Known(w, job, start)
    ensures Wanted(w, job, d) && Ends(states, d) && [start] <= states
    ensures Survives(w, job, start, states, d, Enough(job, free))
  {
    var fs := new FileSystem(start, true);
    ghost var fromSource, retried;
    var rc;
    rc, fromSource, retried := ApplyPatch(fs, w, job, free, wanted);
    d, states := fs.disk, fs.trace;
    Survival(w, job, wanted, start, states, d, Enough(job, free));
  }

  lemma Survival(w: World, job: Job, wanted: seq<byte>, start: Disk, states: seq<Disk>, d: Disk, enough: bool)
    requires job.source != job.Target() && job.source in start && !Wanted(w, job, start) && [start] <= states
    requires enough ==> AllKept(job, wanted, start, [start], states) && Kept(job, wanted, start, d)
    requires !enough ==> Missing(job, start, [start], states) && job.source !in d
    ensures Survives(w, job, start, states, d, enough)
  {
    if enough {
      AllThere(job, wanted, start, states, d);
    } else {
      SomeGone(w, job, start, states);
    }
  }

  lemma AllThere(job: Job, wanted: seq<byte>, start: Disk, states: seq<Disk>, d: Disk)
    requires job.source != job.Target() && job.source in start && states != [] && states[0] == start
    requires AllKept(job, wanted, start, [start], states) && Kept(job, wanted, start, d)
    ensures job.source in d && forall e :: e in states ==> job.source in e && e[job.source] == start[job.source]
  {
    forall i | 0 <= i < |states|
      ensures job.source in states[i] && states[i][job.source] == start[job.source]
    {
      assert i == 0 || Kept(job, wanted, start, states[i]);
    }
  }

  lemma SomeGone(w: World, job: Job, start: Disk, states: seq<Disk>)
    requires Missing(job, start, [start], states) && !Wanted(w, job, start)
    ensures exists e :: e in states && Gone(job, start, e) && !Wanted(w, job, e)
  {
    var i :| 1 <= i < |states| && Gone(job, start, states[i]);
    assert states[i] in states && !Wanted(w, job, states[i]);
  }

  // A small update: one byte in another file, made from one byte by a patch that holds it.
  function SameBytes(x: seq<byte>): seq<byte> {
    x
  }

  function NoMask(x: seq<byte>): Option<seq<byte>> {
    Some(x)
  }

  function SmallWorld(): World {
    World(Codec(SameBytes, SameBytes), Zlib(x => NotDeflate, (p, x) => x), SameBytes, NoMask, iset{[], [1], [2]})
  }

  function SmallJob(): Job {
    Job("/system/a", "/system/b", [2], 1, [Some([1])], [Blob(ImgFile([RawPlan([2])]))], None)
  }

  lemma SmallPatchLeads(data: seq<byte>)
    ensures Leads(SmallWorld(), SmallJob(), [2], data, SmallJob().patches[0])
  {
    var ps, ts: seq<seq<byte>>, w := [RawPlan([2])], [[2]], SmallWorld();
    RecordsSize(ps, HeaderSize(ps));
    assert RecordSizes(ps) == 9 + RecordSizes(ps[1..]) == 9 && Tails(ps) == ps[0].Tail() + Tails(ps[1..]) == [];
    ImgRoundTrip(w.z, w.zl, data, ps, None, ts);
    ConcatOne([2 as byte]);
    assert ImgFile(ps)[..8] == IMG_MAGIC && IMG_MAGIC[0] != MAGIC[0];
  }

  lemma SmallJobIsPlaced()
    ensures Placed(SmallJob())
  {
    var job := SmallJob();
    assert job.source[1] == 's' && job.Target()[1] == 's' && "/cache"[1] == 'c' && CACHE_TEMP_SOURCE[1] == 'c';
    assert job.Out()[8] == 'b' && job.source[8] == 'a' && "MTD:"[0] == 'M' && "EMMC:"[0] == 'E';
  }

  lemma SmallIsClosed()
    ensures Closed(SmallWorld())
  {
    forall x: seq<byte>, n {:trigger x[..n]} | x in SmallWorld().known && 0 <= n <= |x|
      ensures x[..n] in SmallWorld().known
    {
      assert x[..n] == [] || x[..n] == x;
    }
  }

  lemma SmallJobIsSound()
    ensures Sound(SmallWorld(), SmallJob(), [2]) && Placed(SmallJob())
  {
    SmallJobIsPlaced();
    SmallIsClosed();
    var w, job := SmallWorld(), SmallJob();
    forall x {:trigger Matching(w.sha(x), job.shas)} | 0 <= Matching(w.sha(x), job.shas)
      ensures Leads(w, job, [2], x, job.patches[Matching(w.sha(x), job.shas)])
    {
      SmallPatchLeads(x);
    }
  }

  // In a run of it without room the source is deleted before the target is there, and for
  // good.
  method SourceIsDeleted() returns (d: Disk, states: seq<Disk>)
    ensures [SmallDisk()] <= states && Ends(states, d)
    ensures exists e :: e in states && "/system/a" !in e && "/system/b" !in e
    ensures "/system/a" !in d && "/system/b" in d
  {
    SmallJobIsSound();
    SmallStart();
    d, states := SourceSurvives(SmallDisk(), SmallWorld(), SmallJob(), 0, [2]);
    ghost var e :| e in states && Gone(SmallJob(), SmallDisk(), e);
    SmallGone(e);
  }

  function SmallDisk(): Disk {
    map["/system/a" := [1]]
  }

  lemma SmallStart()
    ensures var w, job, d := SmallWorld(), SmallJob(), SmallDisk();
            && !IsPartition(job.source) && job.source != job.Target() && !Wanted(w, job, d)
            && Listed(w, job, job.source, d) && Known(w, job, d)
    ensures !Enough(SmallJob(), 0)
  {
    var job := SmallJob();
    assert job.source[0] == '/' && "MTD:"[0] == 'M' && "EMMC:"[0] == 'E';
    assert job.source[8] == 'a' && job.Target()[8] == 'b';
    assert Matching([1], job.shas) == 0;
  }

  lemma SmallGone(e: Disk)
    requires Gone(SmallJob(), SmallDisk(), e)
    ensures "/system/a" !in e && "/system/b" !in e
  {
    assert "/system/a"[8] == 'a' && "/system/b"[8] == 'b';
  }

  // A run that may meet any failure and is cut off in any state it went through.
  method CutOff(start: Disk, w: World, job: Job, ghost wanted: seq<byte>) returns (d: Disk)
    requires Sound(w, job, wanted) && Placed(job) && Safe(w, job, start)
    ensures Safe(w, job, d)
  {
    var fs := new FileSystem(start, false);
    var free: nat := *;
    ghost var fromSource, retried;
    var rc;
    rc, fromSource, retried := ApplyPatch(fs, w, job, free, wanted);
    var k :| 0 <= k < |fs.trace|;
    d := fs.trace[k];
  }

  // Any number of such runs, and then one that meets no failure: the target is as it should
  // be.
  method InterruptedRuns(start: Disk, w: World, job: Job, runs: nat, ghost wanted: seq<byte>) returns (d: Disk)
    requires Sound(w, job, wanted) && Placed(job) && !IsPartition(job.source) && Safe(w, job, start)
    ensures Wanted(w, job, d)
  {
    d := start;
    var i := 0;
    while i < runs
      invariant Safe(w, job, d)
    {
      d := CutOff(d, w, job, wanted);
      i := i + 1;
    }
    var fs := new FileSystem(d, true);
    var free: nat := *;
    ghost var fromSource, retried;
    var rc;
    rc, fromSource, retried := ApplyPatch(fs, w, job, free, wanted);
    d := fs.disk;
  }
}
