// What is safe over any sequence of runs of dedupe (dedupe/dedupe.c:345-616), each of which may
// be cut off, and what a backup restores to.
module DedupeRuns {
  import opened Bytes
  import opened FileSystem
  import opened DedupeText
  import opened DedupeStore
  import opened Dedupe
  import opened DedupeTree
  import opened DedupeGc
  import opened DedupeCut

  // A manifest on the disk: a whole one, or the first n characters of one that was being
  // written when its run was cut off.
  datatype Backup = Whole(es: seq<Entry>) | Part(es: seq<Entry>, n: nat)

  function TextOf(b: Backup): (t: string)
  {
    var t := HEADER + Lines(b.es);
    if b.Part? && b.n <= |t| then t[..b.n] else t
  }

  // The text of each, as they are handed to the collection (nandroid.cpp:223-236).
  function Texts(bs: seq<Backup>): (ms: seq<string>)
    ensures |ms| == |bs| && forall m :: 0 <= m < |bs| ==> ms[m] == TextOf(bs[m])
  {
    seq(|bs|, m requires 0 <= m < |bs| => TextOf(bs[m]))
  }

  // Blobs are right, and so are the blobs of each whole manifest that can be read back.
  ghost predicate Backed(sha: seq<byte> -> string, d: Disk, bs: seq<Backup>)
  {
    BlobsRight(sha, d) && forall m :: 0 <= m < |bs| ==> BackedOne(d, bs[m])
  }

  ghost predicate BackedOne(d: Disk, b: Backup)
  {
    b.Whole? && Recordable(b.es) ==> Supported(d, b.es) && Keyed(b.es)
  }

  // A manifest names this blob.
  ghost predicate Named(bs: seq<Backup>, p: Path)
  {
    exists m :: 0 <= m < |bs| && Names(TextOf(bs[m]), p)
  }

  // Collecting sticks on none of the manifests.
  ghost predicate AllRead(ms: seq<string>)
  {
    forall m :: 0 <= m < |ms| ==> NamesOf(ms[m]).Some?
  }

  // Nothing that create leaves is taken for a newer manifest, whatever the names in it.
  lemma BackupOld(b: Backup)
    ensures ReadManifest(TextOf(b)).version <= DEDUPE_VERSION
  {
    var rest := Lines(b.es);
    if b.Part? && b.n <= |HEADER + rest| {
      CutConcat(HEADER, rest, b.n);
      if b.n < |HEADER| {
        CutHeader(b.n);
      } else {
        BehindHeader(rest[..b.n - |HEADER|]);
      }
    } else {
      BehindHeader(rest);
    }
  }

  // A whole manifest is read and names the blobs of its entries; one that is cut off sticks
  // or names blobs of its first entries.
  lemma BackupReads(b: Backup)
    requires Recordable(b.es)
    ensures FirstNames(NamesOf(TextOf(b)), b.es)
    ensures b.Whole? ==> EntriesOf(TextOf(b)) == Some(b.es) && NamesOf(TextOf(b)) == Some(KeysOf(b.es))
    ensures b.Part? && b.n <= |HEADER + Lines(b.es)| ==> (NamesOf(TextOf(b)).None? <==> StuckAt(b.es, b.n))
  {
    ManifestRoundTrip(b.es);
    EntriesNamed(HEADER + Lines(b.es));
    assert b.es[..|b.es|] == b.es;
    if b.Part? && b.n <= |HEADER + Lines(b.es)| {
      CutReads(b.es, b.n);
    }
  }

  lemma {:induction false} TextsUsed(ms: seq<string>)
    requires forall m :: 0 <= m < |ms| ==> ReadManifest(ms[m]).version <= DEDUPE_VERSION
    ensures UsedKeys(ms).Some? <==> AllRead(ms)
  {
    if ms != [] {
      assert forall k {:trigger ms[1..][k]} :: 0 <= k < |ms| - 1 ==> ms[1..][k] == ms[k + 1];
      assert forall k {:trigger ms[k]} :: 0 < k < |ms| ==> ms[k] == ms[1..][k - 1];
      TextsUsed(ms[1..]);
    }
  }

  // So what counts as used is what is named.
  lemma BackupsUsed(bs: seq<Backup>)
    ensures UsedKeys(Texts(bs)).Some? <==> AllRead(Texts(bs))
    ensures forall p :: NamedInTime(Texts(bs), p) <==> Named(bs, p)
  {
    forall m | 0 <= m < |bs|
      ensures ReadManifest(Texts(bs)[m]).version <= DEDUPE_VERSION
    {
      BackupOld(bs[m]);
    }
    TextsUsed(Texts(bs));
    forall p
      ensures NamedInTime(Texts(bs), p) <==> Named(bs, p)
    {
      if Named(bs, p) {
        var m :| 0 <= m < |bs| && Names(TextOf(bs[m]), p);
        assert Texts(bs)[m] == TextOf(bs[m]) && InTime(Texts(bs), m);
      }
    }
  }

  lemma BackedStays(sha: seq<byte> -> string, d: Disk, e: Disk, bs: seq<Backup>)
    requires Backed(sha, d, bs) && BlobsRight(sha, e) && Stay(d, e)
    ensures Backed(sha, e, bs)
  {
    forall m | 0 <= m < |bs|
      ensures BackedOne(e, bs[m])
    {
      if bs[m].Whole? && Recordable(bs[m].es) {
        SupportedStays(d, e, bs[m].es);
      }
    }
  }

  lemma BackedShrinks(sha: seq<byte> -> string, d: Disk, e: Disk, bs: seq<Backup>, used: seq<Path>)
    requires Backed(sha, d, bs) && Shrunk(d, e, used) && forall p :: Named(bs, p) ==> p in used
    ensures Backed(sha, e, bs)
  {
    forall m | 0 <= m < |bs| && bs[m].Whole? && Recordable(bs[m].es)
      ensures Supported(e, bs[m].es)
    {
      BackupReads(bs[m]);
      forall i | 0 <= i < |bs[m].es| && bs[m].es[i].what.File?
        ensures bs[m].es[i].what.key in e
      {
        KeysIn(bs[m].es, i);
        assert Named(bs, bs[m].es[i].what.key);
      }
    }
  }

  // A run of dedupe: create from a tree, or collect with all manifests listed.  A run that
  // works meets no failure and is not cut off.  Between runs a manifest may be thrown away.
  datatype Job =
    | CreateJob(works: bool, ex: set<string>, tree: Children)
    | CollectJob(works: bool)
    | DropJob(at: nat)

  // What a create leaves among the manifests: nothing, a part of its manifest, or all of it.
  ghost predicate Left(es: seq<Entry>, before: seq<Backup>, after: seq<Backup>)
  {
    after == before || (before < after && |after| == |before| + 1 && after[|before|].es == es)
  }

  // A create that may be cut off in any state.
  method CreateRun(works: bool, d: Disk, sha: seq<byte> -> string, ex: set<string>, tree: Children, bs: seq<Backup>)
    returns (e: Disk, bs': seq<Backup>)
    requires GoodHash(sha) && Backed(sha, d, bs)
    ensures Backed(sha, e, bs') && Left(DirEntries(sha, ex, ".", tree), bs, bs')
    ensures works ==> bs' == bs + [Whole(DirEntries(sha, ex, ".", tree))]
  {
    var fs := new FileSystem(d, works);
    var ok, text := Create(fs, sha, ex, tree);
    var es := DirEntries(sha, ex, ".", tree);
    var finished: bool := *;
    if works || (ok && finished) {
      BackedStays(sha, d, fs.disk, bs);
      DirKeyed(sha, ex, ".", tree);
      return fs.disk, bs + [Whole(es)];
    }
    var k :| 0 <= k < |fs.trace|;
    if k > 0 {
      BackedStays(sha, d, fs.trace[k], bs);
    } else {
      assert fs.trace[..1][0] == d;
    }
    var begun: bool := *;
    var n: nat := *;
    e, bs' := fs.trace[k], bs;
    if begun {
      bs' := bs + [Part(es, n)];
    }
  }

  // A collection that may be cut off in any state.  One that works leaves exactly the blobs
  // the manifests name, or if it sticks on one of them, everything.
  method CollectRun(works: bool, d: Disk, sha: seq<byte> -> string, lt: (Path, Path) -> bool, bs: seq<Backup>)
    returns (e: Disk)
    requires GoodHash(sha) && StrictOrder(lt) && Backed(sha, d, bs)
    ensures Backed(sha, e, bs)
    ensures works && AllRead(Texts(bs)) ==> forall p :: p in e <==> p in d && Named(bs, p)
    ensures !AllRead(Texts(bs)) ==> e == d
  {
    var fs := new FileSystem(d, works);
    BackupsUsed(bs);
    var ok := Collect(fs, lt, Texts(bs));
    var k :| 0 <= k < |fs.trace| && (works ==> k == |fs.trace| - 1);
    if k > 0 {
      CollectedBacked(sha, d, fs.trace[k], bs);
    } else {
      assert fs.trace[..1][0] == d;
    }
    return fs.trace[k];
  }

  lemma CollectedBacked(sha: seq<byte> -> string, d: Disk, e: Disk, bs: seq<Backup>)
    requires Backed(sha, d, bs) && UsedKeys(Texts(bs)).Some? && Shrunk(d, e, UsedKeys(Texts(bs)).value)
    ensures Backed(sha, e, bs)
  {
    BackupsUsed(bs);
    var used := UsedKeys(Texts(bs)).value;
    forall p | Named(bs, p)
      ensures p in used
    {
      UsedExactly(Texts(bs), p);
    }
    BackedShrinks(sha, d, e, bs, used);
  }

  // The manifest of a create that worked is there, unless one has been thrown away since.
  ghost predicate Recorded(sha: seq<byte> -> string, jobs: seq<Job>, n: nat, bs: seq<Backup>)
    requires GoodHash(sha) && n <= |jobs|
  {
    forall i :: 0 <= i < n && jobs[i].CreateJob? && jobs[i].works && (forall j :: i < j < n ==> !jobs[j].DropJob?) ==>
      Whole(DirEntries(sha, jobs[i].ex, ".", jobs[i].tree)) in bs
  }

  // The last job collected, met no failure, and did not stick.
  ghost predicate JustCollected(jobs: seq<Job>, n: nat, bs: seq<Backup>)
    requires n <= |jobs|
  {
    n > 0 && jobs[n - 1].CollectJob? && jobs[n - 1].works && AllRead(Texts(bs))
  }

  // One of them.
  method JobRun(d: Disk, sha: seq<byte> -> string, lt: (Path, Path) -> bool, job: Job, bs: seq<Backup>)
    returns (e: Disk, bs': seq<Backup>)
    requires GoodHash(sha) && StrictOrder(lt) && Backed(sha, d, bs)
    ensures Backed(sha, e, bs') && (!job.DropJob? ==> bs <= bs')
    ensures job.CreateJob? && job.works ==> Whole(DirEntries(sha, job.ex, ".", job.tree)) in bs'
    ensures job.CollectJob? && job.works && AllRead(Texts(bs')) ==> forall p :: p in e ==> Named(bs', p)
  {
    e, bs' := d, bs;
    match job {
      case CreateJob(works, ex, tree) => e, bs' := CreateRun(works, d, sha, ex, tree, bs);
      case CollectJob(works) => e := CollectRun(works, d, sha, lt, bs);
      case DropJob(at) =>
        if at < |bs| {
          bs' := bs[..at] + bs[at + 1..];
        }
    }
  }

  lemma RecordedNext(sha: seq<byte> -> string, jobs: seq<Job>, i: nat, bs: seq<Backup>, bs': seq<Backup>)
    requires GoodHash(sha) && i < |jobs| && Recorded(sha, jobs, i, bs) && (!jobs[i].DropJob? ==> bs <= bs')
    requires jobs[i].CreateJob? && jobs[i].works ==> Whole(DirEntries(sha, jobs[i].ex, ".", jobs[i].tree)) in bs'
    ensures Recorded(sha, jobs, i + 1, bs')
  {
  }

  // Over any sequence of runs, cut off or not, with manifests thrown away in between, the
  // blobs stay right, every whole manifest still there that can be read back can be extracted,
  // and after a collection that worked there is no blob that no manifest names.
  method Runs(start: Disk, sha: seq<byte> -> string, lt: (Path, Path) -> bool, jobs: seq<Job>)
    returns (d: Disk, bs: seq<Backup>)
    requires GoodHash(sha) && StrictOrder(lt) && BlobsRight(sha, start)
    ensures Backed(sha, d, bs) && Recorded(sha, jobs, |jobs|, bs)
    ensures forall m :: 0 <= m < |bs| && bs[m].Whole? && Recordable(bs[m].es) ==>
              EntriesOf(TextOf(bs[m])) == Some(bs[m].es)
    ensures JustCollected(jobs, |jobs|, bs) ==> forall p :: p in d ==> Named(bs, p)
  {
    d, bs := start, [];
    var i := 0;
    while i < |jobs|
      invariant 0 <= i <= |jobs| && Backed(sha, d, bs) && Recorded(sha, jobs, i, bs)
      invariant JustCollected(jobs, i, bs) ==> forall p :: p in d ==> Named(bs, p)
    {
      ghost var was := bs;
      d, bs := JobRun(d, sha, lt, jobs[i], bs);
      RecordedNext(sha, jobs, i, was, bs);
      i := i + 1;
    }
    forall m | 0 <= m < |bs| && bs[m].Whole? && Recordable(bs[m].es)
      ensures EntriesOf(TextOf(bs[m])) == Some(bs[m].es)
    {
      BackupReads(bs[m]);
    }
  }

  // Extracting a whole manifest gives its tree back; where nothing fails, it succeeds.
  method ExtractKept(fs: FileSystem, sha: seq<byte> -> string, ex: set<string>, tree: Children, ghost bs: seq<Backup>)
    returns (ok: bool, out: map<string, Restored>)
    requires GoodHash(sha) && Proper(tree) && Recordable(DirEntries(sha, ex, ".", tree))
    requires Backed(sha, fs.disk, bs) && Whole(DirEntries(sha, ex, ".", tree)) in bs
    ensures fs.reliable ==> ok
    ensures ok ==> TreeBack(sha, ex, tree, fs.disk, out)
  {
    var b := Whole(DirEntries(sha, ex, ".", tree));
    ghost var m :| 0 <= m < |bs| && bs[m] == b;
    assert BackedOne(fs.disk, bs[m]);
    BackupReads(b);
    ok, out := Extract(fs, TextOf(b));
    if ok {
      TreeRestores(sha, ex, tree, fs.disk);
    }
  }

  // So after any sequence of runs, on whatever other trees, the tree of a create that worked,
  // and whose manifest was not thrown away, comes back.
  method BackupComesBack(start: Disk, sha: seq<byte> -> string, lt: (Path, Path) -> bool, jobs: seq<Job>, i: nat)
    returns (d: Disk, out: map<string, Restored>)
    requires GoodHash(sha) && StrictOrder(lt) && BlobsRight(sha, start)
    requires i < |jobs| && jobs[i].CreateJob? && jobs[i].works && Proper(jobs[i].tree)
    requires Recordable(DirEntries(sha, jobs[i].ex, ".", jobs[i].tree))
    requires forall j :: i < j < |jobs| ==> !jobs[j].DropJob?
    ensures TreeBack(sha, jobs[i].ex, jobs[i].tree, d, out)
  {
    var bs;
    d, bs := Runs(start, sha, lt, jobs);
    var fs := new FileSystem(d, true);
    var ok;
    ok, out := ExtractKept(fs, sha, jobs[i].ex, jobs[i].tree, bs);
  }
}
