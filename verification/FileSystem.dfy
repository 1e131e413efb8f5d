// The file system applypatch works on (applypatch.c:324-356, 639-679): every state the disk
// goes through is kept, since a run may be cut off in any of them.
module FileSystem {
  import opened Bytes

  type Path = string
  type Disk = map<Path, seq<byte>>

  // Two disks with the same files, but for those at the paths in ps.
  ghost predicate AgreeBut(d: Disk, e: Disk, ps: iset<Path>)
  {
    forall q :: q !in ps ==> (q in d <==> q in e) && (q in d ==> d[q] == e[q])
  }

  // The states a trace has gained all agree with d outside ps.
  ghost predicate GainedBut(before: seq<Disk>, after: seq<Disk>, d: Disk, ps: iset<Path>)
  {
    && |before| <= |after| && after[..|before|] == before
    && forall i {:trigger after[i]} :: |before| <= i < |after| ==> AgreeBut(after[i], d, ps)
  }

  lemma GainedTrans(a: seq<Disk>, b: seq<Disk>, c: seq<Disk>, d: Disk, e: Disk, ps: iset<Path>)
    requires GainedBut(a, b, d, ps) && GainedBut(b, c, e, ps) && AgreeBut(e, d, ps)
    ensures GainedBut(a, c, d, ps)
  {
    assert c[..|a|] == c[..|b|][..|a|];
    forall i {:trigger c[i]} | |a| <= i < |c|
      ensures AgreeBut(c[i], d, ps)
    {
      if i < |b| {
        assert c[i] == c[..|b|][i] == b[i];
      }
    }
  }

  lemma GainedWider(before: seq<Disk>, after: seq<Disk>, d: Disk, ps: iset<Path>, qs: iset<Path>)
    requires GainedBut(before, after, d, ps) && ps <= qs
    ensures GainedBut(before, after, d, qs)
  {
  }

  // In the states a trace has gained, what is at path is a beginning of whole.
  ghost predicate Filling(before: seq<Disk>, after: seq<Disk>, path: Path, whole: seq<byte>)
  {
    forall i {:trigger after[i]} :: |before| <= i < |after| ==> path in after[i] && after[i][path] <= whole
  }

  lemma FillingTrans(a: seq<Disk>, b: seq<Disk>, c: seq<Disk>, path: Path, whole: seq<byte>)
    requires Filling(a, b, path, whole) && Filling(b, c, path, whole) && |b| <= |c| && c[..|b|] == b
    ensures Filling(a, c, path, whole)
  {
    forall i {:trigger c[i]} | |a| <= i < |c|
      ensures path in c[i] && c[i][path] <= whole
    {
      if i < |b| {
        assert c[i] == c[..|b|][i] == b[i];
      }
    }
  }

  // The last of these states.
  ghost predicate Ends(t: seq<Disk>, d: Disk)
  {
    t != [] && t[|t| - 1] == d
  }

  lemma FilledMore(t: seq<Disk>, t': seq<Disk>, path: Path, now: seq<byte>, whole: seq<byte>, was: seq<byte>,
                   data: seq<byte>, done: nat, n: nat)
    requires Filling(t, t', path, now) && whole == was + data && done + n <= |data|
    requires now == was + data[..done] + data[done..][..n]
    ensures Filling(t, t', path, whole)
  {
    assert now == was + data[..done + n] <= whole;
  }

  class FileSystem {
    var disk: Disk
    // Every state the disk has gone through, the present one last.
    var trace: seq<Disk>
    // What FreeSpaceForFile found last.
    ghost var lastFree: nat
    // Every operation succeeds, and there is room enough.
    const reliable: bool

    constructor (disk: Disk, reliable: bool)
      ensures this.disk == disk && this.reliable == reliable && trace == [disk]
    {
      this.disk, this.reliable, trace, lastFree := disk, reliable, [disk], 0;
    }

    ghost predicate Valid()
      reads this
    {
      Ends(trace, disk)
    }

    // One change, complete as soon as it can be seen.
    method Become(d: Disk, ghost p: Path)
      requires Valid() && AgreeBut(d, disk, iset{p})
      modifies this`disk, this`trace
      ensures Valid() && disk == d && GainedBut(old(trace), trace, old(disk), iset{p}) && trace == old(trace) + [d]
    {
      disk := d;
      trace := trace + [d];
    }

    method Fails() returns (b: bool)
      ensures reliable ==> !b
    {
      b := *;
      b := b && !reliable;
    }

    method Read(path: Path) returns (r: Option<seq<byte>>)
      ensures r.Some? ==> path in disk && r.value == disk[path]
      ensures reliable && path in disk ==> r.Some?
    {
      if path !in disk {
        return None;
      }
      var fails := Fails();
      return if fails then None else Some(disk[path]);
    }

    // open with O_CREAT and O_TRUNC.
    method Open(path: Path) returns (ok: bool)
      requires Valid()
      modifies this`disk, this`trace
      ensures Valid() && GainedBut(old(trace), trace, old(disk), iset{path}) && AgreeBut(disk, old(disk), iset{path})
      ensures (reliable ==> ok) && (ok ==> path in disk && disk[path] == []) && Filling(old(trace), trace, path, [])
    {
      var fails := Fails();
      if fails {
        return false;
      }
      Become(disk[path := []], path);
      return true;
    }

    // write: some of the bytes, or an error.
    method WriteSome(path: Path, data: seq<byte>) returns (n: nat)
      requires Valid() && path in disk && data != []
      modifies this`disk, this`trace
      ensures Valid() && GainedBut(old(trace), trace, old(disk), iset{path}) && AgreeBut(disk, old(disk), iset{path})
      ensures n <= |data| && (reliable ==> 0 < n) && path in disk && disk[path] == old(disk[path]) + data[..n]
      ensures Filling(old(trace), trace, path, disk[path])
    {
      var fails := Fails();
      if fails {
        assert disk[path] + data[..0] == disk[path];
        return 0;
      }
      n :| 0 < n <= |data|;
      Become(disk[path := disk[path] + data[..n]], path);
    }

    // FileSink (applypatch.c:639-652): write until all is written or an error.
    method FileSink(path: Path, data: seq<byte>) returns (done: nat)
      requires Valid() && path in disk
      modifies this`disk, this`trace
      ensures Valid() && GainedBut(old(trace), trace, old(disk), iset{path}) && AgreeBut(disk, old(disk), iset{path})
      ensures done <= |data| && (reliable ==> done == |data|) && path in disk
              && disk[path] == old(disk[path]) + data[..done]
      ensures Filling(old(trace), trace, path, old(disk[path]) + data)
    {
      ghost var whole := disk[path] + data;
      done := 0;
      assert data[..0] == [];
      while done < |data|
        invariant Valid() && GainedBut(old(trace), trace, old(disk), iset{path})
                  && AgreeBut(disk, old(disk), iset{path})
        invariant done <= |data| && path in disk && disk[path] == old(disk[path]) + data[..done]
        invariant Filling(old(trace), trace, path, whole)
        decreases |data| - done
      {
        ghost var d, t := disk, trace;
        var wrote := WriteSome(path, data[done..]);
        FilledMore(t, trace, path, disk[path], whole, old(disk[path]), data, done, wrote);
        FillingTrans(old(trace), t, trace, path, whole);
        GainedTrans(old(trace), t, trace, old(disk), d, iset{path});
        assert data[..done + wrote] == data[..done] + data[done..][..wrote];
        done := done + wrote;
        if wrote == 0 {
          return;
        }
      }
    }

    // The writes of a sink, all of which succeeded.
    method Deliver(path: Path, data: seq<byte>)
      requires Valid() && path in disk
      modifies this`disk, this`trace
      ensures Valid() && GainedBut(old(trace), trace, old(disk), iset{path}) && AgreeBut(disk, old(disk), iset{path})
      ensures path in disk && disk[path] == old(disk[path]) + data
    {
      var done := 0;
      while done < |data|
        invariant Valid() && GainedBut(old(trace), trace, old(disk), iset{path})
                  && AgreeBut(disk, old(disk), iset{path})
        invariant done <= |data| && path in disk && disk[path] == old(disk[path]) + data[..done]
      {
        ghost var d, t := disk, trace;
        var n: nat :| 0 < n <= |data| - done;
        Become(disk[path := disk[path] + data[done..done + n]], path);
        GainedTrans(old(trace), t, trace, old(disk), d, iset{path});
        assert data[..done + n] == data[..done] + data[done..done + n];
        done := done + n;
      }
      assert data[..done] == data;
    }

    method Unlink(path: Path)
      requires Valid()
      modifies this`disk, this`trace
      ensures Valid() && GainedBut(old(trace), trace, old(disk), iset{path}) && AgreeBut(disk, old(disk), iset{path})
      ensures (reliable ==> path !in disk) && (path in disk ==> disk == old(disk))
      ensures trace == old(trace) || trace == old(trace) + [disk]
    {
      var fails := Fails();
      if !fails {
        Become(disk - {path}, path);
      }
    }

    method Rename(from: Path, to: Path) returns (ok: bool)
      requires Valid() && from in disk && from != to
      modifies this`disk, this`trace
      ensures Valid() && (reliable ==> ok)
      ensures disk == if ok then old(disk)[to := old(disk[from])] - {from} else old(disk)
      ensures trace == if ok then old(trace) + [disk] else old(trace)
    {
      var fails := Fails();
      if fails {
        return false;
      }
      disk := disk[to := disk[from]] - {from};
      trace := trace + [disk];
      return true;
    }

    // chmod or chown.
    method SetMode() returns (ok: bool)
      ensures reliable ==> ok
    {
      var fails := Fails();
      return !fails;
    }

    // FreeSpaceForFile("/cache").  Where nothing fails, deleting what can be deleted makes
    // room enough.
    method FreeSpaceOnCache(need: nat) returns (n: nat)
      modifies this`lastFree
      ensures (reliable && Cleared(disk) ==> need <= n) && lastFree == n
    {
      n :| reliable && Cleared(disk) ==> need <= n;
      lastFree := n;
    }
  }

  const CACHE_TEMP_SOURCE: Path := "/cache/saved.file"

  // A path directly inside a directory.
  predicate InDirectory(dir: string, p: Path)
  {
    |dir| < |p| && p[..|dir|] == dir && p[|dir|] == '/' && '/' !in p[|dir| + 1..]
  }

  // What MakeFreeSpaceOnCache may delete (freecache.c:83-107).
  predicate Expendable(p: Path)
  {
    (InDirectory("/cache", p) || InDirectory("/cache/recovery/otatest", p)) && p != CACHE_TEMP_SOURCE
  }

  // Nothing is left to delete.
  predicate Cleared(d: Disk)
  {
    forall p :: p in d ==> !Expendable(p)
  }
}
