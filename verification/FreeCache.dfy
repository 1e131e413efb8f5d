// MakeFreeSpaceOnCache (freecache.c:14-172): delete expendable files until there is room.
module FreeCache {
  import opened Bytes
  import opened FileSystem

  ghost const EXPENDABLE: iset<Path> := iset p: Path | Expendable(p)

  // The names found name expendable files, and with every operation succeeding all of them.
  ghost predicate Found(d: Disk, names: seq<Option<Path>>, all: bool)
  {
    && (forall k :: 0 <= k < |names| && names[k].Some? ==> Expendable(names[k].value))
    && (all ==> (forall k :: 0 <= k < |names| ==> names[k].Some?)
                && forall p :: p in d && Expendable(p) ==> Some(p) in names)
  }

  // Each name is that of a file on the disk, or struck out.
  ghost predicate OnDisk(d: Disk, names: seq<Option<Path>>)
  {
    forall k :: 0 <= k < |names| && names[k].Some? ==> names[k].value in d
  }

  // Some of the names have been struck out.
  ghost predicate Struck(files: seq<Option<Path>>, names: seq<Option<Path>>)
  {
    |names| == |files| && forall k :: 0 <= k < |files| ==> names[k] == files[k] || names[k] == None
  }

  // FindExpendableFiles: the regular files in two directories, but for the saved source.  A
  // directory that cannot be opened is passed over.
  method FindExpendableFiles(fs: FileSystem) returns (ok: bool, names: seq<Option<Path>>)
    ensures Found(fs.disk, names, ok && fs.reliable) && (fs.reliable ==> ok) && OnDisk(fs.disk, names)
  {
    names := [];
    var noCache := fs.Fails();
    var noTest := fs.Fails();
    var left := fs.disk.Keys;
    while left != {}
      invariant Found(fs.disk - left, names, fs.reliable) && left <= fs.disk.Keys && OnDisk(fs.disk, names)
    {
      var p :| p in left;
      if ((!noCache && InDirectory("/cache", p)) || (!noTest && InDirectory("/cache/recovery/otatest", p)))
         && p != CACHE_TEMP_SOURCE {
        names := names + [Some(p)];
      }
      left := left - {p};
    }
    assert fs.disk - {} == fs.disk;
    ok, names := EliminateOpenFiles(fs, names);
  }

  // EliminateOpenFiles (freecache.c:14-72): strike out the names some process holds open.
  method EliminateOpenFiles(fs: FileSystem, files: seq<Option<Path>>) returns (ok: bool, names: seq<Option<Path>>)
    requires Found(fs.disk, files, fs.reliable)
    ensures Found(fs.disk, names, ok && fs.reliable) && (fs.reliable ==> ok)
    ensures Struck(files, names)
  {
    names := files;
    var fails := fs.Fails();
    if fails {
      return false, names;
    }
    var j := 0;
    while j < |names|
      invariant j <= |names| && Found(fs.disk, names, fs.reliable) && Struck(files, names)
    {
      var open := fs.Fails();
      if open {
        names := names[j := None];
      }
      j := j + 1;
    }
    ok := true;
  }

  // The files some of the names stand for.
  ghost function Named(names: seq<Option<Path>>): iset<Path> {
    iset p: Path | Some(p) in names
  }

  // Delete the file unless its name was struck out.
  method UnlinkName(fs: FileSystem, name: Option<Path>)
    requires fs.Valid() && (name.Some? ==> Expendable(name.value))
    modifies fs`disk, fs`trace
    ensures fs.Valid() && GainedBut(old(fs.trace), fs.trace, old(fs.disk), EXPENDABLE)
            && AgreeBut(fs.disk, old(fs.disk), EXPENDABLE) && AgreeBut(fs.disk, old(fs.disk), Named([name]))
    ensures fs.reliable && name.Some? ==> name.value !in fs.disk
    ensures forall p :: p in fs.disk ==> p in old(fs.disk)
  {
    if name.Some? {
      fs.Unlink(name.value);
      GainedWider(old(fs.trace), fs.trace, old(fs.disk), iset{name.value}, EXPENDABLE);
      forall p | p in fs.disk
        ensures p in old(fs.disk)
      {
        assert p in iset{name.value} ==> p == name.value;
      }
      assert Some(name.value) in [name];
    } else {
      assert fs.trace[..|fs.trace|] == fs.trace;
    }
  }

  // The room measured before each name was dealt with, and after the last: there was too
  // little each time, and in the end there is enough or no name is left.
  ghost predicate StopsInTime(room: seq<nat>, done: nat, names: seq<Option<Path>>, need: nat)
  {
    && done <= |names| && |room| == done + 1
    && (forall k :: 0 <= k < done ==> room[k] < need)
    && (room[done] < need ==> done == |names|)
  }

  // Delete files until there is enough room, or none is left (freecache.c:156-171).
  method UnlinkUntil(fs: FileSystem, names: seq<Option<Path>>, need: nat, free0: nat)
    returns (free: nat, ghost done: nat, ghost room: seq<nat>)
    requires fs.Valid() && Found(fs.disk, names, fs.reliable) && names != [] && free0 < need && fs.lastFree == free0
    modifies fs
    ensures fs.Valid() && GainedBut(old(fs.trace), fs.trace, old(fs.disk), EXPENDABLE)
            && AgreeBut(fs.disk, old(fs.disk), EXPENDABLE)
    ensures StopsInTime(room, done, names, need) && room[0] == free0 && room[done] == free == fs.lastFree
    ensures AgreeBut(fs.disk, old(fs.disk), Named(names[..done]))
    ensures fs.reliable ==> need <= free
  {
    free, room := free0, [free0];
    var i := 0;
    assert fs.trace[..|fs.trace|] == fs.trace;
    while i < |names| && free < need
      invariant fs.Valid() && i <= |names| && (i == 0 ==> free < need) && free == fs.lastFree
      invariant |room| == i + 1 && room[0] == free0 && room[i] == free && forall k :: 0 <= k < i ==> room[k] < need
      invariant GainedBut(old(fs.trace), fs.trace, old(fs.disk), EXPENDABLE)
                && AgreeBut(fs.disk, old(fs.disk), EXPENDABLE)
      invariant AgreeBut(fs.disk, old(fs.disk), Named(names[..i]))
      invariant fs.reliable ==> forall k :: 0 <= k < |names| ==> names[k].Some?
      invariant fs.reliable ==> forall p :: p in fs.disk && Expendable(p) ==> Some(p) in names[i..]
      invariant fs.reliable && i == |names| ==> need <= free
    {
      ghost var t, d := fs.trace, fs.disk;
      UnlinkName(fs, names[i]);
      GainedTrans(old(fs.trace), t, fs.trace, old(fs.disk), d, EXPENDABLE);
      NamedMore(names, i, old(fs.disk), d, fs.disk);
      assert names[i..] == [names[i]] + names[i + 1..];
      i := i + 1;
      if names[i - 1].Some? {
        free := fs.FreeSpaceOnCache(need);
      }
      room := room + [free];
    }
    done := i;
  }

  lemma NamedMore(names: seq<Option<Path>>, i: nat, a: Disk, b: Disk, c: Disk)
    requires i < |names| && AgreeBut(b, a, Named(names[..i])) && AgreeBut(c, b, Named([names[i]]))
    ensures AgreeBut(c, a, Named(names[..i + 1]))
  {
    assert names[..i + 1] == names[..i] + [names[i]];
    assert forall p :: p !in Named(names[..i + 1]) ==> p !in Named(names[..i]) && p !in Named([names[i]]);
  }

  // MakeFreeSpaceOnCache: nothing is deleted when there is room enough to begin with.
  method MakeFreeSpaceOnCache(fs: FileSystem, need: nat) returns (rc: int, ghost free0: nat)
    requires fs.Valid()
    modifies fs
    ensures fs.Valid() && GainedBut(old(fs.trace), fs.trace, old(fs.disk), EXPENDABLE)
            && AgreeBut(fs.disk, old(fs.disk), EXPENDABLE)
    ensures need <= free0 ==> rc == 0 && fs.disk == old(fs.disk) && fs.trace == old(fs.trace)
    ensures (rc == 0 <==> need <= fs.lastFree) && (rc == 0 || rc == -1) && (fs.reliable ==> rc == 0)
  {
    assert fs.trace[..|fs.trace|] == fs.trace;
    var free := fs.FreeSpaceOnCache(need);
    free0 := free;
    if free >= need {
      return 0, free0;
    }
    var ok, names := FindExpendableFiles(fs);
    if !ok {
      return -1, free0;
    }
    if |names| == 0 {
      return -1, free0;
    }
    ghost var done, room;
    free, done, room := UnlinkUntil(fs, names, need, free);
    rc := if free >= need then 0 else -1;
  }
}
