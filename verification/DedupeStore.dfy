// The blob store of dedupe (dedupe/dedupe.c:27-55, 103-235): files kept under the
// hash of their contents, manifests that name them, and the removal of what no manifest
// names.
module DedupeStore {
  import opened Bytes
  import opened FileSystem
  import opened DedupeText

  // Where the blob with a hash goes (dedupe.c:117-140).
  function KeyOf(h: string): (p: Path)
    requires 3 <= |h|
    ensures |p| == |h| + 1
  {
    h[..3] + "/" + h[3..]
  }

  lemma KeysDiffer(h: string, g: string)
    requires 3 <= |h| && 3 <= |g| && KeyOf(h) == KeyOf(g)
    ensures h == g
  {
    var p := KeyOf(h);
    assert h == p[..3] + p[4..] && g == p[..3] + p[4..];
  }

  // The hash: 64 printable digits.
  ghost predicate GoodHash(sha: seq<byte> -> string)
  {
    forall x {:trigger sha(x)} :: |sha(x)| == 64 && Plain(sha(x))
  }

  function ZeroHash(x: seq<byte>): (h: string)
  {
    seq(64, _ => '0')
  }

  // There are such functions.
  lemma SomeHashIsGood()
    ensures GoodHash(ZeroHash)
  {
    assert forall x {:trigger ZeroHash(x)} :: |ZeroHash(x)| == 64 && Plain(ZeroHash(x));
  }

  // No two of these contents have one hash.
  ghost predicate CollisionFree(sha: seq<byte> -> string, cs: set<seq<byte>>)
  {
    forall x, y {:trigger sha(x), sha(y)} :: x in cs && y in cs && sha(x) == sha(y) ==> x == y
  }

  // Each blob in place has the content its key stands for.
  ghost predicate BlobsRight(sha: seq<byte> -> string, d: Disk)
  {
    forall h: string {:trigger KeyOf(h)} :: |h| == 64 && KeyOf(h) in d ==> sha(d[KeyOf(h)]) == h
  }

  // Every blob the entries name is in place.
  ghost predicate Supported(d: Disk, es: seq<Entry>)
  {
    forall i :: 0 <= i < |es| && es[i].what.File? ==> es[i].what.key in d
  }

  // Blobs in place stay in place.
  ghost predicate Stay(d: Disk, e: Disk)
  {
    forall h: string {:trigger KeyOf(h)} :: |h| == 64 && KeyOf(h) in d ==> KeyOf(h) in e
  }

  // The states gained have their blobs right, and keep those of d.
  ghost predicate Growing(sha: seq<byte> -> string, before: seq<Disk>, after: seq<Disk>, d: Disk)
  {
    && |before| <= |after| && after[..|before|] == before
    && forall i {:trigger after[i]} :: |before| <= i < |after| ==> BlobsRight(sha, after[i]) && Stay(d, after[i])
  }

  lemma GrowingTrans(sha: seq<byte> -> string, a: seq<Disk>, b: seq<Disk>, c: seq<Disk>, d: Disk, e: Disk)
    requires Growing(sha, a, b, d) && Growing(sha, b, c, e) && Stay(d, e)
    ensures Growing(sha, a, c, d)
  {
    assert c[..|a|] == c[..|b|][..|a|];
    forall i {:trigger c[i]} | |a| <= i < |c|
      ensures BlobsRight(sha, c[i]) && Stay(d, c[i])
    {
      if i < |b| {
        assert c[i] == c[..|b|][i] == b[i];
      }
    }
  }

  // Changes at a path that is no blob's.
  lemma ElsewhereGrows(sha: seq<byte> -> string, before: seq<Disk>, after: seq<Disk>, d: Disk, p: Path)
    requires GainedBut(before, after, d, iset{p}) && BlobsRight(sha, d) && |p| != 65
    ensures Growing(sha, before, after, d)
  {
  }

  lemma ElsewhereStays(sha: seq<byte> -> string, d: Disk, e: Disk, p: Path)
    requires AgreeBut(e, d, iset{p}) && BlobsRight(sha, d) && |p| != 65
    ensures BlobsRight(sha, e) && Stay(d, e)
  {
  }

  // copy_file and rename (dedupe.c:27-55, 152-158): the blob appears complete or not at all.
  method CopyBlob(fs: FileSystem, sha: seq<byte> -> string, content: seq<byte>) returns (ok: bool)
    requires fs.Valid() && GoodHash(sha) && BlobsRight(sha, fs.disk)
    modifies fs
    ensures fs.Valid() && BlobsRight(sha, fs.disk) && Stay(old(fs.disk), fs.disk)
    ensures Growing(sha, old(fs.trace), fs.trace, old(fs.disk))
    ensures ok ==> KeyOf(sha(content)) in fs.disk && fs.disk[KeyOf(sha(content))] == content
    ensures fs.reliable ==> ok
  {
    var blob := KeyOf(sha(content));
    var tmp := blob + ".tmp";
    ghost var t0, d0 := fs.trace, fs.disk;
    ok := fs.Open(tmp);
    ElsewhereGrows(sha, t0, fs.trace, d0, tmp);
    ElsewhereStays(sha, d0, fs.disk, tmp);
    if !ok {
      return;
    }
    ghost var t1, d1 := fs.trace, fs.disk;
    var written := fs.FileSink(tmp, content);
    ElsewhereGrows(sha, t1, fs.trace, d1, tmp);
    ElsewhereStays(sha, d1, fs.disk, tmp);
    GrowingTrans(sha, t0, t1, fs.trace, d0, d1);
    if written != |content| {
      return false;
    }
    assert content[..written] == content;
    ghost var t2, d2 := fs.trace, fs.disk;
    ok := fs.Rename(tmp, blob);
    if ok {
      RenamedRight(sha, d2, fs.disk, content, tmp);
    }
    assert Growing(sha, t2, fs.trace, d2);
    GrowingTrans(sha, t0, t2, fs.trace, d0, d2);
  }

  lemma RenamedRight(sha: seq<byte> -> string, d: Disk, e: Disk, content: seq<byte>, tmp: Path)
    requires GoodHash(sha) && BlobsRight(sha, d) && tmp in d && d[tmp] == content && |tmp| != 65
    requires e == d[KeyOf(sha(content)) := content] - {tmp}
    ensures BlobsRight(sha, e) && Stay(d, e) && KeyOf(sha(content)) in e
  {
    forall h: string | |h| == 64 && KeyOf(h) in e
      ensures sha(e[KeyOf(h)]) == h
    {
      if KeyOf(h) == KeyOf(sha(content)) {
        KeysDiffer(h, sha(content));
      }
    }
  }

  // The file tree that is saved.  Children come in the order readdir gives them.
  datatype Meta = Meta(mode: nat, uid: nat, gid: nat, times: (nat, nat, nat))
  datatype Node =
    | FileNode(meta: Meta, content: seq<byte>)
    | DirNode(meta: Meta, children: Children)
    | LinkNode(meta: Meta, to: string)
    | Special
  datatype Children = None_ | Child(name: string, node: Node, rest: Children)

  function EntryOf(w: What, m: Meta, path: string): (e: Entry)
  {
    Entry(w, m.mode, m.uid, m.gid, m.times, path)
  }

  // The entries of a tree, in the order they are written.
  function NodeEntries(sha: seq<byte> -> string, ex: set<string>, path: string, n: Node): (es: seq<Entry>)
    requires GoodHash(sha)
    decreases n
  {
    match n
    case FileNode(m, content) => [EntryOf(File(KeyOf(sha(content)), |content|), m, path)]
    case DirNode(m, children) => [EntryOf(Dir, m, path)] + DirEntries(sha, ex, path, children)
    case LinkNode(m, to) => [EntryOf(Link(to), m, path)]
    case Special => []
  }

  function DirEntries(sha: seq<byte> -> string, ex: set<string>, d: string, cs: Children): (es: seq<Entry>)
    requires GoodHash(sha)
    decreases cs
  {
    match cs
    case None_ => []
    case Child(name, node, rest) =>
      var path := d + "/" + name;
      (if path in ex then [] else NodeEntries(sha, ex, path, node)) + DirEntries(sha, ex, d, rest)
  }

  function Each(f: Entry -> string, es: seq<Entry>): (ls: seq<string>)
    ensures |ls| == |es| && forall i :: 0 <= i < |es| ==> ls[i] == f(es[i])
  {
    seq(|es|, i requires 0 <= i < |es| => f(es[i]))
  }

  lemma EachBoth(f: Entry -> string, a: seq<Entry>, b: seq<Entry>)
    ensures Each(f, a + b) == Each(f, a) + Each(f, b)
  {
  }

  // The text of a list of entries.
  function Lines(es: seq<Entry>): (s: string)
  {
    Concat(Each(Line, es))
  }

  lemma LinesBoth(a: seq<Entry>, b: seq<Entry>)
    ensures Lines(a + b) == Lines(a) + Lines(b)
  {
    EachBoth(Line, a, b);
    ConcatBoth(Each(Line, a), Each(Line, b));
  }

  lemma SupportedBoth(d: Disk, a: seq<Entry>, b: seq<Entry>)
    requires Supported(d, a) && Supported(d, b)
    ensures Supported(d, a + b)
  {
  }

  // The blobs the entries name have keys of the right form.
  ghost predicate Keyed(es: seq<Entry>)
  {
    forall i :: 0 <= i < |es| && es[i].what.File? ==>
      exists h: string {:trigger KeyOf(h)} :: |h| == 64 && es[i].what.key == KeyOf(h)
  }

  lemma SupportedStays(d: Disk, e: Disk, es: seq<Entry>)
    requires Supported(d, es) && Stay(d, e) && Keyed(es)
    ensures Supported(e, es)
  {
    forall i | 0 <= i < |es| && es[i].what.File?
      ensures es[i].what.key in e
    {
      var h: string :| |h| == 64 && es[i].what.key == KeyOf(h);
    }
  }

  lemma KeyedBoth(a: seq<Entry>, b: seq<Entry>)
    requires Keyed(a) && Keyed(b)
    ensures Keyed(a + b)
  {
  }

  lemma {:induction false} NodeKeyed(sha: seq<byte> -> string, ex: set<string>, path: string, n: Node)
    requires GoodHash(sha)
    ensures Keyed(NodeEntries(sha, ex, path, n))
    decreases n
  {
    match n
    case FileNode(m, content) =>
      assert |sha(content)| == 64;
    case DirNode(m, children) =>
      DirKeyed(sha, ex, path, children);
      KeyedBoth([EntryOf(Dir, m, path)], DirEntries(sha, ex, path, children));
    case LinkNode(m, to) =>
    case Special =>
  }

  lemma {:induction false} DirKeyed(sha: seq<byte> -> string, ex: set<string>, d: string, cs: Children)
    requires GoodHash(sha)
    ensures Keyed(DirEntries(sha, ex, d, cs))
    decreases cs
  {
    match cs
    case None_ =>
    case Child(name, node, rest) =>
      var path := d + "/" + name;
      NodeKeyed(sha, ex, path, node);
      DirKeyed(sha, ex, d, rest);
      KeyedBoth(if path in ex then [] else NodeEntries(sha, ex, path, node), DirEntries(sha, ex, d, rest));
  }

  // A blob of this size is in place.
  predicate InStore(d: Disk, key: Path, size: nat)
  {
    key in d && |d[key]| == size
  }

  // store_file (dedupe.c:103-162): copy the blob unless one of the same size is there, and
  // write the line.
  method StoreFile(fs: FileSystem, sha: seq<byte> -> string, m: Meta, content: seq<byte>, path: string)
    returns (ok: bool, text: string)
    requires fs.Valid() && GoodHash(sha) && BlobsRight(sha, fs.disk)
    modifies fs
    ensures fs.Valid() && BlobsRight(sha, fs.disk) && Stay(old(fs.disk), fs.disk)
    ensures Growing(sha, old(fs.trace), fs.trace, old(fs.disk))
    ensures ok ==> text == Line(EntryOf(File(KeyOf(sha(content)), |content|), m, path))
                   && KeyOf(sha(content)) in fs.disk
    ensures ok ==> fs.disk[KeyOf(sha(content))] ==
                   if old(InStore(fs.disk, KeyOf(sha(content)), |content|)) then old(fs.disk)[KeyOf(sha(content))]
                   else content
    ensures fs.reliable ==> ok
  {
    var key := KeyOf(sha(content));
    text := Line(EntryOf(File(key, |content|), m, path));
    ok := InStore(fs.disk, key, |content|);
    assert fs.trace[..|fs.trace|] == fs.trace;
    if !ok {
      ok := CopyBlob(fs, sha, content);
    }
  }

  // store_st (dedupe.c:217-235).
  method StoreNode(fs: FileSystem, sha: seq<byte> -> string, ex: set<string>, path: string, n: Node)
    returns (ok: bool, text: string)
    requires fs.Valid() && GoodHash(sha) && BlobsRight(sha, fs.disk)
    modifies fs
    ensures fs.Valid() && BlobsRight(sha, fs.disk) && Stay(old(fs.disk), fs.disk)
    ensures Growing(sha, old(fs.trace), fs.trace, old(fs.disk))
    ensures ok ==> text == Lines(NodeEntries(sha, ex, path, n)) && Supported(fs.disk, NodeEntries(sha, ex, path, n))
    ensures fs.reliable ==> ok
    decreases n
  {
    assert fs.trace[..|fs.trace|] == fs.trace;
    match n {
      case FileNode(m, content) =>
        ok, text := StoreFile(fs, sha, m, content, path);
        OneEntry(EntryOf(File(KeyOf(sha(content)), |content|), m, path));
      case DirNode(m, children) =>
        var more;
        ok, more := StoreDir(fs, sha, ex, path, children);
        text := Line(EntryOf(Dir, m, path)) + more;
        OneEntry(EntryOf(Dir, m, path));
        LinesBoth([EntryOf(Dir, m, path)], DirEntries(sha, ex, path, children));
      case LinkNode(m, to) =>
        ok, text := true, Line(EntryOf(Link(to), m, path));
        OneEntry(EntryOf(Link(to), m, path));
      case Special =>
        ok, text := true, "";
    }
  }

  lemma OneEntry(e: Entry)
    ensures Lines([e]) == Line(e)
  {
    ConcatOne(Line(e));
    assert Each(Line, [e]) == [Line(e)];
  }

  // store_dir (dedupe.c:164-202).
  method StoreDir(fs: FileSystem, sha: seq<byte> -> string, ex: set<string>, d: string, cs: Children)
    returns (ok: bool, text: string)
    requires fs.Valid() && GoodHash(sha) && BlobsRight(sha, fs.disk)
    modifies fs
    ensures fs.Valid() && BlobsRight(sha, fs.disk) && Stay(old(fs.disk), fs.disk)
    ensures Growing(sha, old(fs.trace), fs.trace, old(fs.disk))
    ensures ok ==> text == Lines(DirEntries(sha, ex, d, cs)) && Supported(fs.disk, DirEntries(sha, ex, d, cs))
    ensures fs.reliable ==> ok
    decreases cs
  {
    ghost var t0, d0 := fs.trace, fs.disk;
    assert fs.trace[..|fs.trace|] == fs.trace;
    match cs {
      case None_ => ok, text := true, "";
      case Child(name, node, rest) =>
        var path := d + "/" + name;
        ok, text := true, "";
        if path !in ex {
          ok, text := StoreNode(fs, sha, ex, path, node);
          if !ok {
            return;
          }
        }
        ghost var t1, d1 := fs.trace, fs.disk;
        var more;
        ok, more := StoreDir(fs, sha, ex, d, rest);
        GrowingTrans(sha, t0, t1, fs.trace, d0, d1);
        ghost var es := if path in ex then [] else NodeEntries(sha, ex, path, node);
        if ok {
          BothStored(d1, fs.disk, sha, ex, path, node, es, DirEntries(sha, ex, d, rest));
          text := text + more;
        }
    }
  }

  lemma BothStored(d: Disk, e: Disk, sha: seq<byte> -> string, ex: set<string>, path: string, node: Node,
                   a: seq<Entry>, b: seq<Entry>)
    requires GoodHash(sha) && a == if path in ex then [] else NodeEntries(sha, ex, path, node)
    requires Supported(d, a) && Stay(d, e) && Supported(e, b)
    ensures Supported(e, a + b) && Lines(a + b) == Lines(a) + Lines(b)
  {
    NodeKeyed(sha, ex, path, node);
    SupportedStays(d, e, a);
    SupportedBoth(e, a, b);
    LinesBoth(a, b);
  }
}
