// What create and extract make of a file tree (dedupe/dedupe.c:164-235, 385-501): its entries
// have names of their own, and restoring them gives the tree back.
module DedupeTree {
  import opened Bytes
  import opened FileSystem
  import opened DedupeText
  import opened DedupeStore
  import opened Dedupe

  // What a file system sees to: siblings have different names, and no name holds a slash.
  predicate Proper(cs: Children)
  {
    match cs
    case None_ => true
    case Child(name, node, rest) => '/' !in name && name !in ChildNames(rest) && ProperNode(node) && Proper(rest)
  }

  predicate ProperNode(n: Node)
  {
    n.DirNode? ==> Proper(n.children)
  }

  function ChildNames(cs: Children): (ns: set<string>)
  {
    match cs case None_ => {} case Child(name, _, rest) => {name} + ChildNames(rest)
  }

  // A name at path or below it.
  predicate Under(path: string, name: string)
  {
    path == name || path + "/" <= name
  }

  lemma Deeper(path: string, name: string, x: string)
    requires Under(path + "/" + name, x)
    ensures path + "/" <= x && Under(path, x) && x != path
  {
    var p := path + "/";
    assert x[..|p + name|] == p + name;
    assert x[..|p|] == x[..|p + name|][..|p|] == p;
  }

  // Nothing is below two siblings.
  lemma Apart(d: string, a: string, b: string, x: string)
    requires Under(d + "/" + a, x) && Under(d + "/" + b, x) && '/' !in a && '/' !in b && |a| <= |b|
    ensures a == b
  {
    var p := d + "/";
    assert x[..|p + a|] == p + a && x[..|p + b|] == p + b;
    assert b[..|a|] == (p + b)[|p|..][..|a|] == x[..|p + b|][|p|..][..|a|] == x[..|p + a|][|p|..] == a;
    if |a| < |b| {
      SlashIn(p, a, b, x);
    }
  }

  lemma SlashIn(p: string, a: string, b: string, x: string)
    requires Under(p + a, x) && Under(p + b, x) && |a| < |b|
    ensures '/' in b
  {
    assert x[|p + a|] == x[..|p + b|][|p + a|] == (p + b)[|p + a|] == b[|a|];
    assert x[|p + a|] == (p + a + "/")[|p + a|] == '/';
  }

  // All entries have names under path.
  ghost predicate AllUnder(path: string, es: seq<Entry>)
  {
    forall i :: 0 <= i < |es| ==> Under(path, es[i].name)
  }

  // Each entry has a name under one of the children.
  ghost predicate Spread(d: string, names: set<string>, es: seq<Entry>)
  {
    forall i :: 0 <= i < |es| ==> UnderOne(d, names, es[i].name)
  }

  ghost predicate UnderOne(d: string, names: set<string>, x: string)
  {
    exists n :: n in names && Under(d + "/" + n, x)
  }

  lemma DistinctBoth(a: seq<Entry>, b: seq<Entry>)
    requires DistinctNames(a) && DistinctNames(b)
    requires forall i, j :: 0 <= i < |a| && 0 <= j < |b| ==> a[i].name != b[j].name
    ensures DistinctNames(a + b)
  {
  }

  lemma {:induction false} NodeDistinct(sha: seq<byte> -> string, ex: set<string>, path: string, n: Node)
    requires GoodHash(sha) && ProperNode(n)
    ensures DistinctNames(NodeEntries(sha, ex, path, n)) && AllUnder(path, NodeEntries(sha, ex, path, n))
    decreases n
  {
    if n.DirNode? {
      var es := DirEntries(sha, ex, path, n.children);
      DirDistinct(sha, ex, path, n.children);
      forall i | 0 <= i < |es|
        ensures Under(path, es[i].name) && es[i].name != path
      {
        assert UnderOne(path, ChildNames(n.children), es[i].name);
        var c :| c in ChildNames(n.children) && Under(path + "/" + c, es[i].name);
        Deeper(path, c, es[i].name);
      }
      DistinctBoth([EntryOf(Dir, n.meta, path)], es);
    }
  }

  // The entries of a tree have distinct names.
  lemma {:induction false} DirDistinct(sha: seq<byte> -> string, ex: set<string>, d: string, cs: Children)
    requires GoodHash(sha) && Proper(cs)
    ensures DistinctNames(DirEntries(sha, ex, d, cs)) && Spread(d, ChildNames(cs), DirEntries(sha, ex, d, cs))
    decreases cs
  {
    match cs
    case None_ =>
    case Child(name, node, rest) =>
      var path := d + "/" + name;
      var a, b := if path in ex then [] else NodeEntries(sha, ex, path, node), DirEntries(sha, ex, d, rest);
      NodeDistinct(sha, ex, path, node);
      DirDistinct(sha, ex, d, rest);
      Siblings(d, name, rest, a, b);
  }

  lemma Siblings(d: string, name: string, rest: Children, a: seq<Entry>, b: seq<Entry>)
    requires AllUnder(d + "/" + name, a) && Spread(d, ChildNames(rest), b) && DistinctNames(a) && DistinctNames(b)
    requires '/' !in name && name !in ChildNames(rest) && Proper(rest)
    ensures DistinctNames(a + b) && Spread(d, ChildNames(rest) + {name}, a + b)
  {
    forall i, j | 0 <= i < |a| && 0 <= j < |b|
      ensures a[i].name != b[j].name
    {
      assert UnderOne(d, ChildNames(rest), b[j].name);
      var c :| c in ChildNames(rest) && Under(d + "/" + c, b[j].name);
      NoSlash(rest, c);
      if a[i].name == b[j].name {
        if |c| <= |name| {
          Apart(d, c, name, b[j].name);
        } else {
          Apart(d, name, c, b[j].name);
        }
      }
    }
    DistinctBoth(a, b);
  }

  lemma {:induction false} NoSlash(cs: Children, c: string)
    requires Proper(cs) && c in ChildNames(cs)
    ensures '/' !in c
  {
    if cs.name != c {
      NoSlash(cs.rest, c);
    }
  }

  // The node at path, among the children of directory d, without what is excluded.
  predicate InDir(ex: set<string>, d: string, cs: Children, path: string, node: Node)
    decreases cs
  {
    match cs
    case None_ => false
    case Child(name, n, rest) =>
      || (d + "/" + name !in ex && InNode(ex, d + "/" + name, n, path, node))
      || InDir(ex, d, rest, path, node)
  }

  predicate InNode(ex: set<string>, p: string, n: Node, path: string, node: Node)
    decreases n
  {
    (path == p && node == n) || (n.DirNode? && InDir(ex, p, n.children, path, node))
  }

  // The entry a node has.
  function EntryFor(sha: seq<byte> -> string, path: string, n: Node): (e: Entry)
    requires GoodHash(sha) && !n.Special?
  {
    match n
    case FileNode(m, content) => EntryOf(File(KeyOf(sha(content)), |content|), m, path)
    case DirNode(m, _) => EntryOf(Dir, m, path)
    case LinkNode(m, to) => EntryOf(Link(to), m, path)
  }

  ghost predicate HasEntry(sha: seq<byte> -> string, path: string, n: Node, e: Entry)
    requires GoodHash(sha)
  {
    !n.Special? && e == EntryFor(sha, path, n)
  }

  // The entries of a tree are exactly those of its nodes.
  lemma {:induction false} NodeListed(sha: seq<byte> -> string, ex: set<string>, p: string, n: Node, e: Entry)
    requires GoodHash(sha)
    ensures e in NodeEntries(sha, ex, p, n) <==>
              exists node :: InNode(ex, p, n, e.name, node) && HasEntry(sha, e.name, node, e)
    decreases n
  {
    if n.DirNode? {
      DirListed(sha, ex, p, n.children, e);
      if e in NodeEntries(sha, ex, p, n) && e !in DirEntries(sha, ex, p, n.children) {
        assert InNode(ex, p, n, e.name, n) && HasEntry(sha, e.name, n, e);
      }
      if e in DirEntries(sha, ex, p, n.children) {
        var node :| InDir(ex, p, n.children, e.name, node) && HasEntry(sha, e.name, node, e);
        assert InNode(ex, p, n, e.name, node);
      }
    } else if e in NodeEntries(sha, ex, p, n) {
      assert InNode(ex, p, n, e.name, n) && HasEntry(sha, e.name, n, e);
    }
  }

  lemma {:induction false} DirListed(sha: seq<byte> -> string, ex: set<string>, d: string, cs: Children, e: Entry)
    requires GoodHash(sha)
    ensures e in DirEntries(sha, ex, d, cs) <==>
              exists node :: InDir(ex, d, cs, e.name, node) && HasEntry(sha, e.name, node, e)
    decreases cs
  {
    match cs
    case None_ =>
    case Child(name, n, rest) =>
      var p := d + "/" + name;
      DirListed(sha, ex, d, rest, e);
      NodeListed(sha, ex, p, n, e);
      var a, b := if p in ex then [] else NodeEntries(sha, ex, p, n), DirEntries(sha, ex, d, rest);
      assert e in DirEntries(sha, ex, d, cs) <==> e in a || e in b;
      if e in a {
        var node :| InNode(ex, p, n, e.name, node) && HasEntry(sha, e.name, node, e);
        assert InDir(ex, d, cs, e.name, node);
      }
      if e in b {
        var node :| InDir(ex, d, rest, e.name, node) && HasEntry(sha, e.name, node, e);
        assert InDir(ex, d, cs, e.name, node);
      }
  }

  // What is restored is the node, but for the bytes of a file, which have its hash.
  predicate Matches(sha: seq<byte> -> string, r: Restored, n: Node)
  {
    match n
    case FileNode(m, content) =>
      r.RFile? && sha(r.content) == sha(content) && r.mode == m.mode && r.uid == m.uid && r.gid == m.gid
    case DirNode(m, _) => r == RDir(m.mode, m.uid, m.gid)
    case LinkNode(m, to) => r == RLink(to, m.uid, m.gid)
    case Special => false
  }

  // The tree is there, and nothing else; the bytes of a file are its own where no other
  // content among theirs and the blobs on the disk has their hash.
  ghost predicate TreeBack(sha: seq<byte> -> string, ex: set<string>, cs: Children, d: Disk, out: map<string, Restored>)
  {
    && (forall path, node :: InDir(ex, ".", cs, path, node) && !node.Special? ==> NodeBack(sha, d, out, path, node))
    && (forall path :: path in out ==> exists node :: InDir(ex, ".", cs, path, node) && !node.Special?)
  }

  ghost predicate NodeBack(sha: seq<byte> -> string, d: Disk, out: map<string, Restored>, path: string, node: Node)
  {
    && path in out && Matches(sha, out[path], node)
    && (node.FileNode? && CollisionFree(sha, d.Values + {node.content}) ==> out[path].content == node.content)
  }

  lemma {:induction false} RestoredNames(d: Disk, es: seq<Entry>, path: string)
    requires Supported(d, es) && path in Restore(d, es)
    ensures exists i :: 0 <= i < |es| && es[i].name == path
    decreases |es|
  {
    if es[|es| - 1].name != path {
      RestoredNames(d, es[..|es| - 1], path);
    }
  }

  // Restoring the entries of a tree gives the tree back.
  lemma TreeRestores(sha: seq<byte> -> string, ex: set<string>, cs: Children, d: Disk)
    requires GoodHash(sha) && BlobsRight(sha, d) && Proper(cs) && Supported(d, DirEntries(sha, ex, ".", cs))
    ensures TreeBack(sha, ex, cs, d, Restore(d, DirEntries(sha, ex, ".", cs)))
  {
    var es := DirEntries(sha, ex, ".", cs);
    var out := Restore(d, es);
    DirDistinct(sha, ex, ".", cs);
    forall path, node | InDir(ex, ".", cs, path, node) && !node.Special?
      ensures NodeBack(sha, d, out, path, node)
    {
      var e := EntryFor(sha, path, node);
      assert HasEntry(sha, e.name, node, e);
      DirListed(sha, ex, ".", cs, e);
      var i: nat :| i < |es| && es[i] == e;
      RestoreHas(d, es, i);
      EntryBack(sha, d, path, node);
    }
    forall path | path in out
      ensures exists node :: InDir(ex, ".", cs, path, node) && !node.Special?
    {
      RestoredNames(d, es, path);
      var i :| 0 <= i < |es| && es[i].name == path;
      DirListed(sha, ex, ".", cs, es[i]);
    }
  }

  lemma EntryBack(sha: seq<byte> -> string, d: Disk, path: string, node: Node)
    requires GoodHash(sha) && BlobsRight(sha, d) && !node.Special?
    requires node.FileNode? ==> KeyOf(sha(node.content)) in d
    ensures var r := RestoredOf(d, EntryFor(sha, path, node));
            && Matches(sha, r, node)
            && (node.FileNode? && CollisionFree(sha, d.Values + {node.content}) ==> r.content == node.content)
  {
    if node.FileNode? {
      var key := KeyOf(sha(node.content));
      assert d[key] in d.Values && sha(d[key]) == sha(node.content);
    }
  }
}
