// The index minzip keeps of an archive (minzip/Zip.c:99-414, 505-512, 930-1023): the central
// directory sorted by name, and a hash table from names to entries.
module ZipIndex {
  import opened Bytes
  import opened Endian
  import opened Lexicographic
  import HashTable

  type Name = seq<byte>

  // The comparison (Zip.c:293-302): negative, zero or positive.
  method CompareNames(a: Name, b: Name) returns (diff: int)
    ensures diff < 0 <==> Precedes(a, b)
    ensures diff == 0 <==> a == b
    ensures diff > 0 <==> Precedes(b, a)
  {
    var diffLen := if |a| < |b| then |a| else |b|;
    var i := 0;
    assert a[0..] == a && b[0..] == b;
    while i < diffLen && a[i] == b[i]
      invariant 0 <= i <= diffLen && a[..i] == b[..i]
      invariant Precedes(a, b) == Precedes(a[i..], b[i..]) && Precedes(b, a) == Precedes(b[i..], a[i..])
    {
      assert a[i..][1..] == a[i + 1..] && b[i..][1..] == b[i + 1..];
      i := i + 1;
    }
    PrecedesTotal(a, b);
    assert a == a[..i] + a[i..] && b == b[..i] + b[i..];
    diff := if i < diffLen then a[i] as int - b[i] as int else |a| - |b|;
  }

  // What else the directory says of an entry.
  datatype Attributes =
    Attributes(versionMadeBy: int, compression: int, modTime: int, crc32: int, externalFileAttributes: int)

  // An entry, with its number in the central directory.
  datatype ZipEntry =
    ZipEntry(name: Name, offset: int, compLen: int, uncompLen: int, attributes: Attributes, number: nat)

  ghost predicate Sorted(es: seq<ZipEntry>)
  {
    forall i, j :: 0 <= i < j < |es| ==> !Precedes(es[j].name, es[i].name)
  }

  // The first entry with this name.
  function FirstNamed(es: seq<ZipEntry>, name: Name): (r: Option<ZipEntry>)
    ensures r.Some? ==> r.value in es && r.value.name == name
    ensures r.None? <==> forall k :: 0 <= k < |es| ==> es[k].name != name
  {
    if es == [] then None
    else if es[0].name == name then Some(es[0])
    else
      assert forall k {:trigger es[k]} :: 0 < k < |es| ==> es[k] == es[1..][k - 1];
      FirstNamed(es[1..], name)
  }

  // Of the entries with one name, the first has the least number.
  ghost predicate EarliestFirst(es: seq<ZipEntry>)
  {
    forall j {:trigger Follows(es, j)} :: 0 <= j < |es| ==> Follows(es, j)
  }

  // Entry j is the first of its name, or follows it in the directory.
  ghost predicate Follows(es: seq<ZipEntry>, j: nat)
    requires j < |es|
  {
    FirstNamed(es, es[j].name).value.number <= es[j].number
  }

  // The entries are those of the directory, each once.
  ghost predicate Rearranges(es: seq<ZipEntry>, dir: seq<ZipEntry>)
  {
    && |es| == |dir| && (forall k :: 0 <= k < |dir| ==> dir[k].number == k)
    && (forall i :: 0 <= i < |es| ==> es[i].number < |dir| && es[i] == dir[es[i].number])
    && (forall k {:trigger Inside(es, dir, k)} :: 0 <= k < |dir| ==> Inside(es, dir, k))
  }

  ghost predicate Inside(es: seq<ZipEntry>, dir: seq<ZipEntry>, k: nat)
    requires k < |dir|
  {
    dir[k] in es
  }

  // Where a new entry goes: behind everything that does not come after it (Zip.c:278-313).
  method FindTarget(pEntries: array<ZipEntry>, i: nat, name: Name) returns (target: nat)
    requires i <= pEntries.Length && Sorted(pEntries[..i])
    ensures target <= i
    ensures forall k :: 0 <= k < target ==> !Precedes(name, pEntries[k].name)
    ensures forall k :: target <= k < i ==> !Precedes(pEntries[k].name, name)
    ensures (forall k :: 0 <= k < i ==> pEntries[k].name != name) || (0 < target && pEntries[target - 1].name == name)
  {
    ghost var s := pEntries[..i];
    var low, high := 0, i - 1;
    while low <= high
      invariant 0 <= low <= high + 1 <= i
      invariant forall k :: 0 <= k < low ==> Precedes(s[k].name, name)
      invariant forall k :: high < k < i ==> Precedes(name, s[k].name)
      decreases high - low
    {
      var mid := low + (high - low) / 2;
      var diff := CompareNames(pEntries[mid].name, name);
      SortedAround(s, mid, name);
      if diff < 0 {
        low := mid + 1;
      } else if diff > 0 {
        high := mid - 1;
      } else {
        high := mid;
        break;
      }
    }
    forall k | 0 <= k < i
      ensures PrecedesAsym(s[k].name, name)
    {
      PrecedesTotal(s[k].name, name);
    }
    target := high + 1;
  }

  ghost predicate PrecedesAsym(a: Name, b: Name)
  {
    !(Precedes(a, b) && Precedes(b, a)) && (a == b ==> !Precedes(a, b) && !Precedes(b, a))
  }

  // What is known of the entries on either side of one that was compared.
  lemma SortedAround(s: seq<ZipEntry>, mid: nat, name: Name)
    requires Sorted(s) && mid < |s|
    ensures Precedes(s[mid].name, name) ==> forall k :: 0 <= k <= mid ==> Precedes(s[k].name, name)
    ensures Precedes(name, s[mid].name) ==> forall k :: mid <= k < |s| ==> Precedes(name, s[k].name)
    ensures s[mid].name == name ==> (forall k :: 0 <= k <= mid ==> !Precedes(name, s[k].name))
                                    && (forall k :: mid <= k < |s| ==> !Precedes(s[k].name, name))
  {
    PrecedesTotal(name, name);
    forall k | 0 <= k < |s|
      ensures k <= mid && Precedes(s[mid].name, name) ==> Precedes(s[k].name, name)
      ensures mid <= k && Precedes(name, s[mid].name) ==> Precedes(name, s[k].name)
    {
      PrecedesTotal(s[k].name, s[mid].name);
      if k <= mid && Precedes(s[mid].name, name) && Precedes(s[k].name, s[mid].name) {
        PrecedesTransitive(s[k].name, s[mid].name, name);
      }
      if mid <= k && Precedes(name, s[mid].name) && Precedes(s[mid].name, s[k].name) {
        PrecedesTransitive(name, s[mid].name, s[k].name);
      }
    }
  }

  function Inserted(s: seq<ZipEntry>, target: nat, e: ZipEntry): (r: seq<ZipEntry>)
    requires target <= |s|
  {
    s[..target] + [e] + s[target..]
  }

  // Make room at target and put the entry there (Zip.c:313-326).
  method InsertAt(pEntries: array<ZipEntry>, i: nat, target: nat, e: ZipEntry)
    requires target <= i < pEntries.Length
    modifies pEntries
    ensures pEntries[..i + 1] == Inserted(old(pEntries[..i]), target, e)
  {
    ghost var s := pEntries[..i];
    var k := i;
    while k > target
      invariant target <= k <= i && pEntries[..k] == s[..k]
      invariant forall j :: k < j <= i ==> pEntries[j] == s[j - 1]
    {
      pEntries[k] := pEntries[k - 1];
      k := k - 1;
    }
    pEntries[target] := e;
    var r := Inserted(s, target, e);
    forall j | 0 <= j <= i
      ensures pEntries[j] == r[j]
    {
      if j < target {
        assert pEntries[..target][j] == s[..target][j];
      }
    }
    assert |r| == i + 1;
  }

  // Inserting behind everything that does not come after keeps the order, and an entry comes
  // behind the earlier ones of its name.
  lemma InsertedSorted(s: seq<ZipEntry>, target: nat, e: ZipEntry)
    requires Sorted(s) && target <= |s|
    requires forall k :: 0 <= k < target ==> !Precedes(e.name, s[k].name)
    requires forall k :: target <= k < |s| ==> !Precedes(s[k].name, e.name)
    ensures Sorted(Inserted(s, target, e))
  {
    var r := Inserted(s, target, e);
    assert forall j {:trigger r[j]} :: 0 <= j < |r| ==>
             r[j] == if j < target then s[j] else if j == target then e else s[j - 1];
  }

  lemma {:induction false} FirstOfBoth(a: seq<ZipEntry>, b: seq<ZipEntry>, name: Name)
    ensures FirstNamed(a + b, name) == if FirstNamed(a, name).Some? then FirstNamed(a, name) else FirstNamed(b, name)
  {
    if a == [] {
      assert a + b == b;
    } else {
      FirstOfBoth(a[1..], b, name);
      assert (a + b)[1..] == a[1..] + b;
    }
  }

  // The first of a name stays the first.
  lemma InsertedFirst(s: seq<ZipEntry>, target: nat, e: ZipEntry, name: Name)
    requires target <= |s|
             && ((forall k :: 0 <= k < |s| ==> s[k].name != e.name) || (0 < target && s[target - 1].name == e.name))
    ensures FirstNamed(Inserted(s, target, e), name)
         == if FirstNamed(s, name).Some? then FirstNamed(s, name) else if e.name == name then Some(e) else None
  {
    var a, b := s[..target], s[target..];
    assert s == a + b;
    FirstOfBoth(a, b, name);
    FirstOfBoth(a + [e], b, name);
    FirstOfBoth(a, [e], name);
    assert FirstNamed([e], name) == if e.name == name then Some(e) else None by {
      assert [e][1..] == [];
    }
    if 0 < target && s[target - 1].name == e.name {
      assert a[target - 1].name == e.name;
    }
  }

  lemma InsertedEarliest(s: seq<ZipEntry>, target: nat, e: ZipEntry)
    requires EarliestFirst(s) && target <= |s| && (forall k :: 0 <= k < |s| ==> s[k].number < e.number)
    requires (forall k :: 0 <= k < |s| ==> s[k].name != e.name) || (0 < target && s[target - 1].name == e.name)
    ensures EarliestFirst(Inserted(s, target, e))
  {
    var r := Inserted(s, target, e);
    forall j | 0 <= j < |r|
      ensures Follows(r, j)
    {
      InsertedFirst(s, target, e, r[j].name);
      assert r[j] == if j < target then s[j] else if j == target then e else s[j - 1];
      assert j != target ==> Follows(s, if j < target then j else j - 1);
    }
  }

  lemma InsertedRearranges(s: seq<ZipEntry>, dir: seq<ZipEntry>, target: nat, e: ZipEntry)
    requires Rearranges(s, dir) && target <= |s| && e.number == |dir|
    ensures Rearranges(Inserted(s, target, e), dir + [e])
  {
    var r := Inserted(s, target, e);
    assert forall j {:trigger r[j]} :: 0 <= j < |r| ==>
             r[j] == if j < target then s[j] else if j == target then e else s[j - 1];
    assert r[target] == e;
    forall k | 0 <= k < |dir| + 1
      ensures Inside(r, dir + [e], k)
    {
      if k < |dir| {
        assert Inside(s, dir, k);
        var j :| 0 <= j < |s| && s[j] == dir[k];
        assert r[if j < target then j else j + 1] == s[j];
      }
    }
  }

  const CENSIG: int := 0x02014b50
  const CENHDR: int := 46
  const LOCSIG: int := 0x04034b50
  const LOCHDR: int := 30
  const ENDSIG: int := 0x06054b50
  const ENDHDR: int := 22
  const PATH_MAX: int := 4096

  // get2LE and get4LE.
  function U16(zip: seq<byte>, p: nat): (v: nat)
    requires p + 2 <= |zip|
    ensures v < 0x1_0000
  {
    zip[p] + 256 * (zip[p + 1] as int)
  }

  function U32(zip: seq<byte>, p: nat): (v: nat)
    requires p + 4 <= |zip|
    ensures v < TWO32
  {
    U16(zip, p) + 0x1_0000 * U16(zip, p + 2)
  }

  // The end-of-central-directory record: the last place it may be at that has its mark, at
  // or before p.
  function LastMark(zip: seq<byte>, p: int): (r: Option<nat>)
    requires p + 4 <= |zip|
    ensures r.Some? ==> r.value <= p && U32(zip, r.value) == ENDSIG
                        && forall q :: r.value < q <= p ==> U32(zip, q) != ENDSIG
    ensures r.None? ==> forall q :: 0 <= q <= p ==> U32(zip, q) != ENDSIG
    decreases p + 1
  {
    if p < 0 then None else if U32(zip, p) == ENDSIG then Some(p) else LastMark(zip, p - 1)
  }

  // Printable ASCII, and not too long (Zip.c:160-178).
  predicate ValidFilename(name: Name)
  {
    |name| < PATH_MAX && forall i :: 0 <= i < |name| ==> 32 <= name[i] < 127
  }

  function AttributesAt(zip: seq<byte>, p: nat): (a: Attributes)
    requires p + CENHDR <= |zip|
  {
    Attributes(U16(zip, p + 4), U16(zip, p + 10), U32(zip, p + 12), U32(zip, p + 16), U32(zip, p + 38))
  }

  // The directory entry at p and the place of the next one (Zip.c:250-391).
  function EntryAt(zip: seq<byte>, p: nat, number: nat): (r: Option<(ZipEntry, nat)>)
    ensures r.Some? ==> r.value.0.number == number && p < r.value.1
  {
    if p + CENHDR > |zip| || U32(zip, p) != CENSIG then None
    else
      var nameLen, end := U16(zip, p + 28), p + CENHDR + U16(zip, p + 28);
      if end > |zip| then None
      else
        var name, vem, at := zip[p + CENHDR..end], U16(zip, p + 4) / 256, U32(zip, p + 42);
        if !ValidFilename(name) || (vem != 0 && vem != 3) || at + LOCHDR > |zip| || U32(zip, at) != LOCSIG then None
        else
          var offset, compLen := at + LOCHDR + U16(zip, at + 26) + U16(zip, at + 28), U32(zip, p + 20);
          if offset + compLen > |zip| then None
          else Some((ZipEntry(name, offset, compLen, U32(zip, p + 24), AttributesAt(zip, p), number),
                     end + U16(zip, p + 30) + U16(zip, p + 32)))
  }

  // The n entries from number i on.
  function Directory(zip: seq<byte>, p: nat, i: nat, n: nat): (r: Option<seq<ZipEntry>>)
    ensures r.Some? && i <= n ==> |r.value| == n - i && forall k :: 0 <= k < n - i ==> r.value[k].number == i + k
    decreases n - i
  {
    if n <= i then Some([])
    else match EntryAt(zip, p, i)
      case None => None
      case Some((e, next)) =>
        match Directory(zip, next, i + 1, n)
        case None => None
        case Some(es) => Some([e] + es)
  }

  // The entries of an archive in the order of its central directory, if it is one
  // (Zip.c:194-237).
  function Archive(zip: seq<byte>): (r: Option<seq<ZipEntry>>)
  {
    if |zip| < ENDHDR || U32(zip, 0) != LOCSIG then None
    else match LastMark(zip, |zip| - ENDHDR)
      case None => None
      case Some(p) =>
        var n, cd := U16(zip, p + 8), U32(zip, p + 16);
        if n == 0 || cd >= |zip| then None else Directory(zip, cd, 0, n)
  }

  // The backward scan (Zip.c:212-222).
  method FindMark(zip: seq<byte>) returns (r: Option<nat>)
    requires ENDHDR <= |zip|
    ensures r == LastMark(zip, |zip| - ENDHDR)
  {
    var p := |zip| - ENDHDR;
    while p >= 0
      invariant -1 <= p <= |zip| - ENDHDR && LastMark(zip, p) == LastMark(zip, |zip| - ENDHDR)
    {
      if zip[p] == 0x50 && U32(zip, p) == ENDSIG {
        return Some(p);
      }
      p := p - 1;
    }
    return None;
  }

  lemma RearrangesMore(s: seq<ZipEntry>, dir: seq<ZipEntry>)
    requires Rearranges(s, dir)
    ensures forall k :: 0 <= k < |s| ==> s[k].number < |dir|
  {
  }

  // The array holds the entries of dir in order.
  ghost predicate Indexed(es: seq<ZipEntry>, dir: seq<ZipEntry>)
  {
    Sorted(es) && EarliestFirst(es) && Rearranges(es, dir)
  }

  // Insert one entry (Zip.c:278-341).
  method InsertEntry(pEntries: array<ZipEntry>, i: nat, e: ZipEntry, ghost dir: seq<ZipEntry>)
    requires i < pEntries.Length && Indexed(pEntries[..i], dir) && e.number == i == |dir|
    modifies pEntries
    ensures Indexed(pEntries[..i + 1], dir + [e])
  {
    ghost var s := pEntries[..i];
    var target := FindTarget(pEntries, i, e.name);
    InsertAt(pEntries, i, target, e);
    if !(forall k :: 0 <= k < i ==> s[k].name != e.name) {
      assert s[target - 1].name == e.name;
    }
    RearrangesMore(s, dir);
    InsertedSorted(s, target, e);
    InsertedEarliest(s, target, e);
    InsertedRearranges(s, dir, target, e);
  }

  // The loop over the directory (Zip.c:248-392).
  method ReadDirectory(zip: seq<byte>, cd: nat, n: nat) returns (ok: bool, pEntries: array<ZipEntry>)
    ensures fresh(pEntries) && ok == Directory(zip, cd, 0, n).Some?
    ensures ok ==> pEntries.Length == n && Indexed(pEntries[..], Directory(zip, cd, 0, n).value)
  {
    pEntries := new ZipEntry[n](_ => ZipEntry([], 0, 0, 0, Attributes(0, 0, 0, 0, 0), 0));
    ghost var whole := Directory(zip, cd, 0, n);
    var ptr, i := cd, 0;
    ghost var dir: seq<ZipEntry> := [];
    assert whole.Some? ==> whole.value == dir + whole.value;
    while i < n
      invariant 0 <= i <= n && |dir| == i && 0 <= ptr && Indexed(pEntries[..i], dir)
      invariant whole.Some? == Directory(zip, ptr, i, n).Some?
      invariant whole.Some? ==> whole.value == dir + Directory(zip, ptr, i, n).value
    {
      var r := EntryAt(zip, ptr, i);
      if r.None? {
        return false, pEntries;
      }
      var (e, next) := r.value;
      InsertEntry(pEntries, i, e, dir);
      DirectoryNext(zip, ptr, i, n, dir);
      dir := dir + [e];
      ptr := next;
      i := i + 1;
    }
    assert pEntries[..n] == pEntries[..];
    assert dir + [] == dir;
    ok := true;
  }

  lemma DirectoryNext(zip: seq<byte>, p: nat, i: nat, n: nat, dir: seq<ZipEntry>)
    requires i < n && EntryAt(zip, p, i).Some?
    ensures var (e, next) := EntryAt(zip, p, i).value;
            && Directory(zip, p, i, n).Some? == Directory(zip, next, i + 1, n).Some?
            && (Directory(zip, p, i, n).Some? ==>
                  dir + Directory(zip, p, i, n).value == (dir + [e]) + Directory(zip, next, i + 1, n).value)
  {
  }

  // computeHash (Zip.c:136-144).
  function HashFrom(h: nat, name: Name): (r: nat)
    decreases |name|
  {
    if name == [] then h else HashFrom((h * 31 + name[0]) % TWO32, name[1..])
  }

  function HashOf(name: Name): (r: nat)
  {
    HashFrom(2, name)
  }

  method ComputeHash(name: Name) returns (hash: nat)
    ensures hash == HashOf(name)
  {
    hash := 2;
    var i := 0;
    assert name[0..] == name;
    while i < |name|
      invariant 0 <= i <= |name| && HashFrom(hash, name[i..]) == HashOf(name)
    {
      assert name[i..][1..] == name[i + 1..];
      hash := (hash * 31 + name[i]) % TWO32;
      i := i + 1;
    }
  }

  // What the table holds for an entry: its name, and its place in the array.
  datatype Ref = Ref(name: Name, place: nat)

  // hashcmpZipEntry and hashcmpZipName.
  predicate SameName(a: Ref, b: Ref)
  {
    a.name == b.name
  }

  // The table knows the first i entries by name, each name by its first entry.
  ghost predicate Hashed(items: set<(nat, Ref)>, es: seq<ZipEntry>, i: nat)
  {
    && i <= |es|
    && (forall h, r :: (h, r) in items ==>
          h == HashOf(r.name) && r.place < i && FirstNamed(es, r.name) == Some(es[r.place]))
    && (forall k :: 0 <= k < i ==> Known(items, es[k].name))
  }

  ghost predicate Known(items: set<(nat, Ref)>, name: Name)
  {
    exists r :: (HashOf(name), r) in items && r.name == name
  }

  class ZipArchive {
    var pEntries: array<ZipEntry>
    var pHash: HashTable.HashTable<Ref>

    // The archive indexes these entries.
    ghost predicate Holds(dir: seq<ZipEntry>)
      reads this, pEntries, pHash, pHash.pEntries
    {
      Indexed(pEntries[..], dir) && pHash.Valid() && pHash.same == SameName
      && Hashed(pHash.Items(), pEntries[..], pEntries.Length)
    }

    constructor (entries: array<ZipEntry>, hash: HashTable.HashTable<Ref>)
      ensures pEntries == entries && pHash == hash
    {
      pEntries, pHash := entries, hash;
    }

    // mzFindZipEntry (Zip.c:505-512): of the entries with this name, the first in the central
    // directory.
    method FindZipEntry(name: Name, ghost dir: seq<ZipEntry>) returns (r: Option<ZipEntry>)
      requires Holds(dir)
      modifies pHash, pHash.pEntries
      ensures r == FirstNamed(dir, name)
      ensures Holds(dir) && pEntries == old(pEntries) && pHash == old(pHash)
      ensures pHash.pEntries == old(pHash.pEntries) || fresh(pHash.pEntries)
    {
      var hash := ComputeHash(name);
      ghost var items, es := pHash.Items(), pEntries[..];
      var found := pHash.Lookup(hash, Ref(name, 0), false);
      FindsFirst(items, es, dir, name);
      r := if found.None? then None else Some(pEntries[found.value.place]);
    }
  }

  // The first entry of the directory with a name is the one with the least number.
  lemma {:induction false} FirstInDirectory(dir: seq<ZipEntry>, name: Name, from: nat, k: nat)
    requires k < |dir| && dir[k].name == name && forall j :: 0 <= j < |dir| ==> dir[j].number == from + j
    ensures FirstNamed(dir, name).Some? && FirstNamed(dir, name).value.number <= from + k
  {
    if dir[0].name != name {
      assert dir[1..][k - 1] == dir[k];
      FirstInDirectory(dir[1..], name, from + 1, k - 1);
    }
  }

  lemma FirstAmongAll(es: seq<ZipEntry>, dir: seq<ZipEntry>, name: Name)
    requires Rearranges(es, dir) && FirstNamed(es, name).Some?
    ensures FirstNamed(dir, name).Some?
            && FirstNamed(dir, name).value.number <= FirstNamed(es, name).value.number < |dir|
    ensures FirstNamed(es, name).value == dir[FirstNamed(es, name).value.number]
  {
    var i :| 0 <= i < |es| && es[i] == FirstNamed(es, name).value;
    assert es[i] == dir[es[i].number];
    FirstInDirectory(dir, name, 0, es[i].number);
  }

  lemma FirstInSorted(es: seq<ZipEntry>, dir: seq<ZipEntry>, name: Name, k: nat)
    requires Rearranges(es, dir) && EarliestFirst(es) && k < |dir| && dir[k].name == name
    ensures FirstNamed(es, name).Some? && FirstNamed(es, name).value.number <= k
  {
    assert Inside(es, dir, k);
    var j :| 0 <= j < |es| && es[j] == dir[k];
    assert Follows(es, j);
  }

  // The first of the name in the directory is no later than the first in the array.
  lemma NoLater(es: seq<ZipEntry>, dir: seq<ZipEntry>, name: Name, a: Option<ZipEntry>, b: Option<ZipEntry>)
    requires Rearranges(es, dir) && a == FirstNamed(es, name) && b == FirstNamed(dir, name)
    ensures a.Some? ==> b.Some? && b.value.number <= a.value.number < |dir| && a.value == dir[a.value.number]
  {
    if a.Some? {
      FirstAmongAll(es, dir, name);
    }
  }

  // Nor is it earlier.
  lemma NoEarlier(es: seq<ZipEntry>, dir: seq<ZipEntry>, name: Name, a: Option<ZipEntry>, b: Option<ZipEntry>)
    requires Indexed(es, dir) && a == FirstNamed(es, name) && b == FirstNamed(dir, name)
    ensures b.Some? ==> a.Some? && a.value.number <= b.value.number < |dir| && b.value == dir[b.value.number]
  {
    if b.Some? {
      NumberIsPlace(dir, b.value, b.value.number);
      FirstInSorted(es, dir, name, b.value.number);
    }
  }

  lemma SameFirst(dir: seq<ZipEntry>, a: Option<ZipEntry>, b: Option<ZipEntry>)
    requires a.Some? ==> b.Some? && b.value.number <= a.value.number < |dir| && a.value == dir[a.value.number]
    requires b.Some? ==> a.Some? && a.value.number <= b.value.number < |dir| && b.value == dir[b.value.number]
    ensures a == b
  {
  }

  // Sorting does not change which entry is the first of its name.
  lemma FirstIsEarliest(es: seq<ZipEntry>, dir: seq<ZipEntry>, name: Name)
    requires Indexed(es, dir)
    ensures FirstNamed(es, name) == FirstNamed(dir, name)
  {
    var a, b := FirstNamed(es, name), FirstNamed(dir, name);
    NoLater(es, dir, name, a, b);
    NoEarlier(es, dir, name, a, b);
    SameFirst(dir, a, b);
  }

  lemma NumberIsPlace(dir: seq<ZipEntry>, e: ZipEntry, n: nat)
    requires e in dir && e.number == n && forall k :: 0 <= k < |dir| ==> dir[k].number == k
    ensures n < |dir| && dir[n] == e
  {
  }

  // A name's first entry is what the table has for it.
  lemma FindsFirst(items: set<(nat, Ref)>, es: seq<ZipEntry>, dir: seq<ZipEntry>, name: Name)
    requires Hashed(items, es, |es|) && Indexed(es, dir)
    ensures HashTable.Holds(items, SameName, HashOf(name), Ref(name, 0)) <==> FirstNamed(dir, name).Some?
    ensures forall r :: (HashOf(name), r) in items && r.name == name ==>
              r.place < |es| && FirstNamed(dir, name) == Some(es[r.place])
  {
    FirstIsEarliest(es, dir, name);
    if FirstNamed(es, name).Some? {
      var k :| 0 <= k < |es| && es[k] == FirstNamed(es, name).value;
      assert Known(items, es[k].name);
      var r :| (HashOf(es[k].name), r) in items && r.name == es[k].name;
      assert SameName(r, Ref(name, 0));
    }
  }

  lemma {:induction false} FirstAt(es: seq<ZipEntry>, i: nat)
    requires i < |es| && forall k :: 0 <= k < i ==> es[k].name != es[i].name
    ensures FirstNamed(es, es[i].name) == Some(es[i])
    decreases i
  {
    if i > 0 {
      assert forall k {:trigger es[1..][k]} :: 0 <= k < |es| - 1 ==> es[1..][k] == es[k + 1];
      FirstAt(es[1..], i - 1);
    }
  }

  lemma KnownIsHeld(items: set<(nat, Ref)>, name: Name, i: nat)
    ensures HashTable.Holds(items, SameName, HashOf(name), Ref(name, i)) <==> Known(items, name)
  {
    if Known(items, name) {
      var r :| (HashOf(name), r) in items && r.name == name;
      assert SameName(r, Ref(name, i));
    }
  }

  lemma KnownStill(items: set<(nat, Ref)>, items': set<(nat, Ref)>, name: Name)
    requires items <= items' && Known(items, name)
    ensures Known(items', name)
  {
  }

  // A name seen before adds nothing; a new one adds its entry.
  lemma HashedMore(items: set<(nat, Ref)>, items': set<(nat, Ref)>, es: seq<ZipEntry>, i: nat)
    requires Hashed(items, es, i) && i < |es|
    requires items' == if Known(items, es[i].name) then items else items + {(HashOf(es[i].name), Ref(es[i].name, i))}
    ensures Hashed(items', es, i + 1)
  {
    if !Known(items, es[i].name) {
      FirstAt(es, i);
      assert (HashOf(es[i].name), Ref(es[i].name, i)) in items';
      assert Known(items', es[i].name);
      forall k | 0 <= k < i
        ensures Known(items', es[k].name)
      {
        KnownStill(items, items', es[k].name);
      }
    }
  }

  // Add one entry (addEntryToHashTable).
  method HashEntry(pHash: HashTable.HashTable<Ref>, name: Name, i: nat, ghost es: seq<ZipEntry>)
    requires pHash.Valid() && pHash.same == SameName && Hashed(pHash.Items(), es, i) && i < |es| && es[i].name == name
    requires pHash.numDeadEntries == 0 && pHash.numEntries <= i && HashTable.HashSize(|es|) <= pHash.tableSize
    modifies pHash, pHash.pEntries
    ensures pHash.Valid() && (pHash.pEntries == old(pHash.pEntries) || fresh(pHash.pEntries))
    ensures Hashed(pHash.Items(), es, i + 1)
    ensures pHash.numDeadEntries == 0 && pHash.numEntries <= i + 1 && pHash.tableSize == old(pHash.tableSize)
  {
    ghost var items := pHash.Items();
    KnownIsHeld(items, name, i);
    HashTable.HashSizeSuffices(|es|, pHash.tableSize, pHash.numEntries);
    var hash := ComputeHash(name);
    var found := pHash.Lookup(hash, Ref(name, i), true);
    HashedMore(items, pHash.Items(), es, i);
  }

  // Hash the entries in the order of the array, so that the first of a name stays
  // (Zip.c:146-158, 394-404).
  method HashEntries(pEntries: array<ZipEntry>, n: nat) returns (pHash: HashTable.HashTable<Ref>)
    requires n == pEntries.Length
    ensures pHash.Valid() && fresh(pHash) && fresh(pHash.pEntries) && pHash.same == SameName
    ensures Hashed(pHash.Items(), pEntries[..], n)
    ensures pHash.tableSize == HashTable.RoundedUp(HashTable.HashSize(n), 1)
  {
    pHash := new HashTable.HashTable<Ref>(HashTable.RoundedUp(HashTable.HashSize(n), 1), SameName);
    ghost var es := pEntries[..];
    var i := 0;
    while i < n
      invariant 0 <= i <= n && pHash.Valid() && fresh(pHash) && fresh(pHash.pEntries) && pHash.same == SameName
                && pEntries[..] == es
      invariant Hashed(pHash.Items(), es, i) && pHash.numEntries <= i && pHash.numDeadEntries == 0
      invariant pHash.tableSize == HashTable.RoundedUp(HashTable.HashSize(n), 1)
    {
      HashEntry(pHash, pEntries[i].name, i, es);
      i := i + 1;
    }
  }

  // parseZipArchive (Zip.c:187-414).
  method ParseZipArchive(zip: seq<byte>) returns (archive: ZipArchive?)
    ensures archive != null <==> Archive(zip).Some?
    ensures archive != null ==> fresh(archive) && fresh(archive.pHash) && fresh(archive.pHash.pEntries)
                                && archive.Holds(Archive(zip).value)
  {
    archive := null;
    if |zip| < ENDHDR || U32(zip, 0) != LOCSIG {
      return;
    }
    var end := FindMark(zip);
    if end.None? {
      return;
    }
    var n, cd := U16(zip, end.value + 8), U32(zip, end.value + 16);
    if n == 0 || cd >= |zip| {
      return;
    }
    var ok, pEntries := ReadDirectory(zip, cd, n);
    if !ok {
      return;
    }
    var pHash := HashEntries(pEntries, n);
    archive := new ZipArchive(pEntries, pHash);
  }

  // The entries whose names start with z, in order.
  function Under(es: seq<ZipEntry>, z: Name): (r: seq<ZipEntry>)
  {
    if es == [] then [] else (if z <= es[0].name then [es[0]] else []) + Under(es[1..], z)
  }

  // Behind a match and a mismatch there are no more matches.
  lemma {:induction false} NoMoreUnder(es: seq<ZipEntry>, z: Name, i: nat, j: nat)
    requires Sorted(es) && i < j < |es| && z <= es[i].name && !(z <= es[j].name)
    ensures Under(es[j..], z) == []
    decreases |es| - j
  {
    assert es[j..][1..] == es[j + 1..];
    if j + 1 < |es| {
      if z <= es[j + 1].name {
        PrefixBetween(z, es[i].name, es[j].name, es[j + 1].name);
        assert false;
      }
      NoMoreUnder(es, z, i, j + 1);
    }
  }

  // The walk of mzExtractRecursive over the entries (Zip.c:985-1023): stopping at the first
  // mismatch after a match, it still visits every entry under the path.
  method EntriesUnder(es: seq<ZipEntry>, z: Name) returns (visited: seq<ZipEntry>)
    requires Sorted(es)
    ensures visited == Under(es, z)
  {
    visited := [];
    var seenMatch := false;
    var i := 0;
    ghost var m := 0;
    assert es[0..] == es;
    while i < |es|
      invariant 0 <= i <= |es| && visited + Under(es[i..], z) == Under(es, z)
      invariant seenMatch ==> m < i && z <= es[m].name
    {
      UnderStep(es, z, i, visited);
      if |es[i].name| < |z| || es[i].name[..|z|] != z {
        if seenMatch {
          NoMoreUnder(es, z, m, i);
          break;
        }
      } else {
        seenMatch, m := true, i;
        visited := visited + [es[i]];
      }
      i := i + 1;
    }
    assert visited + [] == visited;
  }

  lemma UnderStep(es: seq<ZipEntry>, z: Name, i: nat, v: seq<ZipEntry>)
    requires i < |es|
    ensures v + Under(es[i..], z) == (if z <= es[i].name then v + [es[i]] else v) + Under(es[i + 1..], z)
  {
    assert es[i..][1..] == es[i + 1..];
    if z <= es[i].name {
      Associative(v, [es[i]], Under(es[i + 1..], z));
    } else {
      assert [] + Under(es[i + 1..], z) == Under(es[i + 1..], z);
    }
  }

  // The path with its slash (Zip.c:954-968).
  function Slashed(zipDir: Name): (z: Name)
  {
    if zipDir != [] && zipDir[|zipDir| - 1] != 0x2f then zipDir + [0x2f] else zipDir
  }

  // The entries mzExtractRecursive extracts (Zip.c:930-1023), or None for an absolute path.
  method SelectEntries(pEntries: array<ZipEntry>, zipDir: Name) returns (r: Option<seq<ZipEntry>>)
    requires Sorted(pEntries[..])
    ensures r.None? <==> zipDir != [] && zipDir[0] == 0x2f
    ensures r.Some? ==> r.value == Under(pEntries[..], Slashed(zipDir))
  {
    if zipDir != [] && zipDir[0] == 0x2f {
      return None;
    }
    var visited := EntriesUnder(pEntries[..], Slashed(zipDir));
    r := Some(visited);
  }

  lemma {:induction false} UnderMembers(es: seq<ZipEntry>, z: Name, e: ZipEntry)
    ensures e in Under(es, z) <==> e in es && z <= e.name
  {
    if es != [] {
      UnderMembers(es[1..], z, e);
      assert e in es <==> e == es[0] || e in es[1..];
    }
  }

  // They are exactly the entries of the archive whose names start with the path.
  lemma ExtractsExactly(es: seq<ZipEntry>, dir: seq<ZipEntry>, z: Name, e: ZipEntry)
    requires Indexed(es, dir)
    ensures e in Under(es, z) <==> e in dir && z <= e.name
  {
    UnderMembers(es, z, e);
    if e in es {
      var i :| 0 <= i < |es| && es[i] == e;
      assert e == dir[e.number];
    }
    if e in dir {
      var k :| 0 <= k < |dir| && dir[k] == e;
      assert Inside(es, dir, k);
    }
  }

  // A path selects what is under it, whether it ends in a slash or not, and the empty path
  // selects everything.
  lemma SelectsUnder(zipDir: Name, name: Name)
    ensures zipDir == [] ==> Slashed(zipDir) <= name
    ensures zipDir != [] && zipDir[|zipDir| - 1] == 0x2f ==>
              (Slashed(zipDir) <= name <==> |zipDir| <= |name| && name[..|zipDir|] == zipDir)
    ensures zipDir != [] && zipDir[|zipDir| - 1] != 0x2f ==>
              (Slashed(zipDir) <= name <==>
                 |zipDir| < |name| && name[..|zipDir|] == zipDir && name[|zipDir|] == 0x2f)
  {
    var n := |zipDir|;
    if n > 0 && zipDir[n - 1] != 0x2f {
      if zipDir + [0x2f] <= name {
        assert name[..n] == name[..n + 1][..n] == zipDir;
        assert name[n] == name[..n + 1][n];
      }
      if n < |name| && name[..n] == zipDir && name[n] == 0x2f {
        assert name[..n + 1] == zipDir + [0x2f];
      }
    }
  }
}
