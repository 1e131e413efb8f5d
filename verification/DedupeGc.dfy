// dedupe's garbage collection (dedupe/dedupe.c:502-611).
module DedupeGc {
  import opened Bytes
  import opened FileSystem
  import opened DedupeText
  import opened DedupeStore
  import opened Dedupe

  // The blobs some entries name.
  function KeysOf(es: seq<Entry>): (ks: seq<Path>)
  {
    if es == [] then [] else (if es[0].what.File? then [es[0].what.key] else []) + KeysOf(es[1..])
  }

  lemma {:induction false} KeysIn(es: seq<Entry>, i: nat)
    requires i < |es| && es[i].what.File?
    ensures es[i].what.key in KeysOf(es)
    decreases i
  {
    if i > 0 {
      KeysIn(es[1..], i - 1);
    }
  }

  // The blobs these lines use; None where one of them sticks.
  function NamesIn(version: int, ls: seq<string>): (r: Option<seq<Path>>)
  {
    if ls == [] then Some([])
    else match KeyOn(version, ls[0])
      case Sticks => None
      case Passes => NamesIn(version, ls[1..])
      case Uses(key) =>
        match NamesIn(version, ls[1..])
        case None => None
        case Some(ks) => Some([key] + ks)
  }

  // The blobs a manifest names.
  function NamesOf(text: string): (r: Option<seq<Path>>)
  {
    NamesIn(ReadManifest(text).version, ReadManifest(text).body)
  }

  // The blobs the manifests name, up to the first manifest of a newer version, where the
  // reading stops.
  function UsedKeys(ms: seq<string>): (r: Option<seq<Path>>)
  {
    if ms == [] || ReadManifest(ms[0]).version > DEDUPE_VERSION then Some([])
    else match NamesOf(ms[0])
      case None => None
      case Some(names) =>
        match UsedKeys(ms[1..])
        case None => None
        case Some(ks) => Some(names + ks)
  }

  // A manifest names this blob.
  predicate Names(text: string, p: Path)
  {
    NamesOf(text).Some? && p in NamesOf(text).value
  }

  // A manifest names this blob before the first newer manifest stops the reading.
  ghost predicate NamedInTime(ms: seq<string>, p: Path)
  {
    exists i :: 0 <= i < |ms| && InTime(ms, i) && Names(ms[i], p)
  }

  // Neither this manifest nor one before it is newer.
  ghost predicate InTime(ms: seq<string>, i: nat)
    requires i < |ms|
  {
    forall k :: 0 <= k <= i ==> ReadManifest(ms[k]).version <= DEDUPE_VERSION
  }

  // The blobs that count as used are exactly those named in time.
  lemma {:induction false} UsedExactly(ms: seq<string>, p: Path)
    requires UsedKeys(ms).Some?
    ensures p in UsedKeys(ms).value <==> NamedInTime(ms, p)
    decreases |ms|
  {
    if ms != [] && ReadManifest(ms[0]).version <= DEDUPE_VERSION {
      var rest := ms[1..];
      UsedExactly(rest, p);
      assert InTime(ms, 0);
      if NamedInTime(ms, p) && !Names(ms[0], p) {
        var i :| 0 <= i < |ms| && InTime(ms, i) && Names(ms[i], p);
        assert rest[i - 1] == ms[i] && InTime(rest, i - 1);
      }
      if NamedInTime(rest, p) {
        var i :| 0 <= i < |rest| && InTime(rest, i) && Names(rest[i], p);
        assert forall k :: 0 < k <= i + 1 ==> ms[k] == rest[k - 1];
        assert InTime(ms, i + 1);
      }
    }
  }

  // The head of a line without its last field, the name.
  lemma HeadWithout(version: int, line: string, fs: seq<string>, end: string)
    requires Fields(line, HeadFields(version)) == Some((fs, end)) && Roomy(fs, HeadRooms(version))
    ensures var n := HeadFields(version) - 1;
            && Fields(line, n).Some? && Fields(line, n).value.0 == fs[..n] && Roomy(fs[..n], HeadRooms(version))
            && Fields(Fields(line, n).value.1, 1).Some? && Fields(Fields(line, n).value.1, 1).value.1 == end
  {
    var n := HeadFields(version) - 1;
    FieldsSplit(line, n, 1);
    assert fs[..n] == Fields(line, n).value.0;
  }

  // A line that extracting can read names the blob of its file.
  lemma ReadNames(version: int, line: string)
    requires Parse(version, line).Read?
    ensures var w := Parse(version, line).e.what;
            KeyOn(version, line) == if w.File? then Uses(w.key) else Passes
  {
    var (fs, end) := Fields(line, HeadFields(version)).value;
    HeadWithout(version, line, fs, end);
    assert fs[..HeadFields(version) - 1][0] == fs[0];
    if fs[0] == "f" {
      FileFields(Fields(line, HeadFields(version) - 1).value.1, end);
      var (gs, _) := Fields(end, 2).value;
      assert |gs[0]| < FILE_ROOMS[0] && |gs[1]| < FILE_ROOMS[1];
    }
  }

  // The name, and then the key and the size: the same as the name and the key, and then the
  // size.
  lemma FileFields(rest: string, end: string)
    requires Fields(rest, 1).Some? && Fields(rest, 1).value.1 == end && Fields(end, 2).Some?
    ensures Fields(rest, 2).Some? && Fields(rest, 2).value.0[1] == Fields(end, 2).value.0[0]
    ensures Token(Fields(rest, 2).value.1, '\t').Some?
            && Token(Fields(rest, 2).value.1, '\t').value.0 == Fields(end, 2).value.0[1]
  {
    FieldsSplit(rest, 1, 1);
    FieldsSplit(end, 1, 1);
  }

  // So a manifest that can be extracted names the blobs of its entries.
  lemma {:induction false} ExtractedNames(version: int, ls: seq<string>)
    requires ParseAll(version, ls).Some?
    ensures NamesIn(version, ls) == Some(KeysOf(ParseAll(version, ls).value))
  {
    if ls != [] {
      ReadNames(version, ls[0]);
      ExtractedNames(version, ls[1..]);
      var e, es := Parse(version, ls[0]).e, ParseAll(version, ls[1..]).value;
      assert ([e] + es)[0] == e && ([e] + es)[1..] == es && [] + KeysOf(es) == KeysOf(es);
    }
  }

  lemma EntriesNamed(text: string)
    requires EntriesOf(text).Some?
    ensures NamesOf(text) == Some(KeysOf(EntriesOf(text).value))
  {
    ExtractedNames(ReadManifest(text).version, ReadManifest(text).body);
  }

  // The order of strcmp.
  ghost predicate StrictOrder(lt: (Path, Path) -> bool)
  {
    && (forall a :: !lt(a, a))
    && (forall a, b, c :: lt(a, b) && lt(b, c) ==> lt(a, c))
    && (forall a, b :: lt(a, b) || lt(b, a) || a == b)
  }

  // strcmp on strings without NUL: the first character that differs decides, and a proper
  // prefix comes first.
  predicate StrBelow(a: string, b: string)
  {
    b != [] && (a == [] || a[0] < b[0] || (a[0] == b[0] && StrBelow(a[1..], b[1..])))
  }

  lemma {:induction false} StrBelowTransitive(a: string, b: string, c: string)
    requires StrBelow(a, b) && StrBelow(b, c)
    ensures StrBelow(a, c)
    decreases |a|
  {
    if a != [] && a[0] == b[0] == c[0] {
      StrBelowTransitive(a[1..], b[1..], c[1..]);
    }
  }

  lemma {:induction false} StrBelowTotal(a: string, b: string)
    ensures (StrBelow(a, b) || StrBelow(b, a) || a == b) && !StrBelow(a, a)
    decreases |a|
  {
    if a != [] {
      StrBelowTotal(a[1..], if b != [] then b[1..] else b);
      if b != [] && a[0] == b[0] && a[1..] == b[1..] {
        assert a == [a[0]] + a[1..] && b == [b[0]] + b[1..];
      }
    }
  }

  lemma StrcmpOrders()
    ensures StrictOrder(StrBelow)
  {
    forall a, b, c
      ensures !StrBelow(a, a) && (StrBelow(a, b) || StrBelow(b, a) || a == b)
      ensures StrBelow(a, b) && StrBelow(b, c) ==> StrBelow(a, c)
    {
      StrBelowTotal(a, b);
      if StrBelow(a, b) && StrBelow(b, c) {
        StrBelowTransitive(a, b, c);
      }
    }
  }

  ghost predicate Ascending(lt: (Path, Path) -> bool, s: seq<Path>)
  {
    forall i, j :: 0 <= i < j < |s| ==> !lt(s[j], s[i])
  }

  // qsort, as an insertion.
  function Insert(lt: (Path, Path) -> bool, p: Path, s: seq<Path>): (r: seq<Path>)
    ensures forall q :: q in r <==> q == p || q in s
  {
    if s == [] then [p] else if lt(s[0], p) then [s[0]] + Insert(lt, p, s[1..]) else [p] + s
  }

  function Sort(lt: (Path, Path) -> bool, s: seq<Path>): (r: seq<Path>)
    ensures forall q :: q in r <==> q in s
  {
    if s == [] then [] else Insert(lt, s[0], Sort(lt, s[1..]))
  }

  lemma {:induction false} InsertAscends(lt: (Path, Path) -> bool, p: Path, s: seq<Path>)
    requires StrictOrder(lt) && Ascending(lt, s)
    ensures Ascending(lt, Insert(lt, p, s))
  {
    var r := Insert(lt, p, s);
    if s != [] && lt(s[0], p) {
      var rest := Insert(lt, p, s[1..]);
      assert Ascending(lt, s[1..]);
      InsertAscends(lt, p, s[1..]);
      forall j | 0 <= j < |rest|
        ensures !lt(rest[j], s[0])
      {
        assert rest[j] in rest;
        if rest[j] != p {
          var k :| 0 <= k < |s[1..]| && s[1..][k] == rest[j];
          assert s[k + 1] == rest[j];
        }
      }
      AscendsFirst(lt, s[0], rest);
    } else {
      forall j | 0 <= j < |s|
        ensures !lt(s[j], p)
      {
        if j > 0 {
          NotBelow(lt, p, s[0], s[j]);
        }
      }
      if s != [] {
        AscendsFirst(lt, p, s);
      }
    }
  }

  lemma NotBelow(lt: (Path, Path) -> bool, a: Path, b: Path, c: Path)
    requires StrictOrder(lt) && !lt(b, a) && !lt(c, b)
    ensures !lt(c, a)
  {
  }

  lemma AscendsFirst(lt: (Path, Path) -> bool, p: Path, s: seq<Path>)
    requires Ascending(lt, s) && forall j :: 0 <= j < |s| ==> !lt(s[j], p)
    ensures Ascending(lt, [p] + s)
  {
    var r := [p] + s;
    assert forall j {:trigger r[j]} :: 0 < j < |r| ==> r[j] == s[j - 1];
  }

  lemma {:induction false} SortAscends(lt: (Path, Path) -> bool, s: seq<Path>)
    requires StrictOrder(lt)
    ensures Ascending(lt, Sort(lt, s))
  {
    if s != [] {
      SortAscends(lt, s[1..]);
      InsertAscends(lt, s[0], Sort(lt, s[1..]));
    }
  }

  // Files have only gone, and none that is used.
  ghost predicate Shrunk(d: Disk, e: Disk, used: seq<Path>)
  {
    && (forall p :: p in e ==> p in d && e[p] == d[p])
    && (forall p :: p in d && p in used ==> p in e)
  }

  ghost predicate Shrinking(before: seq<Disk>, after: seq<Disk>, d: Disk, used: seq<Path>)
  {
    && |before| <= |after| && after[..|before|] == before
    && forall i {:trigger after[i]} :: |before| <= i < |after| ==> Shrunk(d, after[i], used)
  }

  // Removing an unused file.
  method RemoveOne(fs: FileSystem, p: Path, ghost d: Disk, ghost t: seq<Disk>, ghost used: seq<Path>)
    requires fs.Valid() && p !in used && Shrunk(d, fs.disk, used) && Shrinking(t, fs.trace, d, used)
    modifies fs
    ensures fs.Valid() && Shrunk(d, fs.disk, used) && Shrinking(t, fs.trace, d, used)
    ensures (fs.reliable ==> p !in fs.disk) && forall q :: q in fs.disk ==> q in old(fs.disk)
  {
    ghost var t1, d1 := fs.trace, fs.disk;
    fs.Unlink(p);
    GainedShrunk(d, t, t1, fs.trace, d1, fs.disk, p, used);
  }

  lemma GainedShrunk(d: Disk, t: seq<Disk>, t1: seq<Disk>, t2: seq<Disk>, d1: Disk, d2: Disk, p: Path, used: seq<Path>)
    requires GainedBut(t1, t2, d1, iset{p}) && AgreeBut(d2, d1, iset{p}) && p !in used && (p in d2 ==> d2 == d1)
    requires Shrunk(d, d1, used) && Shrinking(t, t1, d, used) && t2 != [] && t2[|t2| - 1] == d2
    requires forall i {:trigger t2[i]} :: |t1| <= i < |t2| ==> t2[i] == d2
    ensures Shrunk(d, d2, used) && Shrinking(t, t2, d, used)
  {
    forall q | q in d2
      ensures q in d && d2[q] == d[q]
    {
      assert q in iset{p} ==> q == p;
    }
    forall q | q in d && q in used
      ensures q in d2
    {
      assert q !in iset{p};
    }
    assert t2[..|t|] == t2[..|t1|][..|t|];
    forall i {:trigger t2[i]} | |t| <= i < |t2|
      ensures Shrunk(d, t2[i], used)
    {
      if i < |t1| {
        assert t2[i] == t2[..|t1|][i] == t1[i];
      }
    }
  }

  // The two lists have been walked to i and j: everything before j comes before the rest of
  // all (dedupe.c:589-604).
  ghost predicate Walked(lt: (Path, Path) -> bool, all: seq<Path>, used: seq<Path>, i: nat, j: nat)
  {
    j <= |used| && forall k, l :: 0 <= k < j && i <= l < |all| ==> lt(used[k], all[l])
  }

  lemma WalkedMore(lt: (Path, Path) -> bool, all: seq<Path>, used: seq<Path>, i: nat, j: nat)
    requires StrictOrder(lt) && Ascending(lt, all) && Walked(lt, all, used, i, j) && i < |all| && j < |used|
             && lt(used[j], all[i])
    ensures Walked(lt, all, used, i, j + 1)
  {
    forall l | i <= l < |all|
      ensures lt(used[j], all[l])
    {
      if l > i {
        assert !lt(all[l], all[i]);
      }
    }
  }

  // Where the walk stops tells whether the file is used.
  lemma WalkDecides(lt: (Path, Path) -> bool, all: seq<Path>, used: seq<Path>, i: nat, j: nat)
    requires StrictOrder(lt) && Ascending(lt, used) && Walked(lt, all, used, i, j) && i < |all|
    requires j < |used| ==> !lt(used[j], all[i])
    ensures all[i] in used <==> j < |used| && !lt(all[i], used[j])
  {
    if all[i] in used {
      var k :| 0 <= k < |used| && used[k] == all[i];
      assert k >= j;
      assert k > j ==> !lt(used[k], used[j]);
    }
  }

  // Pass over the used files that come before file i.
  method Advance(lt: (Path, Path) -> bool, all: seq<Path>, used: seq<Path>, i: nat, j0: nat) returns (j: nat)
    requires StrictOrder(lt) && Ascending(lt, all) && Walked(lt, all, used, i, j0) && i < |all|
    ensures Walked(lt, all, used, i, j) && (j < |used| ==> !lt(used[j], all[i]))
  {
    j := j0;
    while j < |used| && lt(used[j], all[i])
      invariant Walked(lt, all, used, i, j)
      decreases |used| - j
    {
      WalkedMore(lt, all, used, i, j);
      j := j + 1;
    }
  }

  // The search for unused files (dedupe.c:589-604).
  method RemoveUnused(fs: FileSystem, lt: (Path, Path) -> bool, all: seq<Path>, used: seq<Path>)
    requires fs.Valid() && StrictOrder(lt) && Ascending(lt, all) && Ascending(lt, used)
    modifies fs
    ensures fs.Valid() && Shrunk(old(fs.disk), fs.disk, used) && Shrinking(old(fs.trace), fs.trace, old(fs.disk), used)
    ensures fs.reliable ==> forall p :: p in fs.disk && p in all ==> p in used
  {
    ghost var d, t := fs.disk, fs.trace;
    var i, j := 0, 0;
    assert t[..|t|] == t;
    while i < |all|
      invariant 0 <= i <= |all| && 0 <= j && fs.Valid() && Walked(lt, all, used, i, j)
      invariant Shrunk(d, fs.disk, used) && Shrinking(t, fs.trace, d, used)
      invariant fs.reliable ==> forall k :: 0 <= k < i && all[k] in fs.disk ==> all[k] in used
    {
      j := Advance(lt, all, used, i, j);
      WalkDecides(lt, all, used, i, j);
      if j >= |used| || lt(all[i], used[j]) {
        RemoveOne(fs, all[i], d, t, used);
      }
      i := i + 1;
    }
  }

  // The loop over the lines of a manifest (dedupe.c:543-580).
  method ReadLinesOf(version: int, ls: seq<string>) returns (names: Option<seq<Path>>)
    ensures names == NamesIn(version, ls)
  {
    var ks: seq<Path> := [];
    var i := 0;
    ghost var whole := NamesIn(version, ls);
    assert ls[0..] == ls && (whole.Some? ==> ks + whole.value == whole.value);
    while i < |ls|
      invariant 0 <= i <= |ls| && whole.Some? == NamesIn(version, ls[i..]).Some?
      invariant whole.Some? ==> whole.value == ks + NamesIn(version, ls[i..]).value
    {
      assert ls[i..][1..] == ls[i + 1..];
      match KeyOn(version, ls[i]) {
        case Sticks => return None;
        case Passes =>
        case Uses(key) =>
          ghost var rest := NamesIn(version, ls[i + 1..]);
          assert rest.Some? ==> ks + ([key] + rest.value) == (ks + [key]) + rest.value;
          ks := ks + [key];
      }
      i := i + 1;
    }
    assert ks + [] == ks;
    return Some(ks);
  }

  // One manifest (dedupe.c:531-581).
  method ReadOne(text: string) returns (newer: bool, names: Option<seq<Path>>)
    ensures newer == (ReadManifest(text).version > DEDUPE_VERSION) && (!newer ==> names == NamesOf(text))
  {
    var m := ReadManifest(text);
    newer, names := m.version > DEDUPE_VERSION, None;
    if !newer {
      names := ReadLinesOf(m.version, m.body);
    }
  }

  // The loop over the manifests (dedupe.c:523-582): None where a line sticks, at which the
  // program crashes.
  method ReadUsed(ms: seq<string>) returns (used: Option<seq<Path>>)
    ensures used == UsedKeys(ms)
  {
    var ks: seq<Path> := [];
    var i := 0;
    ghost var whole, rest := UsedKeys(ms), ms;
    assert whole.Some? ==> ks + whole.value == whole.value;
    while i < |ms|
      invariant 0 <= i <= |ms| && rest == ms[i..] && whole.Some? == UsedKeys(rest).Some?
      invariant whole.Some? ==> whole.value == ks + UsedKeys(rest).value
    {
      ghost var next := ms[i + 1..];
      assert rest == [ms[i]] + next;
      UsedFirst(rest, ms[i], next, ks);
      var newer, names := ReadOne(ms[i]);
      if newer {
        assert ks + [] == ks;
        return Some(ks);
      }
      if names.None? {
        return None;
      }
      ks, rest := ks + names.value, next;
      i := i + 1;
    }
    assert ks + [] == ks;
    return Some(ks);
  }

  lemma UsedFirst(s: seq<string>, m: string, rest: seq<string>, ks: seq<Path>)
    requires s == [m] + rest
    ensures ReadManifest(m).version > DEDUPE_VERSION ==> UsedKeys(s) == Some([])
    ensures ReadManifest(m).version <= DEDUPE_VERSION && NamesOf(m).None? ==> UsedKeys(s).None?
    ensures ReadManifest(m).version <= DEDUPE_VERSION && NamesOf(m).Some? ==>
              UsedKeys(s).Some? == UsedKeys(rest).Some?
              && (UsedKeys(s).Some? ==> ks + UsedKeys(s).value == (ks + NamesOf(m).value) + UsedKeys(rest).value)
  {
    assert s[0] == m && s[1..] == rest;
    if NamesOf(m).Some? && UsedKeys(rest).Some? {
      Associative(ks, NamesOf(m).value, UsedKeys(rest).value);
    }
  }

  // recursive_list_dir, in some order.
  method ListAll(fs: FileSystem) returns (all: seq<Path>)
    ensures forall p :: p in all <==> p in fs.disk
  {
    all := [];
    var left := fs.disk.Keys;
    while left != {}
      invariant left <= fs.disk.Keys && forall p :: p in all <==> p in fs.disk.Keys - left
    {
      var p :| p in left;
      all := all + [p];
      left := left - {p};
    }
  }

  // gc: what is removed is exactly what no manifest names in time.
  method Collect(fs: FileSystem, lt: (Path, Path) -> bool, ms: seq<string>) returns (ok: bool)
    requires fs.Valid() && StrictOrder(lt)
    modifies fs
    ensures fs.Valid() && ok == UsedKeys(ms).Some?
    ensures !ok ==> fs.disk == old(fs.disk) && fs.trace == old(fs.trace)
    ensures ok ==> Shrunk(old(fs.disk), fs.disk, UsedKeys(ms).value)
                   && Shrinking(old(fs.trace), fs.trace, old(fs.disk), UsedKeys(ms).value)
    ensures ok ==> forall p :: p in old(fs.disk) && NamedInTime(ms, p) ==> p in fs.disk && fs.disk[p] == old(fs.disk)[p]
    ensures ok && fs.reliable ==> forall p :: p in fs.disk <==> p in old(fs.disk) && NamedInTime(ms, p)
  {
    var used := ReadUsed(ms);
    if used.None? {
      return false;
    }
    var all := ListAll(fs);
    SortAscends(lt, all);
    SortAscends(lt, used.value);
    ghost var d, t, u, v := fs.disk, fs.trace, used.value, Sort(lt, used.value);
    RemoveUnused(fs, lt, Sort(lt, all), Sort(lt, used.value));
    SameUsed(t, fs.trace, d, fs.disk, v, u);
    forall p
      ensures p in used.value <==> NamedInTime(ms, p)
    {
      UsedExactly(ms, p);
    }
    ok := true;
  }

  lemma SameUsed(t: seq<Disk>, t': seq<Disk>, d: Disk, e: Disk, v: seq<Path>, u: seq<Path>)
    requires Shrunk(d, e, v) && Shrinking(t, t', d, v) && forall p :: p in v <==> p in u
    ensures Shrunk(d, e, u) && Shrinking(t, t', d, u)
  {
  }

  const NEWER: string := "dedupe\t3\n"

  lemma NewerAnnounces()
    ensures ReadManifest(NEWER).version == 3
  {
    assert IsLine(NEWER) && NEWER + [] == NEWER;
    FirstLine(NEWER, []);
    OneDigit(NEWER, '3', "\n");
  }

  // A manifest that names one blob of one byte.
  function Naming(key: Path, name: string): (e: Entry)
  {
    Entry(File(key, 1), 0, 0, 0, (0, 0, 0), name)
  }

  lemma NamingRecords()
    ensures EntriesOf(HEADER + Lines([Naming("k", "f")])) == Some([Naming("k", "f")])
  {
    var e := Naming("k", "f");
    MachineFits(e);
    assert |Digits(0, 8)| == |Digits(0, 10)| == |Digits(1, 10)| == 1;
    assert |Line(e)| == 21;
    ManifestRoundTrip([e]);
  }

  // Reading stops at a newer manifest, but the collection goes on: whatever a later manifest
  // names is removed.  Listed the other way round, it stays.
  method NewerManifestLoses(lt: (Path, Path) -> bool, before: Disk, newer: string, text: string)
    returns (lost: Disk, kept: Disk)
    requires StrictOrder(lt) && ReadManifest(newer).version > DEDUPE_VERSION
    requires ReadManifest(text).version <= DEDUPE_VERSION && NamesOf(text).Some?
    ensures lost == map[]
    ensures forall p :: p in kept <==> p in before && Names(text, p)
  {
    EarlyAndLate(newer, text);
    lost := CollectAll(lt, before, [newer, text]);
    kept := CollectAll(lt, before, [text, newer]);
    assert lost.Keys == {};
  }

  // A disk and two manifests with which that happens.
  method LoseOne(lt: (Path, Path) -> bool) returns (before: Disk, ghost es: seq<Entry>, lost: Disk, kept: Disk)
    requires StrictOrder(lt)
    ensures "k" in before && "k" in KeysOf(es) && "k" !in lost && "k" in kept
    ensures EntriesOf(HEADER + Lines(es)) == Some(es)
  {
    before, es := map["k" := [7]], [Naming("k", "f")];
    NewerAnnounces();
    NamingRecords();
    assert KeysOf(es)[0] == "k";
    EntriesNamed(HEADER + Lines(es));
    lost, kept := NewerManifestLoses(lt, before, NEWER, HEADER + Lines([Naming("k", "f")]));
  }

  // A collection that meets no failure.
  method CollectAll(lt: (Path, Path) -> bool, d: Disk, ms: seq<string>) returns (e: Disk)
    requires StrictOrder(lt) && UsedKeys(ms).Some?
    ensures forall p :: p in e <==> p in d && NamedInTime(ms, p)
    ensures forall p :: p in e ==> e[p] == d[p]
  {
    var fs := new FileSystem(d, true);
    var _ := Collect(fs, lt, ms);
    e := fs.disk;
  }

  lemma EarlyAndLate(newer: string, text: string)
    requires ReadManifest(newer).version > DEDUPE_VERSION
    requires ReadManifest(text).version <= DEDUPE_VERSION && NamesOf(text).Some?
    ensures UsedKeys([newer, text]).Some? && UsedKeys([text, newer]).Some?
    ensures forall p :: !NamedInTime([newer, text], p)
    ensures forall p :: NamedInTime([text, newer], p) <==> Names(text, p)
  {
    var early, late := [newer, text], [text, newer];
    assert late[1..] == [newer];
    assert early[0] == newer && late[0] == text && late[1] == newer;
    assert !InTime(early, 0) && !InTime(early, 1) && InTime(late, 0) && !InTime(late, 1);
  }
}
