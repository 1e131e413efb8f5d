// dedupe's three commands (dedupe/dedupe.c:345-616): create a manifest and its blobs,
// extract a manifest, and collect the blobs that no manifest names.
module Dedupe {
  import opened Bytes
  import opened FileSystem
  import opened DedupeText
  import opened DedupeStore

  const DEDUPE_VERSION: nat := 2
  const PATH_MAX: nat := 4096

  const HEADER: string := "dedupe\t2\n"

  // fgets with a buffer of PATH_MAX: up to the end of the line, or what fits.
  function LineEnd(text: string, k: nat): (n: nat)
    requires k <= |text|
    ensures k <= n <= |text| && (k < |text| && k < PATH_MAX - 1 ==> k < n)
    decreases |text| - k
  {
    if k == |text| || k >= PATH_MAX - 1 then k else if text[k] == '\n' then k + 1 else LineEnd(text, k + 1)
  }

  function ReadLines(text: string): (ls: seq<string>)
    decreases |text|
  {
    if text == [] then [] else [text[..LineEnd(text, 0)]] + ReadLines(text[LineEnd(text, 0)..])
  }

  // A whole line that fits the buffer.
  predicate IsLine(l: string)
  {
    OneLine(l) && |l| < PATH_MAX
  }

  lemma {:induction false} LineEndIs(l: string, rest: string, k: nat)
    requires IsLine(l) && k < |l|
    ensures LineEnd(l + rest, k) == |l|
    decreases |l| - k
  {
    assert (l + rest)[k] == l[k];
    if k + 1 < |l| {
      LineEndIs(l, rest, k + 1);
    }
  }

  lemma FirstLine(l: string, rest: string)
    requires IsLine(l)
    ensures ReadLines(l + rest) == [l] + ReadLines(rest)
  {
    LineEndIs(l, rest, 0);
    assert (l + rest)[..|l|] == l && (l + rest)[|l|..] == rest;
  }

  lemma {:induction false} LinesBack(ls: seq<string>)
    requires forall i :: 0 <= i < |ls| ==> IsLine(ls[i])
    ensures ReadLines(Concat(ls)) == ls
    decreases |ls|
  {
    if ls != [] {
      LinesBack(ls[1..]);
      FirstLine(ls[0], Concat(ls[1..]));
    }
  }

  // The version a first line announces, read by sscanf; a manifest without the line is of
  // version 1 (dedupe.c:408-413).
  function Announced(line: string): (v: Option<int>)
  {
    if "dedupe" <= line then Signed(SkipSpace(line[6..])) else None
  }

  function SkipSpace(s: string): (t: string)
  {
    if s != [] && (s[0] == ' ' || 9 as char <= s[0] <= 13 as char) then SkipSpace(s[1..]) else s
  }

  // %d, white space already passed over.
  function Signed(s: string): (v: Option<int>)
  {
    var digits := if s != [] && (s[0] == '+' || s[0] == '-') then s[1..] else s;
    var n: int := Number(digits);
    if StartsWithDigit(digits) then Some(if s[0] == '-' then -n else n) else None
  }

  predicate StartsWithDigit(s: string)
  {
    s != [] && '0' <= s[0] <= '9'
  }

  function ParseAll(version: int, ls: seq<string>): (r: Option<seq<Entry>>)
  {
    if ls == [] then Some([])
    else match Parse(version, ls[0])
      case Unknown => None
      case Breaks => None
      case Read(e) =>
        match ParseAll(version, ls[1..])
        case None => None
        case Some(es) => Some([e] + es)
  }

  datatype Manifest = Manifest(version: int, body: seq<string>)

  function ReadManifest(text: string): (m: Manifest)
  {
    var ls := ReadLines(text);
    if ls != [] && Announced(ls[0]).Some? then Manifest(Announced(ls[0]).value, ls[1..]) else Manifest(1, ls)
  }

  // The entries of a manifest that can be read.
  function EntriesOf(text: string): (r: Option<seq<Entry>>)
  {
    var m := ReadManifest(text);
    if m.version > DEDUPE_VERSION then None else ParseAll(m.version, m.body)
  }

  // The entries can be written so that they are read back.
  ghost predicate Recordable(es: seq<Entry>)
  {
    forall i :: 0 <= i < |es| ==> Writable(es[i]) && |Line(es[i])| < PATH_MAX
  }

  lemma {:induction false} ParseBack(es: seq<Entry>)
    requires Recordable(es)
    ensures ParseAll(2, Each(Line, es)) == Some(es)
  {
    if es != [] {
      ParseBack(es[1..]);
      LineRoundTrip(es[0]);
      EachRest(Line, es);
      ParseFirst(Each(Line, es), es);
    }
  }

  lemma EachRest(f: Entry -> string, es: seq<Entry>)
    requires es != []
    ensures Each(f, es)[0] == f(es[0]) && Each(f, es)[1..] == Each(f, es[1..])
  {
  }

  lemma ParseFirst(ls: seq<string>, es: seq<Entry>)
    requires ls != [] && es != [] && Parse(2, ls[0]) == Read(es[0]) && ParseAll(2, ls[1..]) == Some(es[1..])
    ensures ParseAll(2, ls) == Some(es)
  {
    assert es == [es[0]] + es[1..];
  }

  // What create writes is read back entry by entry.
  lemma ManifestRoundTrip(es: seq<Entry>)
    requires Recordable(es)
    ensures EntriesOf(HEADER + Lines(es)) == Some(es)
  {
    var ls := Each(Line, es);
    assert IsLine(HEADER);
    FirstLine(HEADER, Concat(ls));
    AllLines(es);
    LinesBack(ls);
    HeaderAnnounces();
    ParseBack(es);
  }

  lemma AllLines(es: seq<Entry>)
    requires Recordable(es)
    ensures forall i :: 0 <= i < |Each(Line, es)| ==> IsLine(Each(Line, es)[i])
  {
    forall i | 0 <= i < |es|
      ensures IsLine(Line(es[i]))
    {
      LineIsOne(es[i]);
    }
  }

  lemma HeaderAnnounces()
    ensures Announced(HEADER) == Some(2)
  {
    OneDigit(HEADER, '2', "\n");
  }

  // A header with one digit, and something else or nothing behind it.
  lemma OneDigit(line: string, c: char, rest: string)
    requires line == "dedupe\t" + [c] + rest && '0' <= c <= '9' && !StartsWithDigit(rest)
    ensures Announced(line) == Some(c as int - '0' as int)
  {
    var s, t := line[6..], line[7..];
    assert line[..6] == "dedupe" && s == "\t" + t && t == [c] + rest;
    assert SkipSpace(s) == SkipSpace(t) == t;
    assert t[1..] == rest && DigitsOf(t) == [c] + DigitsOf(rest) == [c];
    assert [c][..0] == [] && Value([c]) == c as int - '0' as int;
    assert Signed(t) == Some(Number(t) as int) && "dedupe" <= line;
  }

  // create (dedupe.c:352-384): the manifest's text, when the whole tree could be stored, as it
  // always is where nothing fails.
  method Create(fs: FileSystem, sha: seq<byte> -> string, ex: set<string>, tree: Children)
    returns (ok: bool, text: string)
    requires fs.Valid() && GoodHash(sha) && BlobsRight(sha, fs.disk)
    modifies fs
    ensures fs.Valid() && BlobsRight(sha, fs.disk) && Stay(old(fs.disk), fs.disk)
    ensures Growing(sha, old(fs.trace), fs.trace, old(fs.disk))
    ensures ok ==> text == HEADER + Lines(DirEntries(sha, ex, ".", tree))
                   && Supported(fs.disk, DirEntries(sha, ex, ".", tree))
    ensures fs.reliable ==> ok
  {
    ok, text := StoreDir(fs, sha, ex, ".", tree);
    text := HEADER + text;
  }

  // What extracting puts in the place of an entry.
  datatype Restored =
    | RFile(content: seq<byte>, mode: nat, uid: nat, gid: nat)
    | RDir(mode: nat, uid: nat, gid: nat)
    | RLink(to: string, uid: nat, gid: nat)

  function RestoredOf(d: Disk, e: Entry): (r: Restored)
    requires e.what.File? ==> e.what.key in d
  {
    match e.what
    case File(key, _) => RFile(d[key], e.mode, e.uid, e.gid)
    case Dir => RDir(e.mode, e.uid, e.gid)
    case Link(to) => RLink(to, e.uid, e.gid)
  }

  // Later entries replace earlier ones of the same name.
  function Restore(d: Disk, es: seq<Entry>): (out: map<string, Restored>)
    requires Supported(d, es)
  {
    if es == [] then map[] else Restore(d, es[..|es| - 1])[es[|es| - 1].name := RestoredOf(d, es[|es| - 1])]
  }

  // One more line of a manifest has been read.
  lemma ParseNext(version: int, ls: seq<string>, i: nat, done: seq<Entry>)
    requires i < |ls|
    ensures var r, rest, e := ParseAll(version, ls[i..]), ParseAll(version, ls[i + 1..]), Parse(version, ls[i]);
            && (r.Some? <==> e.Read? && rest.Some?)
            && (r.Some? ==> done + r.value == (done + [e.e]) + rest.value)
  {
    assert ls[i..][1..] == ls[i + 1..];
  }

  // Put one entry back (dedupe.c:448-490).
  method RestoreEntry(fs: FileSystem, e: Entry) returns (r: Option<Restored>)
    ensures r.Some? ==> (e.what.File? ==> e.what.key in fs.disk) && r.value == RestoredOf(fs.disk, e)
    ensures fs.reliable && (e.what.File? ==> e.what.key in fs.disk) ==> r.Some?
  {
    match e.what {
      case File(key, _) =>
        var content := fs.Read(key);
        if content.None? {
          return None;
        }
        return Some(RFile(content.value, e.mode, e.uid, e.gid));
      case Dir => return Some(RDir(e.mode, e.uid, e.gid));
      case Link(to) => return Some(RLink(to, e.uid, e.gid));
    }
  }

  // extract (dedupe.c:385-501): the lines are taken one by one; a line that cannot be read, a
  // missing blob, or a blob that cannot be read, ends it.
  method Extract(fs: FileSystem, text: string) returns (ok: bool, out: map<string, Restored>)
    ensures ok ==> EntriesOf(text).Some? && Supported(fs.disk, EntriesOf(text).value)
                   && out == Restore(fs.disk, EntriesOf(text).value)
    ensures ReadManifest(text).version > DEDUPE_VERSION ==> !ok && out == map[]
    ensures fs.reliable && EntriesOf(text).Some? && Supported(fs.disk, EntriesOf(text).value) ==> ok
  {
    var m := ReadManifest(text);
    out := map[];
    if m.version > DEDUPE_VERSION {
      return false, out;
    }
    ghost var whole, done: seq<Entry> := ParseAll(m.version, m.body), [];
    var i := 0;
    assert m.body[0..] == m.body;
    assert whole.Some? ==> done + whole.value == whole.value;
    while i < |m.body|
      invariant 0 <= i <= |m.body| && whole.Some? == ParseAll(m.version, m.body[i..]).Some?
      invariant whole.Some? ==> whole.value == done + ParseAll(m.version, m.body[i..]).value
      invariant Supported(fs.disk, done) && out == Restore(fs.disk, done)
    {
      ParseNext(m.version, m.body, i, done);
      var parsed := Parse(m.version, m.body[i]);
      if !parsed.Read? {
        return false, out;
      }
      var e := parsed.e;
      assert whole.Some? ==> |done| < |whole.value| && whole.value[|done|] == e;
      var r := RestoreEntry(fs, e);
      if r.None? {
        return false, out;
      }
      assert (done + [e])[..|done|] == done;
      done := done + [e];
      out := out[e.name := r.value];
      i := i + 1;
    }
    assert whole == Some(done + []) && done + [] == done;
    ok := true;
  }

  ghost predicate DistinctNames(es: seq<Entry>)
  {
    forall i, j :: 0 <= i < j < |es| ==> es[i].name != es[j].name
  }

  lemma {:induction false} RestoreHas(d: Disk, es: seq<Entry>, i: nat)
    requires Supported(d, es) && DistinctNames(es) && i < |es|
    ensures es[i].name in Restore(d, es) && Restore(d, es)[es[i].name] == RestoredOf(d, es[i])
    decreases |es|
  {
    if i < |es| - 1 {
      RestoreHas(d, es[..|es| - 1], i);
    }
  }
}
