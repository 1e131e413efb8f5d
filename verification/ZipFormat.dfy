// An archive from the other side: files with their local headers, the central directory, and
// the record at the end, each field where the format has it (APPNOTE.TXT of PKWARE, sections
// 4.3.7, 4.3.12 and 4.3.16).  An archive written so is indexed as the files it was made of
// (minzip/Zip.c:187-414).
module ZipFormat {
  import opened Bytes
  import opened Endian
  import opened ZipIndex

  // A file to be put into an archive.  The fields nothing reads can hold anything, and so can
  // the name in the local header, of which the length alone is read.
  datatype Item = Item(name: Name, data: seq<byte>, uncompLen: nat, attributes: Attributes, extra: seq<byte>,
                       comment: seq<byte>, localName: seq<byte>, localExtra: seq<byte>, unread: Unread)

  datatype Unread = Unread(versionAndFlags: seq<byte>, diskAndInternal: seq<byte>, ofLocal: seq<byte>)

  // The values fit their fields.
  predicate Fits(e: Item)
  {
    && |e.unread.versionAndFlags| == 4 && |e.unread.diskAndInternal| == 4 && |e.unread.ofLocal| == 22
    && |e.name| < 4096 && (forall i :: 0 <= i < |e.name| ==> 0x20 <= e.name[i] <= 0x7e)
    && |e.extra| < 0x1_0000 && |e.comment| < 0x1_0000 && |e.localName| < 0x1_0000 && |e.localExtra| < 0x1_0000
    && |e.data| < 0x1_0000_0000 && e.uncompLen < 0x1_0000_0000 && Common(e.attributes)
  }

  // Made under MS-DOS or Unix, which is what the upper half of the version says.
  predicate Common(a: Attributes)
  {
    && (0 <= a.versionMadeBy < 0x100 || 0x300 <= a.versionMadeBy < 0x400)
    && 0 <= a.compression < 0x1_0000 && 0 <= a.modTime < 0x1_0000_0000 && 0 <= a.crc32 < 0x1_0000_0000
    && 0 <= a.externalFileAttributes < 0x1_0000_0000
  }

  // The fields of a directory entry, which has its local header at offset at.
  function CentralHeader(e: Item, at: nat): (b: seq<byte>)
    requires Fits(e)
    ensures |b| == 46
  {
    var a := e.attributes;
    ([0x50, 0x4b, 0x01, 0x02] + Little(a.versionMadeBy, 2) + e.unread.versionAndFlags + Little(a.compression, 2))
    + (Little(a.modTime, 4) + Little(a.crc32, 4) + Little(|e.data|, 4) + Little(e.uncompLen, 4))
    + (Little(|e.name|, 2) + Little(|e.extra|, 2) + Little(|e.comment|, 2) + [])
    + (e.unread.diskAndInternal + Little(a.externalFileAttributes, 4) + Little(at, 4) + [])
  }

  function Central(e: Item, at: nat): (b: seq<byte>)
    requires Fits(e)
  {
    CentralHeader(e, at) + e.name + e.extra + e.comment
  }

  function LocalHeader(e: Item): (b: seq<byte>)
    requires Fits(e)
    ensures |b| == 30
  {
    [0x50, 0x4b, 0x03, 0x04] + e.unread.ofLocal + Little(|e.localName|, 2) + Little(|e.localExtra|, 2)
  }

  function Local(e: Item): (b: seq<byte>)
    requires Fits(e)
  {
    LocalHeader(e) + e.localName + e.localExtra + e.data
  }

  // What the index has for it.
  function EntryOf(e: Item, at: nat, number: nat): (z: ZipEntry)
  {
    ZipEntry(e.name, at + 30 + |e.localName| + |e.localExtra|, |e.data|, e.uncompLen, e.attributes, number)
  }

  // b stands at p.
  predicate PartAt(zip: seq<byte>, p: nat, b: seq<byte>)
  {
    p + |b| <= |zip| && zip[p..p + |b|] == b
  }

  lemma PartOfPart(zip: seq<byte>, p: nat, b: seq<byte>, i: nat, j: nat)
    requires PartAt(zip, p, b) && i <= j <= |b|
    ensures PartAt(zip, p + i, b[i..j])
  {
    var l, r := zip[p + i..p + j], b[i..j];
    forall k | 0 <= k < j - i
      ensures l[k] == r[k]
    {
      assert zip[p..p + |b|][i + k] == b[i + k];
    }
  }

  lemma TwoParts(zip: seq<byte>, p: nat, a: seq<byte>, b: seq<byte>)
    requires PartAt(zip, p, a + b)
    ensures PartAt(zip, p, a) && PartAt(zip, p + |a|, b)
  {
    PartOfPart(zip, p, a + b, 0, |a|);
    PartOfPart(zip, p, a + b, |a|, |a| + |b|);
    assert (a + b)[0..|a|] == a && (a + b)[|a|..|a| + |b|] == b;
  }

  lemma FourParts(zip: seq<byte>, p: nat, a: seq<byte>, b: seq<byte>, c: seq<byte>, d: seq<byte>)
    requires PartAt(zip, p, a + b + c + d)
    ensures PartAt(zip, p, a) && PartAt(zip, p + |a|, b) && PartAt(zip, p + |a| + |b|, c)
            && PartAt(zip, p + |a| + |b| + |c|, d)
  {
    TwoParts(zip, p, a + b + c, d);
    TwoParts(zip, p, a + b, c);
    TwoParts(zip, p, a, b);
  }

  lemma LittleTwo(v: nat)
    ensures Little(v, 2) == [v % 256, v / 256 % 256]
  {
    assert Little(v, 2) == [v % 256] + ([v / 256 % 256] + Little(v / 256 / 256, 0));
  }

  lemma LittleFour(v: nat)
    ensures Little(v, 4) == [v % 256, v / 256 % 256, v / 0x1_0000 % 256, v / 0x100_0000 % 256]
  {
    LittleTwo(v / 256 / 256);
    assert Little(v, 4) == [v % 256] + ([v / 256 % 256] + Little(v / 256 / 256, 2));
  }

  lemma Digits(v: nat)
    requires v < 0x1_0000_0000
    ensures v == v % 256 + 256 * (v / 256 % 256) + 0x1_0000 * (v / 0x1_0000 % 256) + 0x100_0000 * (v / 0x100_0000 % 256)
  {
    assert v / 0x100_0000 < 256;
    assert v / 0x1_0000 == v / 0x100_0000 * 256 + v / 0x1_0000 % 256;
    assert v / 256 == v / 0x1_0000 * 256 + v / 256 % 256;
  }

  lemma Short(zip: seq<byte>, p: nat, v: nat)
    requires PartAt(zip, p, Little(v, 2)) && v < 0x1_0000
    ensures U16(zip, p) == v
  {
    LittleTwo(v);
    assert zip[p] == zip[p..p + 2][0] && zip[p + 1] == zip[p..p + 2][1];
  }

  lemma Long(zip: seq<byte>, p: nat, v: nat)
    requires PartAt(zip, p, Little(v, 4)) && v < 0x1_0000_0000
    ensures U32(zip, p) == v
  {
    LittleFour(v);
    Signature(zip, p, Little(v, 4));
    Digits(v);
  }

  lemma Signature(zip: seq<byte>, p: nat, s: seq<byte>)
    requires |s| == 4 && PartAt(zip, p, s)
    ensures U32(zip, p) == s[0] as int + 0x100 * s[1] as int + 0x1_0000 * s[2] as int + 0x100_0000 * s[3] as int
  {
    var w := zip[p..p + 4];
    assert zip[p] == w[0] && zip[p + 1] == w[1] && zip[p + 2] == w[2] && zip[p + 3] == w[3];
  }

  // The fields of a directory entry that are read, where they stand.
  lemma CentralFields(zip: seq<byte>, p: nat, e: Item, at: nat)
    requires Fits(e) && at < 0x1_0000_0000 && PartAt(zip, p, CentralHeader(e, at))
    ensures p + 46 <= |zip| && U32(zip, p) == 0x02014b50 && AttributesAt(zip, p) == e.attributes
    ensures U32(zip, p + 20) == |e.data| && U32(zip, p + 24) == e.uncompLen && U32(zip, p + 42) == at
    ensures U16(zip, p + 28) == |e.name| && U16(zip, p + 30) == |e.extra| && U16(zip, p + 32) == |e.comment|
  {
    var a := e.attributes;
    var mark := [0x50, 0x4b, 0x01, 0x02];
    FourParts(zip, p, mark + Little(a.versionMadeBy, 2) + e.unread.versionAndFlags + Little(a.compression, 2),
              Little(a.modTime, 4) + Little(a.crc32, 4) + Little(|e.data|, 4) + Little(e.uncompLen, 4),
              Little(|e.name|, 2) + Little(|e.extra|, 2) + Little(|e.comment|, 2) + [],
              e.unread.diskAndInternal + Little(a.externalFileAttributes, 4) + Little(at, 4) + []);
    FourParts(zip, p, mark, Little(a.versionMadeBy, 2), e.unread.versionAndFlags, Little(a.compression, 2));
    FourParts(zip, p + 12, Little(a.modTime, 4), Little(a.crc32, 4), Little(|e.data|, 4), Little(e.uncompLen, 4));
    FourParts(zip, p + 28, Little(|e.name|, 2), Little(|e.extra|, 2), Little(|e.comment|, 2), []);
    FourParts(zip, p + 34, e.unread.diskAndInternal, Little(a.externalFileAttributes, 4), Little(at, 4), []);
    Signature(zip, p, mark);
    Short(zip, p + 4, a.versionMadeBy);
    Short(zip, p + 10, a.compression);
    Long(zip, p + 12, a.modTime);
    Long(zip, p + 16, a.crc32);
    Long(zip, p + 20, |e.data|);
    Long(zip, p + 24, e.uncompLen);
    Short(zip, p + 28, |e.name|);
    Short(zip, p + 30, |e.extra|);
    Short(zip, p + 32, |e.comment|);
    Long(zip, p + 38, a.externalFileAttributes);
    Long(zip, p + 42, at);
  }

  lemma LocalFields(zip: seq<byte>, at: nat, e: Item)
    requires Fits(e) && PartAt(zip, at, LocalHeader(e))
    ensures at + 30 <= |zip| && U32(zip, at) == 0x04034b50
    ensures U16(zip, at + 26) == |e.localName| && U16(zip, at + 28) == |e.localExtra|
  {
    var mark := [0x50, 0x4b, 0x03, 0x04];
    FourParts(zip, at, mark, e.unread.ofLocal, Little(|e.localName|, 2), Little(|e.localExtra|, 2));
    Signature(zip, at, mark);
    Short(zip, at + 26, |e.localName|);
    Short(zip, at + 28, |e.localExtra|);
  }

  // A directory entry, and a file with its header, as their fields say.
  function CentralSize(e: Item): (n: nat) {
    46 + |e.name| + |e.extra| + |e.comment|
  }

  function LocalSize(e: Item): (n: nat) {
    30 + |e.localName| + |e.localExtra| + |e.data|
  }

  predicate CentralAt(zip: seq<byte>, p: nat, e: Item, at: nat)
  {
    && p + 46 + |e.name| <= |zip| && U32(zip, p) == 0x02014b50 && AttributesAt(zip, p) == e.attributes
    && U32(zip, p + 20) == |e.data| && U32(zip, p + 24) == e.uncompLen && U32(zip, p + 42) == at
    && U16(zip, p + 28) == |e.name| && U16(zip, p + 30) == |e.extra| && U16(zip, p + 32) == |e.comment|
    && PartAt(zip, p + 46, e.name)
  }

  predicate LocalAt(zip: seq<byte>, at: nat, e: Item)
  {
    && at + LocalSize(e) <= |zip| && U32(zip, at) == 0x04034b50
    && U16(zip, at + 26) == |e.localName| && U16(zip, at + 28) == |e.localExtra|
    && PartAt(zip, at + 30 + |e.localName| + |e.localExtra|, e.data)
  }

  lemma CentralThere(zip: seq<byte>, p: nat, e: Item, at: nat)
    requires Fits(e) && at < 0x1_0000_0000 && PartAt(zip, p, Central(e, at))
    ensures CentralAt(zip, p, e, at) && |Central(e, at)| == CentralSize(e)
  {
    FourParts(zip, p, CentralHeader(e, at), e.name, e.extra, e.comment);
    CentralFields(zip, p, e, at);
  }

  lemma LocalThere(zip: seq<byte>, at: nat, e: Item)
    requires Fits(e) && PartAt(zip, at, Local(e))
    ensures LocalAt(zip, at, e) && |Local(e)| == LocalSize(e)
  {
    FourParts(zip, at, LocalHeader(e), e.localName, e.localExtra, e.data);
    LocalFields(zip, at, e);
  }

  // The entry is read as its file, and the file's data is where the entry says.
  lemma EntryReads(zip: seq<byte>, p: nat, e: Item, at: nat, number: nat)
    requires Fits(e) && CentralAt(zip, p, e, at) && LocalAt(zip, at, e)
    ensures EntryAt(zip, p, number) == Some((EntryOf(e, at, number), p + CentralSize(e)))
    ensures PartAt(zip, EntryOf(e, at, number).offset, e.data)
  {
    EntryIs(zip, p, number, e.name, at, |e.localName|, |e.localExtra|, |e.data|, e.attributes, |e.extra|, |e.comment|);
  }

  // The entry its fields make.
  lemma EntryIs(zip: seq<byte>, p: nat, number: nat, name: Name, at: nat, localName: nat, localExtra: nat,
                compLen: nat, a: Attributes, extra: nat, comment: nat)
    requires PartAt(zip, p + 46, name) && U32(zip, p) == 0x02014b50 && U16(zip, p + 28) == |name|
    requires |name| < 4096 && forall i :: 0 <= i < |name| ==> 0x20 <= name[i] <= 0x7e
    requires AttributesAt(zip, p) == a && Common(a) && U32(zip, p + 42) == at && U32(zip, p + 20) == compLen
    requires U16(zip, p + 30) == extra && U16(zip, p + 32) == comment
    requires at + 30 <= |zip| && U32(zip, at) == 0x04034b50
    requires U16(zip, at + 26) == localName && U16(zip, at + 28) == localExtra
    requires at + 30 + localName + localExtra + compLen <= |zip|
    ensures EntryAt(zip, p, number)
            == Some((ZipEntry(name, at + 30 + localName + localExtra, compLen, U32(zip, p + 24), a, number),
                     p + 46 + |name| + extra + comment))
  {
    CommonVersion(a);
    assert zip[p + 46..p + 46 + |name|] == name;
  }

  lemma CommonVersion(a: Attributes)
    requires Common(a)
    ensures a.versionMadeBy / 256 == 0 || a.versionMadeBy / 256 == 3
  {
  }

  // Every entry that is accepted is that of such a file.
  lemma EntryThat(zip: seq<byte>, p: nat, number: nat) returns (e: Item, at: nat)
    requires EntryAt(zip, p, number).Some?
    ensures Fits(e) && CentralAt(zip, p, e, at) && LocalAt(zip, at, e)
    ensures EntryAt(zip, p, number) == Some((EntryOf(e, at, number), p + CentralSize(e)))
  {
    var (z, _) := EntryAt(zip, p, number).value;
    at := U32(zip, p + 42);
    var unread := Unread([0, 0, 0, 0], [0, 0, 0, 0], seq(22, _ => 0));
    e := Item(z.name, zip[z.offset..z.offset + z.compLen], z.uncompLen, AttributesAt(zip, p), Zeros(U16(zip, p + 30)),
              Zeros(U16(zip, p + 32)), Zeros(U16(zip, at + 26)), Zeros(U16(zip, at + 28)), unread);
  }

  function Zeros(n: nat): (z: seq<byte>)
    ensures |z| == n
  {
    seq(n, _ => 0)
  }

  ghost predicate AllFit(es: seq<Item>)
  {
    forall i :: 0 <= i < |es| ==> Fits(es[i])
  }

  // Where file k starts, when the first starts at 0, and its directory entry, when the
  // directory starts at p.
  function FileStart(es: seq<Item>, k: nat): (at: nat)
    requires k <= |es|
  {
    if k == 0 then 0 else FileStart(es, k - 1) + LocalSize(es[k - 1])
  }

  function DirStart(es: seq<Item>, p: nat, k: nat): (at: nat)
    requires k <= |es|
  {
    if k == 0 then p else DirStart(es, p, k - 1) + CentralSize(es[k - 1])
  }

  // The first k files, one after the other, and the directory for them.
  function Locals(es: seq<Item>, k: nat): (b: seq<byte>)
    requires AllFit(es) && k <= |es|
  {
    if k == 0 then [] else Locals(es, k - 1) + Local(es[k - 1])
  }

  function Centrals(es: seq<Item>, k: nat): (b: seq<byte>)
    requires AllFit(es) && k <= |es|
  {
    if k == 0 then [] else Centrals(es, k - 1) + Central(es[k - 1], FileStart(es, k - 1))
  }

  // What the index has for the files.
  ghost predicate EntriesOf(es: seq<Item>, zs: seq<ZipEntry>)
  {
    |zs| == |es| && forall k {:trigger zs[k]} :: 0 <= k < |es| ==> zs[k] == EntryOf(es[k], FileStart(es, k), k)
  }

  lemma {:induction false} Entries(es: seq<Item>, n: nat) returns (zs: seq<ZipEntry>)
    requires n <= |es|
    ensures |zs| == n && forall k {:trigger zs[k]} :: 0 <= k < n ==> zs[k] == EntryOf(es[k], FileStart(es, k), k)
    decreases n
  {
    if n == 0 {
      return [];
    }
    zs := Entries(es, n - 1);
    zs := zs + [EntryOf(es[n - 1], FileStart(es, n - 1), n - 1)];
  }

  lemma {:induction false} Starts(es: seq<Item>, p: nat, n: nat) returns (ps: seq<nat>)
    requires n <= |es|
    ensures |ps| == n + 1 && forall k {:trigger ps[k]} :: 0 <= k <= n ==> ps[k] == DirStart(es, p, k)
    decreases n
  {
    if n == 0 {
      return [p];
    }
    ps := Starts(es, p, n - 1);
    ps := ps + [DirStart(es, p, n)];
  }

  // File k and its directory entry are where they should be.
  predicate FileThere(zip: seq<byte>, es: seq<Item>, k: nat)
    requires k < |es|
  {
    LocalAt(zip, FileStart(es, k), es[k])
  }

  predicate EntryThere(zip: seq<byte>, p: nat, es: seq<Item>, k: nat)
    requires k < |es|
  {
    CentralAt(zip, DirStart(es, p, k), es[k], FileStart(es, k))
  }

  lemma {:induction false} FilesThere(zip: seq<byte>, es: seq<Item>, n: nat)
    requires AllFit(es) && n <= |es| && PartAt(zip, 0, Locals(es, n))
    ensures |Locals(es, n)| == FileStart(es, n)
    ensures forall k :: 0 <= k < n ==> FileThere(zip, es, k)
    decreases n
  {
    if n > 0 {
      LastFile(zip, es, n - 1);
      FilesThere(zip, es, n - 1);
      LocalThere(zip, FileStart(es, n - 1), es[n - 1]);
    }
  }

  lemma LastFile(zip: seq<byte>, es: seq<Item>, n: nat)
    requires AllFit(es) && n < |es| && PartAt(zip, 0, Locals(es, n + 1))
    ensures PartAt(zip, 0, Locals(es, n)) && PartAt(zip, |Locals(es, n)|, Local(es[n]))
    ensures |Locals(es, n + 1)| == |Locals(es, n)| + |Local(es[n])|
  {
    TwoParts(zip, 0, Locals(es, n), Local(es[n]));
  }

  lemma {:induction false} EntriesThere(zip: seq<byte>, p: nat, es: seq<Item>, n: nat, k: nat)
    requires AllFit(es) && k < n <= |es| && PartAt(zip, p, Centrals(es, n)) && FileStart(es, k) < 0x1_0000_0000
    ensures EntryThere(zip, p, es, k)
    decreases n
  {
    if k == n - 1 {
      CentralsSize(es, p, k);
      LastEntry(zip, p, es, k);
    } else {
      FrontEntries(zip, p, es, n - 1);
      EntriesThere(zip, p, es, n - 1, k);
    }
  }

  lemma {:induction false} CentralsSize(es: seq<Item>, p: nat, n: nat)
    requires AllFit(es) && n <= |es|
    ensures p + |Centrals(es, n)| == DirStart(es, p, n)
  {
    if n > 0 {
      CentralsSize(es, p, n - 1);
    }
  }

  lemma FrontEntries(zip: seq<byte>, p: nat, es: seq<Item>, n: nat)
    requires AllFit(es) && n < |es| && PartAt(zip, p, Centrals(es, n + 1))
    ensures PartAt(zip, p, Centrals(es, n))
  {
    TwoParts(zip, p, Centrals(es, n), Central(es[n], FileStart(es, n)));
  }

  lemma LastEntry(zip: seq<byte>, p: nat, es: seq<Item>, n: nat)
    requires AllFit(es) && n < |es| && PartAt(zip, p, Centrals(es, n + 1)) && FileStart(es, n) < 0x1_0000_0000
    requires p + |Centrals(es, n)| == DirStart(es, p, n)
    ensures EntryThere(zip, p, es, n)
  {
    TwoParts(zip, p, Centrals(es, n), Central(es[n], FileStart(es, n)));
    CentralThere(zip, DirStart(es, p, n), es[n], FileStart(es, n));
  }

  // Entry j is read at its place.
  ghost predicate ReadsAt(zip: seq<byte>, ps: seq<nat>, zs: seq<ZipEntry>, j: nat)
    requires j < |zs| && |ps| == |zs| + 1
  {
    EntryAt(zip, ps[j], j) == Some((zs[j], ps[j + 1]))
  }

  // A directory is read entry by entry.
  lemma {:induction false} DirectoryReads(zip: seq<byte>, ps: seq<nat>, zs: seq<ZipEntry>, k: nat)
    requires k <= |zs| && |ps| == |zs| + 1 && forall j :: 0 <= j < |zs| ==> ReadsAt(zip, ps, zs, j)
    ensures Directory(zip, ps[k], k, |zs|) == Some(zs[k..])
    decreases |zs| - k
  {
    if k == |zs| {
      assert zs[k..] == [];
    } else {
      DirectoryReads(zip, ps, zs, k + 1);
      assert ReadsAt(zip, ps, zs, k);
      assert zs[k..] == [zs[k]] + zs[k + 1..];
    }
  }

  // The record at the end: how many entries, the size of the directory and where it is.
  function EndRecord(disks: seq<byte>, n: nat, total: nat, size: nat, at: nat, comment: seq<byte>): (b: seq<byte>)
    requires |disks| == 4
    ensures |b| == 22 + |comment|
  {
    ([0x50, 0x4b, 0x05, 0x06] + disks + Little(n, 2) + Little(total, 2))
    + (Little(size, 4) + Little(at, 4) + Little(|comment|, 2) + comment)
  }

  // The archive.
  function Written(es: seq<Item>, disks: seq<byte>, comment: seq<byte>): (zip: seq<byte>)
    requires AllFit(es) && |disks| == 4
  {
    var files, dir := Locals(es, |es|), Centrals(es, |es|);
    files + dir + EndRecord(disks, |es|, |es|, |dir|, |files|, comment)
  }

  // No mark of an end record behind p.
  ghost predicate NoMarkBehind(zip: seq<byte>, p: nat)
  {
    forall q {:trigger zip[q]} :: p < q && q + 4 <= |zip| ==> zip[q..q + 4] != [0x50, 0x4b, 0x05, 0x06]
  }

  lemma MarkIs(zip: seq<byte>, p: nat)
    requires p + 4 <= |zip|
    ensures U32(zip, p) == 0x06054b50 <==> zip[p..p + 4] == [0x50, 0x4b, 0x05, 0x06]
  {
    assert zip[p..p + 4] == [zip[p], zip[p + 1], zip[p + 2], zip[p + 3]];
  }

  // The scan for the record finds it.
  lemma EndFound(zip: seq<byte>, p: nat)
    requires p + 22 <= |zip| && PartAt(zip, p, [0x50, 0x4b, 0x05, 0x06]) && NoMarkBehind(zip, p)
    ensures LastMark(zip, |zip| - 22) == Some(p)
  {
    MarkIs(zip, p);
    var r := LastMark(zip, |zip| - 22);
    if r.Some? {
      MarkIs(zip, r.value);
    }
  }

  lemma EndFields(zip: seq<byte>, p: nat, disks: seq<byte>, n: nat, total: nat, size: nat, at: nat, comment: seq<byte>)
    requires |disks| == 4 && PartAt(zip, p, EndRecord(disks, n, total, size, at, comment))
    requires n < 0x1_0000 && at < 0x1_0000_0000
    ensures p + 22 <= |zip| && PartAt(zip, p, [0x50, 0x4b, 0x05, 0x06])
    ensures U16(zip, p + 8) == n && U32(zip, p + 16) == at
  {
    var mark := [0x50, 0x4b, 0x05, 0x06];
    TwoParts(zip, p, mark + disks + Little(n, 2) + Little(total, 2),
             Little(size, 4) + Little(at, 4) + Little(|comment|, 2) + comment);
    FourParts(zip, p, mark, disks, Little(n, 2), Little(total, 2));
    FourParts(zip, p + 12, Little(size, 4), Little(at, 4), Little(|comment|, 2), comment);
    Short(zip, p + 8, n);
    Long(zip, p + 16, at);
  }

  // An archive of one file or more is indexed as its files, and holds their data where the
  // index says.
  lemma ArchiveRoundTrip(es: seq<Item>, disks: seq<byte>, comment: seq<byte>, zip: seq<byte>)
    returns (zs: seq<ZipEntry>)
    requires es != [] && AllFit(es) && |es| < 0x1_0000 && |disks| == 4
    requires zip == Written(es, disks, comment) && |zip| < 0x1_0000_0000
    requires NoMarkBehind(zip, |Locals(es, |es|)| + |Centrals(es, |es|)|)
    ensures Archive(zip) == Some(zs) && EntriesOf(es, zs)
    ensures forall k :: 0 <= k < |es| ==> PartAt(zip, zs[k].offset, es[k].data)
  {
    var cd := |Locals(es, |es|)|;
    zs := Entries(es, |es|);
    var ps := Starts(es, cd, |es|);
    BodyThere(es, disks, comment, zip, cd);
    EndThere(es, disks, comment, zip, cd, cd + |Centrals(es, |es|)|);
    FilesRead(zip, cd, es, ps, zs);
    DirectoryReads(zip, ps, zs, 0);
    assert zs[0..] == zs && ps[0] == DirStart(es, cd, 0) == cd;
  }

  lemma FilesRead(zip: seq<byte>, p: nat, es: seq<Item>, ps: seq<nat>, zs: seq<ZipEntry>)
    requires AllFit(es) && forall k :: 0 <= k < |es| ==> FileThere(zip, es, k) && EntryThere(zip, p, es, k)
    requires EntriesOf(es, zs)
    requires |ps| == |es| + 1 && forall k {:trigger ps[k]} :: 0 <= k <= |es| ==> ps[k] == DirStart(es, p, k)
    ensures forall k :: 0 <= k < |es| ==> ReadsAt(zip, ps, zs, k)
    ensures forall k :: 0 <= k < |es| ==> PartAt(zip, zs[k].offset, es[k].data)
  {
    forall k | 0 <= k < |es|
      ensures ReadsAt(zip, ps, zs, k) && PartAt(zip, zs[k].offset, es[k].data)
    {
      assert FileThere(zip, es, k) && EntryThere(zip, p, es, k);
      FileRead(zip, ps, zs, es[k], FileStart(es, k), k);
    }
  }

  lemma FileRead(zip: seq<byte>, ps: seq<nat>, zs: seq<ZipEntry>, e: Item, at: nat, k: nat)
    requires k < |zs| && |ps| == |zs| + 1 && Fits(e) && CentralAt(zip, ps[k], e, at) && LocalAt(zip, at, e)
    requires ps[k + 1] == ps[k] + CentralSize(e) && zs[k] == EntryOf(e, at, k)
    ensures ReadsAt(zip, ps, zs, k) && PartAt(zip, zs[k].offset, e.data)
  {
    EntryReads(zip, ps[k], e, at, k);
  }

  lemma BodyThere(es: seq<Item>, disks: seq<byte>, comment: seq<byte>, zip: seq<byte>, cd: nat)
    requires es != [] && AllFit(es) && |disks| == 4 && cd == |Locals(es, |es|)|
    requires zip == Written(es, disks, comment) && |zip| < 0x1_0000_0000
    ensures 4 <= |zip| && U32(zip, 0) == 0x04034b50
    ensures forall k :: 0 <= k < |es| ==> FileThere(zip, es, k) && EntryThere(zip, cd, es, k)
  {
    var files, dir := Locals(es, |es|), Centrals(es, |es|);
    WholeParts(zip, files, dir, EndRecord(disks, |es|, |es|, |dir|, cd, comment));
    AllThere(zip, es, cd);
  }

  lemma EndThere(es: seq<Item>, disks: seq<byte>, comment: seq<byte>, zip: seq<byte>, cd: nat, p: nat)
    requires es != [] && AllFit(es) && |es| < 0x1_0000 && |disks| == 4
    requires cd == |Locals(es, |es|)| && p == cd + |Centrals(es, |es|)| && NoMarkBehind(zip, p)
    requires zip == Written(es, disks, comment) && 4 <= |zip| < 0x1_0000_0000 && U32(zip, 0) == 0x04034b50
    ensures Archive(zip) == Directory(zip, cd, 0, |es|)
  {
    var files, dir := Locals(es, |es|), Centrals(es, |es|);
    WholeParts(zip, files, dir, EndRecord(disks, |es|, |es|, |dir|, cd, comment));
    EndFields(zip, p, disks, |es|, |es|, |dir|, cd, comment);
    EndFound(zip, p);
    ArchiveIs(zip, p, |es|, cd);
  }

  lemma AllThere(zip: seq<byte>, es: seq<Item>, cd: nat)
    requires es != [] && AllFit(es) && |zip| < 0x1_0000_0000
    requires PartAt(zip, 0, Locals(es, |es|)) && PartAt(zip, cd, Centrals(es, |es|)) && cd == |Locals(es, |es|)|
    ensures 4 <= |zip| && U32(zip, 0) == 0x04034b50
    ensures forall k :: 0 <= k < |es| ==> FileThere(zip, es, k) && EntryThere(zip, cd, es, k)
  {
    FilesThere(zip, es, |es|);
    assert FileThere(zip, es, 0) && FileStart(es, 0) == 0;
    forall k | 0 <= k < |es|
      ensures EntryThere(zip, cd, es, k)
    {
      assert FileThere(zip, es, k);
      EntriesThere(zip, cd, es, |es|, k);
    }
  }

  // What the record that is found says decides.
  lemma ArchiveIs(zip: seq<byte>, p: nat, n: nat, cd: nat)
    requires p + 22 <= |zip| && LastMark(zip, |zip| - 22) == Some(p)
    requires U16(zip, p + 8) == n && U32(zip, p + 16) == cd
    ensures U32(zip, 0) != 0x04034b50 || n == 0 || |zip| <= cd ==> Archive(zip) == None
    ensures U32(zip, 0) == 0x04034b50 && n > 0 && cd < |zip| ==> Archive(zip) == Directory(zip, cd, 0, n)
  {
  }

  lemma WholeParts(zip: seq<byte>, a: seq<byte>, b: seq<byte>, c: seq<byte>)
    requires zip == a + b + c
    ensures PartAt(zip, 0, a) && PartAt(zip, |a|, b) && PartAt(zip, |a| + |b|, c)
  {
  }

  // Looking up a name among the entries gives the first file with that name.
  lemma {:induction false} FindsFile(es: seq<Item>, zs: seq<ZipEntry>, k: nat)
    requires EntriesOf(es, zs) && k < |es| && forall j :: 0 <= j < k ==> es[j].name != es[k].name
    ensures FirstNamed(zs, es[k].name) == Some(EntryOf(es[k], FileStart(es, k), k))
  {
    FirstAt(zs, k);
  }
}
