// retouch_mask_data (minelf/Retouch.c): randomize the relocated words of a binary, or take
// the randomization out again, following the delta-coded list at the end of the file.
module Retouch {
  import opened Bytes
  import opened Endian

  datatype Code = ERROR | MATCHED | MISMATCHED | NOTAPPLICABLE

  // A relocated word: where it is, and its value before randomization.  It is also the
  // state of the decoder, which codes each entry relative to the one before.
  datatype Entry = Entry(offset: int, original: int)

  // An n-bit two's complement number.
  function Signed(v: nat, n: nat): (s: int)
    requires v < n && n % 2 == 0
  {
    if v < n / 2 then v else v - n
  }

  function Signed32(v: int): (s: int)
    ensures -TWO31 <= s < TWO31 && s % TWO32 == v % TWO32
  {
    Signed(v % TWO32, TWO32)
  }

  // How many bytes the entry that starts with b takes (Retouch.c:86-92).
  function EntrySize(b: byte): (n: int)
    ensures n == 2 || n == 3 || n == 8
  {
    if b >= 0x80 then 2 else if b / 0x40 % 2 == 1 then 3 else 8
  }

  function BigEndian(b: seq<byte>): (v: nat)
    requires |b| == 4
    ensures v < TWO32
  {
    ((b[0] as int * 256 + b[1]) * 256 + b[2]) * 256 + b[3]
  }

  // decode_bytes (Retouch.c:47-79).
  function DecodeBytes(e: seq<byte>, prev: Entry): (r: Entry)
    requires e != [] && |e| == EntrySize(e[0])
    ensures 0 <= r.original < TWO32
  {
    if |e| == 2 then
      Entry(prev.offset + (e[0] / 32 % 4 + 1) * 4,
            (prev.original + Signed((e[0] % 32) as int * 256 + e[1], 0x2000)) % TWO32)
    else if |e| == 3 then
      Entry(prev.offset + (e[0] / 16 % 4 + 1) * 4,
            (prev.original + Signed(((e[0] % 16) as int * 256 + e[1]) * 256 + e[2], 0x10_0000)) % TWO32)
    else
      var offset := BigEndian(e[..4]);
      Entry(if offset == 0x3fff_ffff then -1 else offset, BigEndian(e[4..]))
  }

  // The entry at p.
  function EntryAt(x: seq<byte>, p: nat, prev: Entry): (e: Entry)
    requires p + 8 <= |x|
    ensures 0 <= e.original < TWO32
  {
    DecodeBytes(x[p..p + EntrySize(x[p])], prev)
  }

  // Where the list, its descriptor and the prelink record are: the list fills b..r, the
  // descriptor starts at r, the prelink record at r + 12, and the file ends at r + 20.
  datatype Layout = Layout(b: int, r: nat)

  // Offset -1 names the address in the prelink record.
  function Place(l: Layout, e: Entry): (i: int)
  {
    if e.offset == -1 then l.r + 12 else e.offset
  }

  predicate InRange(l: Layout, e: Entry)
  {
    -1 <= e.offset < l.b
  }

  // The file with the word at i replaced.
  function Put(x: seq<byte>, i: int, v: int): (y: seq<byte>)
    requires 0 <= i && i + 4 <= |x|
    ensures |y| == |x|
    ensures forall k :: 0 <= k < |x| ==> y[k] == if i <= k < i + 4 then Write4(v)[k - i] else x[k]
  {
    x[..i] + Write4(v) + x[i + 4..]
  }

  function Word(x: seq<byte>, i: int): (v: int)
    requires 0 <= i && i + 4 <= |x|
    ensures 0 <= v < TWO32
  {
    Powers();
    FromLittle(x[i..i + 4])
  }

  // What a call comes to: the file, the result code and the offset reported.
  datatype Retouched = Retouched(bytes: seq<byte>, code: Code, offset: int)

  // The file after an entry has been dealt with: its word is rewritten when an offset is
  // wanted.
  function Visit(x: seq<byte>, l: Layout, e: Entry, desired: Option<int>): (y: seq<byte>)
    requires |x| == l.r + 20 && l.b <= l.r && InRange(l, e)
    ensures |y| == |x|
  {
    if desired.Some? then Put(x, Place(l, e), e.original + desired.value) else x
  }

  // The shift the word of an entry shows.
  function Shift(x: seq<byte>, l: Layout, e: Entry): (d: int)
    requires |x| == l.r + 20 && l.b <= l.r && InRange(l, e)
    ensures -TWO31 <= d < TWO31
  {
    Signed32(Word(x, Place(l, e)) - e.original)
  }

  // The loop (Retouch.c:143-195) from position p on: seen is the shift of the first entry,
  // and mixed says that a later one differed.
  function Run(x: seq<byte>, l: Layout, p: nat, prev: Entry, desired: Option<int>, seen: Option<int>,
               mixed: bool): (r: Retouched)
    requires |x| == l.r + 20 && (l.b <= l.r || l.r <= p)
    ensures |r.bytes| == |x|
    decreases l.r - p
  {
    var wanted := if desired.Some? then desired.value else 0;
    if l.r <= p then
      if l.r < p then Retouched(x, ERROR, wanted)
      else if mixed then Retouched(x, MISMATCHED, wanted)
      else Retouched(x, MATCHED, if seen.Some? then seen.value else wanted)
    else
      var e := EntryAt(x, p, prev);
      if !InRange(l, e) then Retouched(x, ERROR, wanted)
      else
        var y := Visit(x, l, e, desired);
        var shift := Shift(y, l, e);
        Run(y, l, p + EntrySize(x[p]), e, desired, Some(if seen.Some? then seen.value else shift),
            mixed || (seen.Some? && seen.value != shift))
  }

  const PRE_TAG: seq<byte> := [80, 82, 69, 32] // "PRE "
  const RETOUCH_TAG: seq<byte> := [82, 69, 84, 79, 85, 67, 72, 32] // "RETOUCH "

  // The file ends in the two records that mark a retouched binary.
  predicate IsRetouched(x: seq<byte>)
  {
    var n := |x|;
    20 <= n && x[n - 4..] == PRE_TAG && x[n - 20..n - 12] == RETOUCH_TAG
  }

  // The start of the list is computed in 32-bit arithmetic (Retouch.c:135).
  function LayoutOf(x: seq<byte>): (l: Layout)
    requires IsRetouched(x)
    ensures l.r == |x| - 20
  {
    var r := |x| - 20;
    Layout(Signed32(r - Word(x, r + 8)), r)
  }

  // retouch_mask_data: with a wanted offset the file is retouched to it, without one the
  // offset it has is inferred.
  function Retouch(x: seq<byte>, desired: Option<int>): (r: Retouched)
    ensures |r.bytes| == |x|
  {
    var wanted := if desired.Some? then desired.value else 0;
    if !IsRetouched(x) then Retouched(x, if desired.None? then NOTAPPLICABLE else MATCHED, wanted)
    else
      var l := LayoutOf(x);
      if l.b < 0 then Retouched(x, ERROR, wanted) else Run(x, l, l.b, Entry(0, 0), desired, None, false)
  }

  // The entries of the list from p on, up to the first that is out of range.
  function Entries(x: seq<byte>, l: Layout, p: nat, prev: Entry): (es: seq<Entry>)
    requires |x| == l.r + 20 && (l.b <= l.r || l.r <= p)
    ensures Ranged(l, es)
    decreases l.r - p
  {
    if l.r <= p then []
    else
      var e := EntryAt(x, p, prev);
      if !InRange(l, e) then [] else [e] + Entries(x, l, p + EntrySize(x[p]), e)
  }

  // The list is well formed: every entry in range, and the last one ends where it should.
  predicate Complete(x: seq<byte>, l: Layout, p: nat, prev: Entry)
    requires |x| == l.r + 20 && (l.b <= l.r || l.r <= p)
    decreases l.r - p
  {
    if l.r <= p then l.r == p
    else
      var e := EntryAt(x, p, prev);
      InRange(l, e) && Complete(x, l, p + EntrySize(x[p]), e)
  }

  // The words of the entries keep clear of the list.
  ghost predicate Clear(l: Layout, es: seq<Entry>)
  {
    forall k :: 0 <= k < |es| ==> es[k].offset == -1 || 0 <= es[k].offset <= l.b - 4
  }

  predicate Ranged(l: Layout, es: seq<Entry>)
  {
    (es != [] ==> l.b <= l.r) && forall k :: 0 <= k < |es| ==> InRange(l, es[k])
  }

  // Rewrite the words of all entries, one after the other.
  function PutAll(x: seq<byte>, l: Layout, es: seq<Entry>, d: int): (y: seq<byte>)
    requires |x| == l.r + 20 && Ranged(l, es)
    ensures |y| == |x|
    decreases |es|
  {
    if es == [] then x else PutAll(Put(x, Place(l, es[0]), es[0].original + d), l, es[1..], d)
  }

  // The list and the marks are the same in both files.
  ghost predicate SameList(x: seq<byte>, y: seq<byte>, l: Layout)
  {
    && |x| == |y| == l.r + 20
    && forall k :: 0 <= k < |x| && (l.b <= k < l.r + 12 || l.r + 16 <= k) ==> x[k] == y[k]
  }

  lemma SameEntry(x: seq<byte>, y: seq<byte>, l: Layout, p: nat, prev: Entry)
    requires SameList(x, y, l) && l.b <= p < l.r
    ensures EntrySize(x[p]) == EntrySize(y[p]) && EntryAt(x, p, prev) == EntryAt(y, p, prev)
  {
    var n := EntrySize(x[p]);
    assert x[p..p + n] == y[p..p + n];
  }

  lemma {:induction false} SameEntries(x: seq<byte>, y: seq<byte>, l: Layout, p: nat, prev: Entry)
    requires SameList(x, y, l) && l.b <= p && (l.b <= l.r || l.r <= p)
    ensures Entries(x, l, p, prev) == Entries(y, l, p, prev) && Complete(x, l, p, prev) == Complete(y, l, p, prev)
    decreases l.r - p
  {
    if p < l.r {
      SameEntry(x, y, l, p, prev);
      var e := EntryAt(x, p, prev);
      if InRange(l, e) {
        SameEntries(x, y, l, p + EntrySize(x[p]), e);
      }
    }
  }

  lemma PutKeepsList(x: seq<byte>, l: Layout, e: Entry, v: int)
    requires |x| == l.r + 20 && 0 <= l.b <= l.r && (e.offset == -1 || 0 <= e.offset <= l.b - 4)
    ensures SameList(x, Put(x, Place(l, e), v), l)
  {
  }

  lemma RunOne(x: seq<byte>, l: Layout, p: nat, prev: Entry, desired: Option<int>, seen: Option<int>, mixed: bool,
               e: Entry, next: nat, y: seq<byte>, shift: int)
    requires |x| == l.r + 20 && l.b <= l.r && p < l.r
    requires e == EntryAt(x, p, prev) && InRange(l, e) && next == p + EntrySize(x[p])
    requires y == Visit(x, l, e, desired) && shift == Shift(y, l, e)
    ensures Run(x, l, p, prev, desired, seen, mixed)
         == Run(y, l, next, e, desired, Some(if seen.Some? then seen.value else shift),
                mixed || (seen.Some? && seen.value != shift))
  {
  }

  lemma RunFirst(x: seq<byte>, l: Layout, p: nat, prev: Entry, d: int, seen: Option<int>, e: Entry, next: nat,
                 y: seq<byte>)
    requires |x| == l.r + 20 && l.b <= p < l.r && l.b <= l.r && -TWO31 <= d < TWO31 && (seen.Some? ==> seen.value == d)
    requires e == EntryAt(x, p, prev) && InRange(l, e) && next == p + EntrySize(x[p])
    requires 0 <= l.b && y == Put(x, Place(l, e), e.original + d)
    ensures Run(x, l, p, prev, Some(d), seen, false) == Run(y, l, next, e, Some(d), Some(d), false)
  {
    ShiftOfPut(x, l, e, d);
    RunOne(x, l, p, prev, Some(d), seen, false, e, next, y, d);
  }

  lemma EntriesFirst(x: seq<byte>, l: Layout, p: nat, prev: Entry, e: Entry, next: nat)
    requires |x| == l.r + 20 && l.b <= p < l.r
    requires e == EntryAt(x, p, prev) && InRange(l, e) && next == p + EntrySize(x[p])
    ensures Entries(x, l, p, prev) == [e] + Entries(x, l, next, e) && Complete(x, l, p, prev) == Complete(x, l, next, e)
  {
  }

  lemma PutAllFirst(x: seq<byte>, l: Layout, e: Entry, es: seq<Entry>, d: int)
    requires |x| == l.r + 20 && Ranged(l, [e] + es) && Ranged(l, es) && InRange(l, e) && l.b <= l.r
    ensures PutAll(x, l, [e] + es, d) == PutAll(Put(x, Place(l, e), e.original + d), l, es, d)
  {
    assert ([e] + es)[0] == e && ([e] + es)[1..] == es;
  }

  // Retouching to d rewrites exactly the words of the entries, and never sees a mismatch.
  lemma {:induction false} RunPuts(x: seq<byte>, l: Layout, p: nat, prev: Entry, d: int, seen: Option<int>)
    requires |x| == l.r + 20 && 0 <= l.b <= p && (l.b <= l.r || l.r <= p) && -TWO31 <= d < TWO31
    requires Clear(l, Entries(x, l, p, prev)) && (seen.Some? ==> seen.value == d)
    ensures Run(x, l, p, prev, Some(d), seen, false)
         == Retouched(PutAll(x, l, Entries(x, l, p, prev), d), if Complete(x, l, p, prev) then MATCHED else ERROR, d)
    decreases l.r - p
  {
    if p < l.r && InRange(l, EntryAt(x, p, prev)) {
      var e, next := EntryAt(x, p, prev), p + EntrySize(x[p]);
      var y, es := Put(x, Place(l, e), e.original + d), Entries(x, l, next, e);
      EntriesFirst(x, l, p, prev, e, next);
      ClearRest(l, e, es);
      PutKeepsList(x, l, e, e.original + d);
      SameEntries(x, y, l, next, e);
      RunFirst(x, l, p, prev, d, seen, e, next, y);
      RunPuts(y, l, next, e, d, Some(d));
      PutAllFirst(x, l, e, es, d);
    }
  }

  lemma ClearRest(l: Layout, e: Entry, es: seq<Entry>)
    requires Clear(l, [e] + es)
    ensures Clear(l, es) && (e.offset == -1 || 0 <= e.offset <= l.b - 4)
  {
    assert ([e] + es)[0] == e;
    forall k | 0 <= k < |es|
      ensures es[k].offset == -1 || 0 <= es[k].offset <= l.b - 4
    {
      assert ([e] + es)[k + 1] == es[k];
    }
  }

  lemma WordOfPut(x: seq<byte>, i: int, v: int)
    requires 0 <= i && i + 4 <= |x|
    ensures Word(Put(x, i, v), i) == v % TWO32
  {
    Powers();
    LittleRoundTrip(v % TWO32, 4);
    assert Put(x, i, v)[i..i + 4] == Write4(v);
  }

  lemma ShiftOfPut(x: seq<byte>, l: Layout, e: Entry, d: int)
    requires |x| == l.r + 20 && 0 <= l.b <= l.r && InRange(l, e) && -TWO31 <= d < TWO31
    ensures Shift(Put(x, Place(l, e), e.original + d), l, e) == d
  {
    WordOfPut(x, Place(l, e), e.original + d);
  }

  // Byte i belongs to the word of an entry.
  ghost predicate Covered(l: Layout, es: seq<Entry>, i: int)
  {
    exists k {:trigger es[k]} :: 0 <= k < |es| && Place(l, es[k]) <= i < Place(l, es[k]) + 4
  }

  lemma CoveredFirst(l: Layout, es: seq<Entry>, i: int)
    requires es != []
    ensures Covered(l, es, i) <==> Place(l, es[0]) <= i < Place(l, es[0]) + 4 || Covered(l, es[1..], i)
  {
    if Covered(l, es[1..], i) {
      var k :| 0 <= k < |es[1..]| && Place(l, es[1..][k]) <= i < Place(l, es[1..][k]) + 4;
      assert es[1..][k] == es[k + 1];
    }
    if Covered(l, es, i) && !(Place(l, es[0]) <= i < Place(l, es[0]) + 4) {
      var k :| 0 <= k < |es| && Place(l, es[k]) <= i < Place(l, es[k]) + 4;
      assert es[1..][k - 1] == es[k];
    }
  }

  lemma {:induction false} PutAllKeeps(x: seq<byte>, l: Layout, es: seq<Entry>, d: int, i: int)
    requires |x| == l.r + 20 && Ranged(l, es) && 0 <= i < |x| && !Covered(l, es, i)
    ensures PutAll(x, l, es, d)[i] == x[i]
    decreases |es|
  {
    if es != [] {
      CoveredFirst(l, es, i);
      PutAllKeeps(Put(x, Place(l, es[0]), es[0].original + d), l, es[1..], d, i);
    }
  }

  // The result does not depend on what the words held before.
  lemma {:induction false} PutAllForgets(x: seq<byte>, y: seq<byte>, l: Layout, es: seq<Entry>, d: int)
    requires |x| == |y| == l.r + 20 && Ranged(l, es)
    requires forall i :: 0 <= i < |x| && !Covered(l, es, i) ==> x[i] == y[i]
    ensures PutAll(x, l, es, d) == PutAll(y, l, es, d)
    decreases |es|
  {
    if es == [] {
      forall i | 0 <= i < |x|
        ensures x[i] == y[i]
      {
        assert !Covered(l, es, i);
      }
    } else {
      var at, v := Place(l, es[0]), es[0].original + d;
      forall i | 0 <= i < |x| && !Covered(l, es[1..], i)
        ensures Put(x, at, v)[i] == Put(y, at, v)[i]
      {
        CoveredFirst(l, es, i);
      }
      PutAllForgets(Put(x, at, v), Put(y, at, v), l, es[1..], d);
    }
  }

  lemma PutAllTwice(x: seq<byte>, l: Layout, es: seq<Entry>, d: int, d': int)
    requires |x| == l.r + 20 && Ranged(l, es)
    ensures PutAll(PutAll(x, l, es, d), l, es, d') == PutAll(x, l, es, d')
  {
    var y := PutAll(x, l, es, d);
    forall i | 0 <= i < |x| && !Covered(l, es, i)
      ensures y[i] == x[i]
    {
      PutAllKeeps(x, l, es, d, i);
    }
    PutAllForgets(y, x, l, es, d');
  }

  lemma PutAllKeepsList(x: seq<byte>, l: Layout, es: seq<Entry>, d: int)
    requires |x| == l.r + 20 && 0 <= l.b && Ranged(l, es) && Clear(l, es)
    ensures SameList(x, PutAll(x, l, es, d), l)
  {
    var y := PutAll(x, l, es, d);
    forall i | 0 <= i < |x| && (l.b <= i < l.r + 12 || l.r + 16 <= i)
      ensures y[i] == x[i]
    {
      assert !Covered(l, es, i);
      PutAllKeeps(x, l, es, d, i);
    }
  }

  // The list of a file.
  function ListOf(x: seq<byte>): (es: seq<Entry>)
    requires IsRetouched(x) && 0 <= LayoutOf(x).b
  {
    Entries(x, LayoutOf(x), LayoutOf(x).b, Entry(0, 0))
  }

  // Nothing the list names is part of the list.
  ghost predicate Sparse(x: seq<byte>)
  {
    IsRetouched(x) && 0 <= LayoutOf(x).b ==> Clear(LayoutOf(x), ListOf(x))
  }

  lemma SameMarks(x: seq<byte>, y: seq<byte>)
    requires IsRetouched(x) && 0 <= LayoutOf(x).b <= LayoutOf(x).r && SameList(x, y, LayoutOf(x))
    ensures IsRetouched(y) && LayoutOf(y) == LayoutOf(x)
  {
    var n := |x|;
    assert y[n - 4..] == x[n - 4..] && y[n - 20..n - 12] == x[n - 20..n - 12];
    assert y[n - 12..n - 8] == x[n - 12..n - 8];
  }

  // What retouching a file does, in terms of its list.
  lemma RetouchPuts(x: seq<byte>, d: int)
    requires IsRetouched(x) && 0 <= LayoutOf(x).b && Sparse(x) && -TWO31 <= d < TWO31
    ensures var (l, r) := (LayoutOf(x), Retouch(x, Some(d)));
            && r.bytes == PutAll(x, l, ListOf(x), d) && r.offset == d
            && r.code == if Complete(x, l, l.b, Entry(0, 0)) then MATCHED else ERROR
  {
    var l := LayoutOf(x);
    RunPuts(x, l, l.b, Entry(0, 0), d, None);
  }

  // The file as it was read is the file as it will be read again.
  lemma RetouchKeepsList(x: seq<byte>, d: int)
    requires IsRetouched(x) && 0 <= LayoutOf(x).b && Sparse(x) && -TWO31 <= d < TWO31
    ensures var (l, y) := (LayoutOf(x), Retouch(x, Some(d)).bytes);
            && IsRetouched(y) && LayoutOf(y) == l && ListOf(y) == ListOf(x) && Sparse(y)
            && Complete(y, l, l.b, Entry(0, 0)) == Complete(x, l, l.b, Entry(0, 0))
  {
    var l, es := LayoutOf(x), ListOf(x);
    RetouchPuts(x, d);
    if l.b <= l.r {
      PutAllKeepsList(x, l, es, d);
      SameMarks(x, PutAll(x, l, es, d));
      SameEntries(x, PutAll(x, l, es, d), l, l.b, Entry(0, 0));
    }
  }

  // Retouching forgets any earlier retouching: the second offset is all that counts.  So
  // masking, which retouches to offset 0, undoes a retouching and is idempotent.
  lemma RetouchTwice(x: seq<byte>, d: int, d': int)
    requires Sparse(x) && -TWO31 <= d < TWO31 && -TWO31 <= d' < TWO31
    ensures Retouch(Retouch(x, Some(d)).bytes, Some(d')) == Retouch(x, Some(d'))
  {
    if IsRetouched(x) && 0 <= LayoutOf(x).b {
      var y := Retouch(x, Some(d)).bytes;
      RetouchPuts(x, d);
      RetouchPuts(x, d');
      RetouchKeepsList(x, d);
      RetouchPuts(y, d');
      PutAllTwice(x, LayoutOf(x), ListOf(x), d, d');
    }
  }

  // No two words overlap.
  ghost predicate Disjoint(l: Layout, es: seq<Entry>)
  {
    forall i, j :: 0 <= i < j < |es| ==>
      Place(l, es[i]) + 4 <= Place(l, es[j]) || Place(l, es[j]) + 4 <= Place(l, es[i])
  }

  // Each word shows the offset it was retouched to.
  lemma {:induction false} PutAllShows(x: seq<byte>, l: Layout, es: seq<Entry>, d: int, k: nat)
    requires |x| == l.r + 20 && 0 <= l.b && Ranged(l, es) && Disjoint(l, es) && -TWO31 <= d < TWO31 && k < |es|
    ensures Shift(PutAll(x, l, es, d), l, es[k]) == d
    decreases |es|
  {
    var e, rest := es[0], es[1..];
    var y := Put(x, Place(l, e), e.original + d);
    if k > 0 {
      assert Disjoint(l, rest) by {
        assert forall i {:trigger rest[i]} :: 0 <= i < |rest| ==> rest[i] == es[i + 1];
      }
      PutAllShows(y, l, rest, d, k - 1);
    } else {
      ShiftOfPut(x, l, e, d);
      var z, at := PutAll(y, l, rest, d), Place(l, e);
      forall i | at <= i < at + 4
        ensures z[i] == y[i]
      {
        assert forall j {:trigger rest[j]} :: 0 <= j < |rest| ==> rest[j] == es[j + 1];
        assert !Covered(l, rest, i);
        PutAllKeeps(y, l, rest, d, i);
      }
      assert z[at..at + 4] == y[at..at + 4];
    }
  }

  // A file whose words all show the same offset is inferred to have that offset.
  lemma {:induction false} RunInfers(x: seq<byte>, l: Layout, p: nat, prev: Entry, d: int, seen: Option<int>)
    requires |x| == l.r + 20 && 0 <= l.b <= p && (l.b <= l.r || l.r <= p) && Complete(x, l, p, prev)
    requires seen.Some? ==> seen.value == d
    requires forall k :: 0 <= k < |Entries(x, l, p, prev)| ==> Shift(x, l, Entries(x, l, p, prev)[k]) == d
    ensures Run(x, l, p, prev, None, seen, false)
         == Retouched(x, MATCHED, if seen.Some? || Entries(x, l, p, prev) != [] then d else 0)
    decreases l.r - p
  {
    if p < l.r {
      var e, next := EntryAt(x, p, prev), p + EntrySize(x[p]);
      var es := Entries(x, l, next, e);
      EntriesFirst(x, l, p, prev, e, next);
      assert ([e] + es)[0] == e;
      forall k | 0 <= k < |es|
        ensures Shift(x, l, es[k]) == d
      {
        assert ([e] + es)[k + 1] == es[k];
      }
      RunOne(x, l, p, prev, None, seen, false, e, next, x, d);
      RunInfers(x, l, next, e, d, Some(d));
    }
  }

  // A binary retouched to d is found to be retouched to d, if there is anything to see it
  // by.
  lemma RetouchInferred(x: seq<byte>, d: int)
    requires IsRetouched(x) && 0 <= LayoutOf(x).b && Sparse(x) && -TWO31 <= d < TWO31
    requires Complete(x, LayoutOf(x), LayoutOf(x).b, Entry(0, 0)) && Disjoint(LayoutOf(x), ListOf(x))
    ensures var y := Retouch(x, Some(d)).bytes;
            Retouch(y, None) == Retouched(y, MATCHED, if ListOf(x) == [] then 0 else d)
  {
    var y, l, es := Retouch(x, Some(d)).bytes, LayoutOf(x), ListOf(x);
    RetouchPuts(x, d);
    RetouchKeepsList(x, d);
    forall k | 0 <= k < |es|
      ensures Shift(y, l, es[k]) == d
    {
      PutAllShows(x, l, es, d, k);
    }
    RunInfers(y, l, l.b, Entry(0, 0), d, None);
  }

  // An entry that overlaps the list can rewrite the list: this one turns its own offset
  // from 0 into 256, and the second masking fails.
  lemma MaskTwiceFails()
    ensures exists x :: !Sparse(x) && Retouch(x, Some(0)).code == MATCHED
                        && Retouch(Retouch(x, Some(0)).bytes, Some(0)).code == ERROR
  {
    var x: seq<byte> := [0] + [0, 0, 0, 0, 1, 0, 0, 0] + RETOUCH_TAG + [8, 0, 0, 0] + [0, 0, 0, 0] + PRE_TAG;
    var y: seq<byte> := [0] + [0, 0, 1, 0, 1, 0, 0, 0] + RETOUCH_TAG + [8, 0, 0, 0] + [0, 0, 0, 0] + PRE_TAG;
    BadList(x);
    BadListMasked(x, y);
    BadListFails(y);
    NotSparse(x);
  }

  lemma NotSparse(x: seq<byte>)
    requires IsRetouched(x) && LayoutOf(x) == Layout(1, 9) && EntryAt(x, 1, Entry(0, 0)) == Entry(0, 0x100_0000)
    ensures !Sparse(x)
  {
    assert ListOf(x)[0] == Entry(0, 0x100_0000);
  }

  lemma BadWord()
    ensures Write4(0x100_0000) == [0, 0, 0, 1]
  {
    assert Little(1, 1) == [1];
    assert Little(0x100, 2) == [0] + [1];
    assert Little(0x1_0000, 3) == [0] + ([0] + [1]);
    assert Little(0x100_0000, 4) == [0] + ([0] + ([0] + [1]));
  }

  lemma BadPut(x: seq<byte>, y: seq<byte>)
    requires x == [0] + [0, 0, 0, 0, 1, 0, 0, 0] + RETOUCH_TAG + [8, 0, 0, 0] + [0, 0, 0, 0] + PRE_TAG
    requires y == [0] + [0, 0, 1, 0, 1, 0, 0, 0] + RETOUCH_TAG + [8, 0, 0, 0] + [0, 0, 0, 0] + PRE_TAG
    ensures Put(x, 0, 0x100_0000) == y
  {
    BadWord();
  }

  lemma BadListFails(y: seq<byte>)
    requires y == [0] + [0, 0, 1, 0, 1, 0, 0, 0] + RETOUCH_TAG + [8, 0, 0, 0] + [0, 0, 0, 0] + PRE_TAG
    ensures Retouch(y, Some(0)).code == ERROR
  {
    BadListRewritten(y);
  }

  lemma BadListMasked(x: seq<byte>, y: seq<byte>)
    requires x == [0] + [0, 0, 0, 0, 1, 0, 0, 0] + RETOUCH_TAG + [8, 0, 0, 0] + [0, 0, 0, 0] + PRE_TAG
    requires y == [0] + [0, 0, 1, 0, 1, 0, 0, 0] + RETOUCH_TAG + [8, 0, 0, 0] + [0, 0, 0, 0] + PRE_TAG
    ensures Retouch(x, Some(0)) == Retouched(y, MATCHED, 0)
  {
    var l, e := Layout(1, 9), Entry(0, 0x100_0000);
    BadList(x);
    BadPut(x, y);
    ShiftOfPut(x, l, e, 0);
    RunOne(x, l, 1, Entry(0, 0), Some(0), None, false, e, 9, y, 0);
  }

  lemma BadList(x: seq<byte>)
    requires x == [0] + [0, 0, 0, 0, 1, 0, 0, 0] + RETOUCH_TAG + [8, 0, 0, 0] + [0, 0, 0, 0] + PRE_TAG
    ensures IsRetouched(x) && LayoutOf(x) == Layout(1, 9) && x[1] == 0
    ensures EntryAt(x, 1, Entry(0, 0)) == Entry(0, 0x100_0000)
  {
    assert x[17..21] == [8, 0, 0, 0];
    assert FromLittle([8, 0, 0, 0]) == 8;
    assert x[1..9] == [0, 0, 0, 0, 1, 0, 0, 0];
  }

  lemma BadListRewritten(y: seq<byte>)
    requires y == [0] + [0, 0, 1, 0, 1, 0, 0, 0] + RETOUCH_TAG + [8, 0, 0, 0] + [0, 0, 0, 0] + PRE_TAG
    ensures IsRetouched(y) && LayoutOf(y) == Layout(1, 9) && y[1] == 0
    ensures EntryAt(y, 1, Entry(0, 0)) == Entry(256, 0x100_0000)
  {
    assert y[17..21] == [8, 0, 0, 0];
    assert FromLittle([8, 0, 0, 0]) == 8;
    assert y[1..9] == [0, 0, 1, 0, 1, 0, 0, 0];
  }

  // The decoder, with its state: the entry before.
  class Decoder {
    var offsPrev: int
    var contPrev: int

    // init_compression_state (Retouch.c:38-41).
    constructor ()
      ensures Prev() == Entry(0, 0)
    {
      offsPrev, contPrev := 0, 0;
    }

    function Prev(): Entry
      reads this
    {
      Entry(offsPrev, contPrev)
    }

    // decode_in_memory (Retouch.c:81-107).
    method DecodeInMemory(encoded: array<byte>, p: nat) returns (e: Entry, next: nat)
      requires p + 8 <= encoded.Length
      modifies this
      ensures e == EntryAt(encoded[..], p, old(Prev())) && next == p + EntrySize(encoded[p]) && Prev() == e
    {
      next := p;
      var input: seq<byte> := [encoded[next]];
      next := next + 1;
      var inputSize := EntrySize(input[0]);
      while |input| < inputSize
        invariant next == p + |input| <= p + inputSize && input == encoded[p..next]
      {
        input := input + [encoded[next]];
        next := next + 1;
      }
      assert input == encoded[..][p..p + inputSize];
      e := DecodeBytes(input, Prev());
      offsPrev, contPrev := e.offset, e.original;
    }
  }

  // Store a word.
  method PutWord(binary: array<byte>, i: int, v: int)
    requires 0 <= i && i + 4 <= binary.Length
    modifies binary
    ensures binary[..] == Put(old(binary[..]), i, v)
  {
    var w := Write4(v);
    binary[i], binary[i + 1], binary[i + 2], binary[i + 3] := w[0], w[1], w[2], w[3];
  }

  // One turn of the loop: decode an entry, rewrite its word, look at its offset.
  method VisitNext(binary: array<byte>, l: Layout, p: nat, decoder: Decoder, desired: Option<int>)
    returns (ok: bool, next: nat, shift: int)
    requires binary.Length == l.r + 20 && l.b <= l.r && p < l.r
    modifies binary, decoder
    ensures var x, prev := old(binary[..]), old(decoder.Prev());
            var e := EntryAt(x, p, prev);
            && ok == InRange(l, e) && next == p + EntrySize(x[p]) && decoder.Prev() == e
            && (if ok then binary[..] == Visit(x, l, e, desired) && shift == Shift(binary[..], l, e)
                else binary[..] == x)
  {
    var e;
    e, next := decoder.DecodeInMemory(binary, p);
    shift := 0;
    ok := -1 <= e.offset < l.b;
    if ok {
      if desired.Some? {
        PutWord(binary, Place(l, e), e.original + desired.value);
      }
      shift := Shift(binary[..], l, e);
    }
  }

  // The loop over the list (Retouch.c:143-195).
  method VisitAll(binary: array<byte>, l: Layout, desired: Option<int>) returns (code: Code, offset: int)
    requires binary.Length == l.r + 20 && 0 <= l.b
    modifies binary
    ensures Retouched(binary[..], code, offset) == Run(old(binary[..]), l, l.b, Entry(0, 0), desired, None, false)
  {
    ghost var whole := Run(binary[..], l, l.b, Entry(0, 0), desired, None, false);
    var wanted := if desired.Some? then desired.value else 0;
    var p: nat := l.b;
    var candidate, offsetSet, mismatch := wanted, false, false;
    var decoder := new Decoder();
    while p < l.r
      invariant l.b <= p && (!offsetSet ==> candidate == wanted)
      invariant whole == Run(binary[..], l, p, decoder.Prev(), desired,
                             if offsetSet then Some(candidate) else None, mismatch)
    {
      ghost var x, prev := binary[..], decoder.Prev();
      var ok, next, shift := VisitNext(binary, l, p, decoder, desired);
      if !ok {
        return ERROR, wanted;
      }
      RunOne(x, l, p, prev, desired, if offsetSet then Some(candidate) else None, mismatch, decoder.Prev(), next,
             binary[..], shift);
      if !offsetSet {
        candidate, offsetSet := shift, true;
      } else if candidate != shift {
        mismatch := true;
      }
      p := next;
    }
    if p > l.r {
      return ERROR, wanted;
    }
    if mismatch {
      return MISMATCHED, wanted;
    }
    return MATCHED, candidate;
  }

  // retouch_mask_data.
  method RetouchMaskData(binary: array<byte>, desired: Option<int>) returns (code: Code, offset: int)
    modifies binary
    ensures Retouched(binary[..], code, offset) == Retouch(old(binary[..]), desired)
  {
    var wanted := if desired.Some? then desired.value else 0;
    var x := binary[..];
    if !IsRetouched(x) {
      return if desired.None? then NOTAPPLICABLE else MATCHED, wanted;
    }
    var l := LayoutOf(x);
    if l.b < 0 {
      return ERROR, wanted;
    }
    code, offset := VisitAll(binary, l, desired);
  }
}
