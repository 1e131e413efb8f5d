// A retouched binary from the other side: how its list of entries is written, and what
// retouching makes of a file written so (minelf/Retouch.c:43-205).
module RetouchList {
  import opened Bytes
  import opened Endian
  import opened Retouch

  // An entry as it is written: how many words behind the one before it is, and how much its
  // value is greater, in two or three bytes, or offset and value in full in eight.
  datatype Form =
    | Two(words: nat, growth: int)
    | Three(words: nat, growth: int)
    | Eight(offset: int, original: nat)
  {
    predicate Fits() {
      match this
      case Two(words, growth) => 1 <= words <= 4 && -0x1000 <= growth < 0x1000
      case Three(words, growth) => 1 <= words <= 4 && -0x8_0000 <= growth < 0x8_0000
      case Eight(offset, original) => -1 <= offset < 0x3fff_ffff && original < 0x1_0000_0000
    }

    function Written(): (b: seq<byte>)
      requires Fits()
      ensures 2 <= |b| <= 8
    {
      match this
      case Two(words, growth) =>
        var g := growth % 0x2000;
        [0x80 + 0x20 * (words - 1) + g / 0x100, g % 0x100]
      case Three(words, growth) =>
        var g := growth % 0x10_0000;
        [0x40 + 0x10 * (words - 1) + g / 0x1_0000, g / 0x100 % 0x100, g % 0x100]
      case Eight(offset, original) =>
        var o := if offset == -1 then 0x3fff_ffff else offset;
        [o / 0x100_0000, o / 0x1_0000 % 0x100, o / 0x100 % 0x100, o % 0x100,
         original / 0x100_0000, original / 0x1_0000 % 0x100, original / 0x100 % 0x100, original % 0x100]
    }

    // What it stands for behind the entry prev.
    function Means(prev: Entry): (e: Entry)
    {
      match this
      case Two(words, growth) => Entry(prev.offset + 4 * words, (prev.original + growth) % 0x1_0000_0000)
      case Three(words, growth) => Entry(prev.offset + 4 * words, (prev.original + growth) % 0x1_0000_0000)
      case Eight(offset, original) => Entry(offset, original)
    }
  }

  lemma TwoReads(f: Form, prev: Entry)
    requires f.Two? && f.Fits()
    ensures EntrySize(f.Written()[0]) == 2 == |f.Written()| && DecodeBytes(f.Written(), prev) == f.Means(prev)
  {
    var g := f.growth % 0x2000;
    var b := f.Written()[0];
    assert b % 0x20 == g / 0x100 && b / 0x20 % 4 == f.words - 1;
    assert (b % 0x20) as int * 0x100 + f.Written()[1] == g;
    assert Signed(g, 0x2000) == f.growth;
  }

  lemma ThreeReads(f: Form, prev: Entry)
    requires f.Three? && f.Fits()
    ensures EntrySize(f.Written()[0]) == 3 == |f.Written()| && DecodeBytes(f.Written(), prev) == f.Means(prev)
  {
    var g := f.growth % 0x10_0000;
    var w := f.Written();
    ThreeBits(f.words - 1, g / 0x1_0000, w[0]);
    ThreeDigits(g);
    assert ((w[0] % 0x10) as int * 0x100 + w[1]) * 0x100 + w[2] == g;
    assert Signed(g, 0x10_0000) == f.growth;
  }

  lemma ThreeBits(words: nat, high: nat, b: byte)
    requires words < 4 && high < 16 && b == 0x40 + 0x10 * words + high
    ensures b % 0x10 == high && b / 0x10 % 4 == words && EntrySize(b) == 3
  {
  }

  lemma ThreeDigits(g: nat)
    requires g < 0x10_0000
    ensures g / 0x1_0000 < 16 && (g / 0x1_0000 * 0x100 + g / 0x100 % 0x100) * 0x100 + g % 0x100 == g
  {
    assert g / 0x100 == g / 0x1_0000 * 0x100 + g / 0x100 % 0x100;
  }

  lemma FourDigits(v: nat)
    requires v < 0x1_0000_0000
    ensures BigEndian([v / 0x100_0000, v / 0x1_0000 % 0x100, v / 0x100 % 0x100, v % 0x100]) == v
  {
    assert v / 0x1_0000 == v / 0x100_0000 * 0x100 + v / 0x1_0000 % 0x100;
    assert v / 0x100 == v / 0x1_0000 * 0x100 + v / 0x100 % 0x100;
  }

  lemma EightReads(f: Form, prev: Entry)
    requires f.Eight? && f.Fits()
    ensures EntrySize(f.Written()[0]) == 8 == |f.Written()| && DecodeBytes(f.Written(), prev) == f.Means(prev)
  {
    var o, v, w := if f.offset == -1 then 0x3fff_ffff else f.offset, f.original, f.Written();
    FourDigits(o);
    FourDigits(v);
    assert w[..4] == [o / 0x100_0000, o / 0x1_0000 % 0x100, o / 0x100 % 0x100, o % 0x100];
    assert w[4..] == [v / 0x100_0000, v / 0x1_0000 % 0x100, v / 0x100 % 0x100, v % 0x100];
  }

  // Each form is decoded to what it means.
  lemma FormReads(f: Form, prev: Entry)
    requires f.Fits()
    ensures EntrySize(f.Written()[0]) == |f.Written()| && DecodeBytes(f.Written(), prev) == f.Means(prev)
  {
    match f
    case Two(_, _) => TwoReads(f, prev);
    case Three(_, _) => ThreeReads(f, prev);
    case Eight(_, _) => EightReads(f, prev);
  }

  ghost predicate AllFit(fs: seq<Form>)
  {
    forall i :: 0 <= i < |fs| ==> fs[i].Fits()
  }

  function WrittenAll(fs: seq<Form>): (b: seq<byte>)
    requires AllFit(fs)
  {
    if fs == [] then [] else fs[0].Written() + WrittenAll(fs[1..])
  }

  function MeansAll(fs: seq<Form>, prev: Entry): (es: seq<Entry>)
    ensures |es| == |fs|
  {
    if fs == [] then [] else [fs[0].Means(prev)] + MeansAll(fs[1..], fs[0].Means(prev))
  }

  lemma FirstForm(x: seq<byte>, l: Layout, p: nat, w: seq<byte>, rest: seq<byte>)
    requires p <= l.r <= |x| && x[p..l.r] == w + rest
    ensures p + |w| <= l.r && x[p..p + |w|] == w && x[p + |w|..l.r] == rest
  {
    assert x[p..p + |w|] == x[p..l.r][..|w|] == w;
    assert x[p + |w|..l.r] == x[p..l.r][|w|..] == rest;
  }

  // A list written from forms reads back as what they mean, and ends where it should.
  lemma {:induction false} ListReads(x: seq<byte>, l: Layout, p: nat, prev: Entry, fs: seq<Form>)
    requires AllFit(fs) && |x| == l.r + 20 && l.b <= p <= l.r && x[p..l.r] == WrittenAll(fs)
    requires forall k :: 0 <= k < |fs| ==> InRange(l, MeansAll(fs, prev)[k])
    ensures Entries(x, l, p, prev) == MeansAll(fs, prev) && Complete(x, l, p, prev)
    decreases |fs|
  {
    if fs != [] {
      var w, e, rest := fs[0].Written(), fs[0].Means(prev), fs[1..];
      FirstForm(x, l, p, w, WrittenAll(rest));
      FormReads(fs[0], prev);
      assert x[p] == x[p..p + |w|][0];
      assert MeansAll(fs, prev)[0] == e;
      assert forall k :: 0 <= k < |rest| ==> MeansAll(rest, e)[k] == MeansAll(fs, prev)[k + 1];
      ListReads(x, l, p + |w|, e, rest);
      EntriesFirst(x, l, p, prev, e, p + |w|);
    }
  }

  // The shortest form of e behind prev.
  function FormOf(e: Entry, prev: Entry): (f: Form)
    requires Writable(e)
  {
    var words, growth := (e.offset - prev.offset) / 4, Signed32(e.original - prev.original);
    if e.offset == prev.offset + 4 * words && 1 <= words <= 4 && -0x8_0000 <= growth < 0x8_0000 then
      if -0x1000 <= growth < 0x1000 then Two(words, growth) else Three(words, growth)
    else Eight(e.offset, e.original)
  }

  // What the full form has room for.
  predicate Writable(e: Entry)
  {
    -1 <= e.offset < 0x3fff_ffff && 0 <= e.original < 0x1_0000_0000
  }

  lemma FormMeans(e: Entry, prev: Entry)
    requires Writable(e)
    ensures FormOf(e, prev).Fits() && FormOf(e, prev).Means(prev) == e
  {
    SumModulo(prev.original, Signed32(e.original - prev.original), e.original - prev.original);
  }

  lemma SumModulo(p: int, s: int, m: int)
    requires s % TWO32 == m % TWO32
    ensures (p + s) % TWO32 == (p + m) % TWO32
  {
    var k := s / TWO32 - m / TWO32;
    assert p + s == p + m + k * TWO32;
    MoreModulo(p + m, k);
  }

  lemma MoreModulo(a: int, k: int)
    ensures (a + k * TWO32) % TWO32 == a % TWO32
  {
    var q := a / TWO32;
    assert a + k * TWO32 == (q + k) * TWO32 + a % TWO32;
  }

  // The forms of a list.
  function FormsOf(es: seq<Entry>, prev: Entry): (fs: seq<Form>)
    requires forall k :: 0 <= k < |es| ==> Writable(es[k])
  {
    if es == [] then [] else [FormOf(es[0], prev)] + FormsOf(es[1..], es[0])
  }

  lemma {:induction false} FormsMean(es: seq<Entry>, prev: Entry)
    requires forall k :: 0 <= k < |es| ==> Writable(es[k])
    ensures AllFit(FormsOf(es, prev)) && MeansAll(FormsOf(es, prev), prev) == es
  {
    if es != [] {
      FormMeans(es[0], prev);
      FormsMean(es[1..], es[0]);
      assert FormsOf(es, prev)[1..] == FormsOf(es[1..], es[0]);
    }
  }

  // Any list that can be written in full reads back from its shortest forms.
  lemma EntriesRoundTrip(x: seq<byte>, l: Layout, es: seq<Entry>)
    requires forall k :: 0 <= k < |es| ==> Writable(es[k]) && InRange(l, es[k])
    requires AllFit(FormsOf(es, Entry(0, 0)))
    requires |x| == l.r + 20 && 0 <= l.b <= l.r && x[l.b..l.r] == WrittenAll(FormsOf(es, Entry(0, 0)))
    ensures Entries(x, l, l.b, Entry(0, 0)) == es && Complete(x, l, l.b, Entry(0, 0))
  {
    FormsMean(es, Entry(0, 0));
    ListReads(x, l, l.b, Entry(0, 0), FormsOf(es, Entry(0, 0)));
  }

  // A binary of a body, the list of its relocated words, and the two records that end it:
  // "RETOUCH ", the size of the list, an address, and "PRE ".
  function Written(body: seq<byte>, list: seq<byte>, addr: seq<byte>): (x: seq<byte>)
  {
    body + list + [0x52, 0x45, 0x54, 0x4f, 0x55, 0x43, 0x48, 0x20] + Little(|list|, 4) + addr + [0x50, 0x52, 0x45, 0x20]
  }

  lemma WrittenParts(body: seq<byte>, list: seq<byte>, tag: seq<byte>, size: seq<byte>, addr: seq<byte>, pre: seq<byte>)
    requires |tag| == 8 && |size| == |addr| == |pre| == 4
    ensures var x, n := body + list + tag + size + addr + pre, |body| + |list|;
            && |x| == n + 20 && x[|body|..n] == list && x[n..n + 8] == tag && x[n + 8..n + 12] == size
            && x[n + 16..] == pre
  {
  }

  // It is recognised, and its list is found where it is.
  lemma WrittenFound(body: seq<byte>, list: seq<byte>, addr: seq<byte>, x: seq<byte>)
    requires |addr| == 4 && x == Written(body, list, addr) && |x| < TWO31
    ensures IsRetouched(x) && LayoutOf(x) == Layout(|body|, |body| + |list|) && x[|body|..|body| + |list|] == list
  {
    WrittenParts(body, list, [0x52, 0x45, 0x54, 0x4f, 0x55, 0x43, 0x48, 0x20], Little(|list|, 4), addr,
                 [0x50, 0x52, 0x45, 0x20]);
    Powers();
    LittleRoundTrip(|list|, 4);
  }

  // Where the word of an entry stands: offset -1 names the address between the two tags.
  function WordPlace(body: nat, list: nat, e: Entry): (i: int)
  {
    if e.offset == -1 then body + list + 12 else e.offset
  }

  // The words are in the body, but for the address, and clear of each other.
  ghost predicate Apart(body: nat, list: nat, es: seq<Entry>)
  {
    && (forall k :: 0 <= k < |es| ==> es[k].offset == -1 || 0 <= es[k].offset <= body - 4)
    && forall i, j :: 0 <= i < j < |es| ==>
         || WordPlace(body, list, es[i]) + 4 <= WordPlace(body, list, es[j])
         || WordPlace(body, list, es[j]) + 4 <= WordPlace(body, list, es[i])
  }

  // In y each word is its original value and d, and every other byte is as in x.
  ghost predicate Shifted(body: nat, list: nat, es: seq<Entry>, d: int, x: seq<byte>, y: seq<byte>)
  {
    && |y| == |x|
    && (forall k :: 0 <= k < |es| ==>
          FieldAt(y, WordPlace(body, list, es[k]), 4, (es[k].original + d) % 0x1_0000_0000))
    && forall i :: 0 <= i < |x| && Outside(body, list, es, i) ==> y[i] == x[i]
  }

  // Retouching such a binary to d makes each word its original value and d, and changes no
  // other byte.
  lemma WrittenRetouched(body: seq<byte>, es: seq<Entry>, addr: seq<byte>, x: seq<byte>, d: int, list: seq<byte>)
    requires forall k :: 0 <= k < |es| ==> Writable(es[k])
    requires AllFit(FormsOf(es, Entry(0, 0))) && list == WrittenAll(FormsOf(es, Entry(0, 0)))
    requires |addr| == 4 && x == Written(body, list, addr) && |x| < TWO31 && -TWO31 <= d < TWO31
    requires Apart(|body|, |list|, es)
    ensures var r := Retouch.Retouch(x, Some(d));
            r.code == MATCHED && r.offset == d && Shifted(|body|, |list|, es, d, x, r.bytes)
  {
    var l := Layout(|body|, |body| + |list|);
    WrittenListed(body, es, addr, x, list, l);
    ListedRetouched(x, l, |list|, es, d);
  }

  // It is recognised, and its list is read as it was written.
  lemma WrittenListed(body: seq<byte>, es: seq<Entry>, addr: seq<byte>, x: seq<byte>, list: seq<byte>, l: Layout)
    requires forall k :: 0 <= k < |es| ==> Writable(es[k])
    requires AllFit(FormsOf(es, Entry(0, 0))) && list == WrittenAll(FormsOf(es, Entry(0, 0)))
    requires |addr| == 4 && x == Written(body, list, addr) && |x| < TWO31
    requires Apart(|body|, |list|, es) && l == Layout(|body|, |body| + |list|)
    ensures IsRetouched(x) && LayoutOf(x) == l
    ensures Entries(x, l, l.b, Entry(0, 0)) == es && Complete(x, l, l.b, Entry(0, 0))
  {
    WrittenFound(body, list, addr, x);
    ApartIs(l, |list|, es);
    EntriesRoundTrip(x, l, es);
  }

  lemma ListedRetouched(x: seq<byte>, l: Layout, list: nat, es: seq<Entry>, d: int)
    requires IsRetouched(x) && LayoutOf(x) == l && 0 <= l.b && l.r == l.b + list && -TWO31 <= d < TWO31
    requires Entries(x, l, l.b, Entry(0, 0)) == es && Complete(x, l, l.b, Entry(0, 0)) && Apart(l.b, list, es)
    ensures var r := Retouch.Retouch(x, Some(d));
            r.code == MATCHED && r.offset == d && Shifted(l.b, list, es, d, x, r.bytes)
  {
    ApartIs(l, list, es);
    RetouchPuts(x, d);
    PutsShow(x, l, list, es, d);
    PutsKeep(x, l, list, es, d);
  }

  lemma ApartIs(l: Layout, list: nat, es: seq<Entry>)
    requires 0 <= l.b && l.r == l.b + list && Apart(l.b, list, es)
    ensures Clear(l, es) && Ranged(l, es) && Disjoint(l, es)
  {
  }

  lemma PutsShow(x: seq<byte>, l: Layout, list: nat, es: seq<Entry>, d: int)
    requires |x| == l.r + 20 && 0 <= l.b && l.r == l.b + list && Apart(l.b, list, es) && Ranged(l, es)
    requires -TWO31 <= d < TWO31
    ensures forall k :: 0 <= k < |es| ==>
              FieldAt(PutAll(x, l, es, d), WordPlace(l.b, list, es[k]), 4, (es[k].original + d) % 0x1_0000_0000)
  {
    ApartIs(l, list, es);
    forall k | 0 <= k < |es|
      ensures FieldAt(PutAll(x, l, es, d), WordPlace(l.b, list, es[k]), 4, (es[k].original + d) % 0x1_0000_0000)
    {
      PutAllShows(x, l, es, d, k);
      ShiftShows(PutAll(x, l, es, d), l, es[k], d);
    }
  }

  lemma PutsKeep(x: seq<byte>, l: Layout, list: nat, es: seq<Entry>, d: int)
    requires |x| == l.r + 20 && 0 <= l.b && l.r == l.b + list && Ranged(l, es)
    ensures forall i :: 0 <= i < |x| && Outside(l.b, list, es, i) ==> PutAll(x, l, es, d)[i] == x[i]
  {
    forall i | 0 <= i < |x| && Outside(l.b, list, es, i)
      ensures PutAll(x, l, es, d)[i] == x[i]
    {
      assert !Covered(l, es, i);
      PutAllKeeps(x, l, es, d, i);
    }
  }

  // Byte i is in none of the words.
  ghost predicate Outside(body: nat, list: nat, es: seq<Entry>, i: int)
  {
    forall k :: 0 <= k < |es| ==> i < WordPlace(body, list, es[k]) || WordPlace(body, list, es[k]) + 4 <= i
  }

  lemma ShiftShows(y: seq<byte>, l: Layout, e: Entry, d: int)
    requires |y| == l.r + 20 && 0 <= l.b <= l.r && InRange(l, e) && Shift(y, l, e) == d
    ensures FieldAt(y, Place(l, e), 4, (e.original + d) % TWO32)
  {
    var i := Place(l, e);
    var w := Word(y, i);
    SumModulo(e.original, d, w - e.original);
  }
}
