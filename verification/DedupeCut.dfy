// The manifest that a create leaves when it is cut off (dedupe/dedupe.c:352-384): a beginning
// of the text it would have written.  What a later collection makes of it
// (dedupe/dedupe.c:523-582).
module DedupeCut {
  import opened Bytes
  import opened FileSystem
  import opened DedupeText
  import opened DedupeStore
  import opened Dedupe
  import opened DedupeGc

  function Tabs(s: string): (n: nat)
  {
    if s == [] then 0 else (if s[0] == '\t' then 1 else 0) + Tabs(s[1..])
  }

  lemma {:induction false} TokenTabs(s: string)
    ensures Token(s, '\t').Some? <==> Tabs(s) > 0
    ensures Token(s, '\t').Some? ==> Tabs(Token(s, '\t').value.1) == Tabs(s) - 1
  {
    if s != [] && s[0] != '\t' {
      TokenTabs(s[1..]);
    }
  }

  // There are as many fields as tabs.
  lemma {:induction false} FieldsTabs(s: string, n: nat)
    ensures Fields(s, n).Some? <==> n <= Tabs(s)
    ensures Fields(s, n).Some? ==> Tabs(Fields(s, n).value.1) == Tabs(s) - n
    decreases n
  {
    if n > 0 {
      TokenTabs(s);
      if Token(s, '\t').Some? {
        FieldsTabs(Token(s, '\t').value.1, n - 1);
      }
    }
  }

  lemma {:induction false} TokenMore(s: string, tail: string)
    requires Token(s, '\t').Some?
    ensures Token(s + tail, '\t') == Some((Token(s, '\t').value.0, Token(s, '\t').value.1 + tail))
  {
    if s[0] == '\t' {
      assert (s + tail)[1..] == s[1..] + tail;
    } else {
      TokenMore(s[1..], tail);
      assert (s + tail)[1..] == s[1..] + tail;
    }
  }

  // What is cut off behind them leaves the fields as they were.
  lemma {:induction false} FieldsMore(s: string, tail: string, n: nat)
    requires Fields(s, n).Some?
    ensures Fields(s + tail, n) == Some((Fields(s, n).value.0, Fields(s, n).value.1 + tail))
    decreases n
  {
    if n > 0 {
      TokenMore(s, tail);
      FieldsMore(Token(s, '\t').value.1, tail, n - 1);
    }
  }

  lemma {:induction false} NoToken(s: string, tail: string)
    requires Token(s, '\t').None? && Token(s + tail, '\t').Some?
    ensures |s| <= |Token(s + tail, '\t').value.0|
  {
    if s != [] {
      assert (s + tail)[1..] == s[1..] + tail;
      NoToken(s[1..], tail);
    }
  }

  // What collecting makes of the beginning of an entry's line: it sticks where too few fields
  // are there, and else does with it what it does with the whole line.
  predicate TooShort(e: Entry, q: string)
  {
    Tabs(q) < if e.what.File? then 9 else 7
  }

  lemma CutLine(e: Entry, q: string, tail: string)
    requires Writable(e) && q + tail == Line(e)
    ensures KeyOn(2, q) == if TooShort(e, q) then Sticks else if e.what.File? then Uses(e.what.key) else Passes
  {
    FieldsTabs(q, 7);
    if Fields(q, 7).Some? {
      LineFields(e);
      FieldsMore(q, tail, 7);
      HeadWithout(2, Line(e), FieldList(e), TailOf(e.what));
      assert FieldList(e)[..7][0] == KindOf(e.what);
      var rest := Fields(q, 7).value.1;
      FieldsTabs(rest, 2);
      if e.what.File? && Fields(rest, 2).Some? {
        CutFile(e, rest, tail);
      }
    }
  }

  lemma CutFile(e: Entry, rest: string, tail: string)
    requires Writable(e) && e.what.File? && Fields(rest, 2).Some?
    requires Fields(rest + tail, 1).Some? && Fields(rest + tail, 1).value.1 == TailOf(e.what)
    ensures Fields(rest, 2).value.0[1] == e.what.key && |e.what.key| < 128 && SizeFits(Fields(rest, 2).value.1)
  {
    var size, more := Digits(e.what.size, 10), Fields(rest, 2).value.1;
    TailFields(e.what);
    FieldsMore(rest, tail, 2);
    FileFields(rest + tail, TailOf(e.what));
    var all := [e.what.key, size];
    assert Roomy(all, FILE_ROOMS) && |all[0]| < FILE_ROOMS[0] && |all[1]| < FILE_ROOMS[1];
    if Token(more, '\t').Some? {
      TokenMore(more, tail);
    } else {
      NoToken(more, tail);
    }
  }

  // Cut after m characters of its lines, a manifest ends in a line that makes collecting
  // stick.
  predicate Stuck(es: seq<Entry>, m: nat)
  {
    if es == [] || m == 0 then false
    else if m < |Line(es[0])| then TooShort(es[0], Line(es[0])[..m])
    else Stuck(es[1..], m - |Line(es[0])|)
  }

  // A line without its end.
  lemma {:induction false} NoLineEnd(q: string, k: nat)
    requires '\n' !in q && |q| < PATH_MAX && k <= |q|
    ensures LineEnd(q, k) == |q|
    decreases |q| - k
  {
    if k < |q| {
      assert q[k] in q;
      NoLineEnd(q, k + 1);
    }
  }

  lemma PartOfLine(q: string)
    requires '\n' !in q && |q| < PATH_MAX && q != []
    ensures ReadLines(q) == [q]
  {
    NoLineEnd(q, 0);
    assert q[..|q|] == q && q[|q|..] == [];
  }

  // Collecting reads the names of the first entries, or sticks.
  ghost predicate FirstNames(r: Option<seq<Path>>, es: seq<Entry>)
  {
    r.Some? ==> exists k :: 0 <= k <= |es| && r.value == KeysOf(es[..k])
  }

  lemma FirstNamesMore(r: Option<seq<Path>>, es: seq<Entry>)
    requires es != [] && FirstNames(r, es[1..])
    ensures var key := if es[0].what.File? then [es[0].what.key] else [];
            FirstNames(if r.None? then None else Some(key + r.value), es)
  {
    if r.Some? {
      var k :| 0 <= k <= |es| - 1 && r.value == KeysOf(es[1..][..k]);
      assert es[..k + 1][1..] == es[1..][..k] && es[..k + 1][0] == es[0];
      assert KeysOf(es[..k + 1]) == (if es[0].what.File? then [es[0].what.key] else []) + KeysOf(es[1..][..k]);
    }
  }

  lemma {:induction false} CutLines(es: seq<Entry>, m: nat)
    requires Recordable(es) && m <= |Lines(es)|
    ensures var r := NamesIn(2, ReadLines(Lines(es)[..m]));
            (r.None? <==> Stuck(es, m)) && FirstNames(r, es)
    decreases |es|
  {
    if es == [] || m == 0 {
      assert Lines(es)[..m] == [] && es[..0] == [];
    } else {
      var l, rest := Line(es[0]), Lines(es[1..]);
      LinesFirst(es);
      LineIsOne(es[0]);
      CutConcat(l, rest, m);
      if m < |l| {
        CutFirst(es, l[..m], l[m..]);
      } else {
        CutLines(es[1..], m - |l|);
        CutLater(es, l, rest[..m - |l|], m);
      }
    }
  }

  lemma LinesFirst(es: seq<Entry>)
    requires es != []
    ensures Lines(es) == Line(es[0]) + Lines(es[1..])
  {
    LinesBoth([es[0]], es[1..]);
    OneEntry(es[0]);
    assert es == [es[0]] + es[1..];
  }

  lemma CutConcat(l: string, rest: string, m: nat)
    requires m <= |l + rest|
    ensures (l + rest)[..m] == if m < |l| then l[..m] else l + rest[..m - |l|]
    ensures m < |l| ==> l[..m] + l[m..] == l
  {
  }

  lemma CutLater(es: seq<Entry>, l: string, more: string, m: nat)
    requires es != [] && Writable(es[0]) && l == Line(es[0]) && IsLine(l) && m == |l| + |more|
    requires FirstNames(NamesIn(2, ReadLines(more)), es[1..])
    requires NamesIn(2, ReadLines(more)).None? <==> Stuck(es[1..], |more|)
    ensures var r := NamesIn(2, ReadLines(l + more));
            (r.None? <==> Stuck(es, m)) && FirstNames(r, es)
  {
    FirstLine(l, more);
    NamesMore(l, ReadLines(more));
    assert l + [] == l;
    CutLine(es[0], l, []);
    WholeLine(es[0]);
    FirstNamesMore(NamesIn(2, ReadLines(more)), es);
  }

  lemma NamesMore(l: string, ls: seq<string>)
    ensures NamesIn(2, [l] + ls) == match KeyOn(2, l)
                                    case Sticks => None
                                    case Passes => NamesIn(2, ls)
                                    case Uses(key) =>
                                      if NamesIn(2, ls).None? then None else Some([key] + NamesIn(2, ls).value)
  {
    assert ([l] + ls)[1..] == ls;
  }

  lemma WholeLine(e: Entry)
    requires Writable(e)
    ensures !TooShort(e, Line(e))
  {
    LineFields(e);
    FieldsTabs(Line(e), 8);
    if e.what.File? {
      TailFields(e.what);
      FieldsTabs(TailOf(e.what), 2);
    }
  }

  lemma CutFirst(es: seq<Entry>, q: string, tail: string)
    requires es != [] && Writable(es[0]) && q + tail == Line(es[0]) && IsLine(q + tail) && q != [] && tail != []
    ensures var r := NamesIn(2, ReadLines(q));
            (r.None? <==> Stuck(es, |q|)) && FirstNames(r, es)
  {
    CutPlain(q, tail);
    PartOfLine(q);
    CutLine(es[0], q, tail);
    NamesMore(q, []);
    FirstKeys(es);
    assert [q] + [] == [q] && (q + tail)[..|q|] == q;
  }

  lemma CutPlain(q: string, tail: string)
    requires OneLine(q + tail) && tail != []
    ensures '\n' !in q
  {
    assert forall i :: 0 <= i < |q| ==> q[i] == (q + tail)[i];
  }

  lemma FirstKeys(es: seq<Entry>)
    requires es != []
    ensures KeysOf(es[..0]) == [] && KeysOf(es[..1]) == if es[0].what.File? then [es[0].what.key] else []
  {
    assert es[..1] == [es[0]];
  }

  // The header, cut.
  lemma CutHeader(n: nat)
    requires n < |HEADER|
    ensures var t := HEADER[..n];
            && ReadManifest(t).version == (if n == 8 then 2 else 1)
            && NamesOf(t) == if n == 0 || n == 8 then Some([]) else None
  {
    var t := HEADER[..n];
    if n == 8 {
      assert t == "dedupe\t2" == "dedupe\t" + ['2'] + "";
      OneDigit(t, '2', "");
      PartOfLine(t);
    } else if n > 0 {
      assert forall i :: 0 <= i < n ==> t[i] == HEADER[i];
      PartOfLine(t);
      assert Announced(t).None? by {
        if n >= 6 {
          assert t[6..] == if n == 6 then [] else "\t";
          assert SkipSpace([]) == [] && "\t"[1..] == [] && SkipSpace(t[6..]) == [];
        }
      }
      FewTabs(t);
      FieldsTabs(t, 4);
    }
  }

  lemma FewTabs(t: string)
    requires t <= "dedupe\t"
    ensures Tabs(t) <= 1
  {
    TabsUpTo(t, "dedupe\t"[|t|..]);
    assert t + "dedupe\t"[|t|..] == "dedupe\t";
    var s := "dedupe\t";
    assert s[1..] == "edupe\t" && s[1..][1..] == "dupe\t" && s[1..][1..][1..] == "upe\t";
    var u := "upe\t";
    assert u[1..] == "pe\t" && u[1..][1..] == "e\t" && u[1..][1..][1..] == "\t";
    assert Tabs("upe\t") == 1 && Tabs(s) == Tabs("upe\t");
  }

  lemma {:induction false} TabsUpTo(a: string, b: string)
    ensures Tabs(a) <= Tabs(a + b)
  {
    if a != [] {
      assert (a + b)[1..] == a[1..] + b;
      TabsUpTo(a[1..], b);
    }
  }

  // When collecting sticks on a manifest cut after n characters.
  predicate StuckAt(es: seq<Entry>, n: nat)
  {
    if n < 9 then n != 0 && n != 8 else Stuck(es, n - 9)
  }

  // A manifest that is cut off is never taken for a newer one; collecting sticks on it exactly
  // where the line it ends in is too short, and else reads the names of its first entries.
  lemma CutReads(es: seq<Entry>, n: nat)
    requires Recordable(es) && n <= |HEADER + Lines(es)|
    ensures var t := (HEADER + Lines(es))[..n];
            && ReadManifest(t).version <= DEDUPE_VERSION
            && (NamesOf(t).None? <==> StuckAt(es, n)) && FirstNames(NamesOf(t), es)
  {
    var t := (HEADER + Lines(es))[..n];
    CutConcat(HEADER, Lines(es), n);
    if n < |HEADER| {
      CutHeader(n);
      assert es[..0] == [];
    } else {
      BehindHeader(Lines(es)[..n - |HEADER|]);
      CutLines(es, n - |HEADER|);
    }
  }

  lemma BehindHeader(more: string)
    ensures ReadManifest(HEADER + more) == Manifest(2, ReadLines(more))
  {
    assert IsLine(HEADER);
    FirstLine(HEADER, more);
    HeaderAnnounces();
  }
}
