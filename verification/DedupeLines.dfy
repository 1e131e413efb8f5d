// Lines of a manifest put together from their fields, of version 1 and of version 2: which
// field means what, how long each may be, and what extracting and collecting make of the line
// (dedupe/dedupe.c:418-485, 541-579).
module DedupeLines {
  import opened Bytes
  import opened DedupeText
  import opened DedupeStore
  import opened Dedupe

  // The fields, each with its tab, and what follows them.
  function Joined(fs: seq<string>, end: string): (line: string)
  {
    if fs == [] then end else fs[0] + "\t" + Joined(fs[1..], end)
  }

  ghost predicate Tabless(fs: seq<string>)
  {
    forall i :: 0 <= i < |fs| ==> '\t' !in fs[i]
  }

  lemma {:induction false} JoinedFields(fs: seq<string>, end: string)
    requires Tabless(fs)
    ensures Fields(Joined(fs, end), |fs|) == Some((fs, end))
    decreases |fs|
  {
    if fs != [] {
      JoinedFields(fs[1..], end);
      FieldsFirst(fs[0], Joined(fs[1..], end), |fs|);
      assert [fs[0]] + fs[1..] == fs;
    }
  }

  lemma {:induction false} JoinedTwice(fs: seq<string>, gs: seq<string>, end: string)
    ensures Joined(fs + gs, end) == Joined(fs, Joined(gs, end))
    decreases |fs|
  {
    if fs == [] {
      assert fs + gs == gs;
    } else {
      JoinedTwice(fs[1..], gs, end);
      assert (fs + gs)[1..] == fs[1..] + gs;
    }
  }

  // The fields every line begins with.  The times are those of version 2.
  datatype Head = Head(kind: string, mode: string, uid: string, gid: string, times: seq<string>, name: string)
  {
    function Fields(): (fs: seq<string>)
    {
      [kind, mode, uid, gid] + times + [name]
    }

    predicate For(version: int)
    {
      |times| == if version < 2 then 0 else 3
    }

    // All of them fit their buffers.
    ghost predicate Short()
    {
      && |kind| < 4 && |mode| < 8 && |uid| < 32 && |gid| < 32 && |name| < 4096
      && forall i :: 0 <= i < |times| ==> |times[i]| < 32
    }

    // The entry for what.  A line of version 1 leaves the times alone.
    function Entry(what: What): (e: DedupeText.Entry)
      requires |times| == 0 || |times| == 3
    {
      DedupeText.Entry(what, AsOctal(Number(mode)), Number(uid), Number(gid),
                       if times == [] then (0, 0, 0) else (Number(times[0]), Number(times[1]), Number(times[2])), name)
    }
  }

  lemma HeadFits(version: int, h: Head)
    requires h.For(version)
    ensures |h.Fields()| == HeadFields(version)
    ensures Roomy(h.Fields(), HeadRooms(version)) <==> h.Short()
  {
    var fs, rooms := h.Fields(), HeadRooms(version);
    assert fs[0] == h.kind && fs[1] == h.mode && fs[2] == h.uid && fs[3] == h.gid && fs[|fs| - 1] == h.name;
    assert forall i :: 0 <= i < |h.times| ==> fs[4 + i] == h.times[i];
    if Roomy(fs, rooms) {
      assert |fs[0]| < rooms[0] && |fs[1]| < rooms[1] && |fs[2]| < rooms[2] && |fs[3]| < rooms[3];
      assert |fs[|fs| - 1]| < rooms[|fs| - 1];
      assert forall i {:trigger h.times[i]} :: 0 <= i < |h.times| ==> |fs[4 + i]| < rooms[4 + i];
    }
  }

  lemma HeadRead(version: int, h: Head, end: string)
    requires h.For(version) && Tabless(h.Fields())
    ensures Parse(version, Joined(h.Fields(), end))
            == if h.Short() then ParseEnd(version, h.Fields(), end) else Breaks
  {
    JoinedFields(h.Fields(), end);
    HeadFits(version, h);
  }

  // The line of a file, of whatever version: the head, the key and the size.
  lemma FileLine(version: int, h: Head, key: string, size: string, rest: string)
    requires h.For(version) && h.kind == "f" && Tabless(h.Fields()) && Tabless([key, size])
    ensures Parse(version, Joined(h.Fields() + [key, size], rest))
            == if h.Short() && |key| < 128 && |size| < 32 then Read(h.Entry(File(key, Number(size)))) else Breaks
  {
    JoinedTwice(h.Fields(), [key, size], rest);
    HeadRead(version, h, Joined([key, size], rest));
    FileEnd(version, h, key, size, rest);
  }

  lemma FileEnd(version: int, h: Head, key: string, size: string, rest: string)
    requires h.For(version) && h.kind == "f" && Tabless([key, size]) && |h.Fields()| == HeadFields(version)
    ensures ParseEnd(version, h.Fields(), Joined([key, size], rest))
            == if |key| < 128 && |size| < 32 then Read(h.Entry(File(key, Number(size)))) else Breaks
  {
    JoinedFields([key, size], rest);
    assert [key, size][0] == key && [key, size][1] == size;
  }

  lemma LinkLine(version: int, h: Head, to: string, rest: string)
    requires h.For(version) && h.kind == "l" && Tabless(h.Fields()) && Tabless([to])
    ensures Parse(version, Joined(h.Fields() + [to], rest))
            == if h.Short() && |to| < 41 then Read(h.Entry(Link(to))) else Breaks
  {
    JoinedTwice(h.Fields(), [to], rest);
    HeadRead(version, h, Joined([to], rest));
    JoinedFields([to], rest);
    assert [to][0] == to;
    HeadFits(version, h);
  }

  lemma DirLine(version: int, h: Head, rest: string)
    requires h.For(version) && h.kind == "d" && Tabless(h.Fields())
    ensures Parse(version, Joined(h.Fields(), rest)) == if h.Short() then Read(h.Entry(Dir)) else Breaks
  {
    HeadRead(version, h, rest);
    HeadFits(version, h);
  }

  // No other kinds are known.
  lemma OtherLine(version: int, h: Head, rest: string)
    requires h.For(version) && h.kind != "f" && h.kind != "l" && h.kind != "d" && Tabless(h.Fields())
    ensures Parse(version, Joined(h.Fields(), rest)) == if h.Short() then Unknown else Breaks
  {
    HeadRead(version, h, rest);
    HeadFits(version, h);
  }

  // Lines that end too early.
  lemma EarlyEnd(version: int, h: Head, fs: seq<string>, rest: string)
    requires h.For(version) && Tabless(h.Fields()) && Tabless(fs) && '\t' !in rest
    ensures |fs| < |h.Fields()| ==> Parse(version, Joined(fs, rest)) == Breaks
    ensures h.kind == "l" ==> Parse(version, Joined(h.Fields(), rest)) == Breaks
    ensures h.kind == "f" && |fs| < 2 ==> Parse(version, Joined(h.Fields(), Joined(fs, rest))) == Breaks
  {
    HeadFits(version, h);
    if |fs| < |h.Fields()| {
      NoMore(fs, rest, HeadFields(version));
    }
    HeadRead(version, h, rest);
    HeadRead(version, h, Joined(fs, rest));
    assert Joined([], rest) == rest;
    NoMore([], rest, 1);
    if |fs| < 2 {
      NoMore(fs, rest, 2);
    }
  }

  lemma {:induction false} NoToken(s: string)
    requires '\t' !in s
    ensures Token(s, '\t').None?
  {
    if s != [] {
      NoToken(s[1..]);
    }
  }

  lemma {:induction false} NoMore(fs: seq<string>, rest: string, n: nat)
    requires Tabless(fs) && '\t' !in rest && |fs| < n
    ensures Fields(Joined(fs, rest), n).None?
    decreases |fs|
  {
    if fs == [] {
      NoToken(rest);
    } else {
      NoMore(fs[1..], rest, n - 1);
      FieldsFirst(fs[0], Joined(fs[1..], rest), n);
    }
  }

  // What collecting makes of the line of a file: it uses the blob of the key.  It does not
  // look at the length of the name, which no line it reads can exceed.
  lemma FileUses(version: int, h: Head, key: string, size: string, rest: string)
    requires h.For(version) && h.kind == "f" && Tabless(h.Fields()) && Tabless([key, size]) && |h.name| < 4096
    ensures KeyOn(version, Joined(h.Fields() + [key, size], rest))
            == if h.Short() && |key| < 128 && |size| < 32 then Uses(key) else Sticks
  {
    var head := h.Fields()[..|h.Fields()| - 1];
    var line := Joined(h.Fields() + [key, size], rest);
    assert h.Fields() + [key, size] == head + ([h.name, key] + [size]);
    JoinedTwice(head, [h.name, key] + [size], rest);
    JoinedTwice([h.name, key], [size], rest);
    JoinedFields(head, Joined([h.name, key] + [size], rest));
    NoTabs(h, key, size);
    JoinedFields([h.name, key], Joined([size], rest));
    HeadFits(version, h);
    FrontFits(version, h);
    TokenIs(size, '\t', rest);
    assert [h.name, key][1] == key;
    assert Joined([size], rest) == size + ['\t'] + rest;
  }

  lemma NoTabs(h: Head, key: string, size: string)
    requires Tabless(h.Fields()) && Tabless([key, size])
    ensures Tabless([h.name, key]) && '\t' !in size
  {
    assert h.Fields()[|h.Fields()| - 1] == h.name && [key, size][0] == key && [key, size][1] == size;
  }

  lemma FrontFits(version: int, h: Head)
    requires h.For(version) && |h.name| < 4096
    ensures |h.Fields()| == HeadFields(version)
    ensures Roomy(h.Fields()[..|h.Fields()| - 1], HeadRooms(version)) <==> h.Short()
  {
    var fs, rooms := h.Fields(), HeadRooms(version);
    HeadFits(version, h);
    var front := fs[..|fs| - 1];
    assert forall i :: 0 <= i < |front| ==> front[i] == fs[i];
    assert fs[|fs| - 1] == h.name && rooms[|fs| - 1] == 4096;
  }

  // Links, directories and lines of other kinds do not concern it.
  lemma OtherPasses(version: int, h: Head, rest: string)
    requires h.For(version) && h.kind != "f" && Tabless(h.Fields()) && |h.name| < 4096
    ensures KeyOn(version, Joined(h.Fields(), rest)) == if h.Short() then Passes else Sticks
  {
    var head := h.Fields()[..|h.Fields()| - 1];
    assert h.Fields() == head + [h.name];
    JoinedTwice(head, [h.name], rest);
    JoinedFields(head, Joined([h.name], rest));
    HeadFits(version, h);
    FrontFits(version, h);
  }

  // White space, to scanf.
  predicate White(s: string)
  {
    forall i :: 0 <= i < |s| ==> s[i] == ' ' || 9 <= s[i] as int <= 13
  }

  // The first line: "dedupe", white space, a number that may have a sign, and whatever follows.
  lemma AnnouncedIs(space: string, sign: string, n: nat, rest: string)
    requires White(space) && (sign == "" || sign == "+" || sign == "-")
    requires rest != [] ==> !('0' <= rest[0] <= '9')
    ensures Announced("dedupe" + (space + (sign + (Digits(n, 10) + rest))))
            == Some(if sign == "-" then 0 - n else n as int)
  {
    var d := Digits(n, 10) + rest;
    DigitsRead(n, rest, d);
    SignRead(sign, d, n);
    SpaceSkipped(space, sign + d);
    AfterName(space + (sign + d));
  }

  lemma DigitsRead(n: nat, rest: string, d: string)
    requires (rest != [] ==> !('0' <= rest[0] <= '9')) && d == Digits(n, 10) + rest
    ensures d != [] && '0' <= d[0] <= '9' && Number(d) == n
  {
    NumberBack(n);
    DigitsStop(Digits(n, 10), rest);
    assert d[0] == Digits(n, 10)[0];
  }

  lemma SignRead(sign: string, d: string, n: nat)
    requires (sign == "" || sign == "+" || sign == "-") && d != [] && '0' <= d[0] <= '9' && Number(d) == n
    ensures Signed(sign + d) == Some(if sign == "-" then 0 - n else n as int)
    ensures (sign + d)[0] != ' ' && !(9 <= (sign + d)[0] as int <= 13)
  {
    if sign == "" {
      assert sign + d == d;
    } else {
      assert (sign + d)[1..] == d;
    }
  }

  // Any other line announces nothing.
  lemma NothingAnnounced(line: string, space: string, rest: string)
    requires !("dedupe" <= line)
             || (White(space) && line == "dedupe" + (space + rest)
                 && (rest == "" || (rest[0] != ' ' && !(9 <= rest[0] as int <= 13) && !('0' <= rest[0] <= '9')
                                    && (rest[0] == '+' || rest[0] == '-' ==>
                                          |rest| == 1 || !('0' <= rest[1] <= '9')))))
    ensures Announced(line) == None
  {
    if "dedupe" <= line {
      SpaceSkipped(space, rest);
      AfterName(space + rest);
    }
  }

  lemma AfterName(s: string)
    ensures "dedupe" <= "dedupe" + s && ("dedupe" + s)[6..] == s
  {
  }

  lemma {:induction false} SpaceSkipped(space: string, s: string)
    requires White(space) && (s != [] ==> s[0] != ' ' && !(9 <= s[0] as int <= 13))
    ensures SkipSpace(space + s) == s
  {
    if space == [] {
      assert space + s == s;
    } else {
      SpaceSkipped(space[1..], s);
      assert (space + s)[1..] == space[1..] + s;
    }
  }

  lemma {:induction false} DigitsStop(d: string, rest: string)
    requires Numeral(d) && (rest != [] ==> !('0' <= rest[0] <= '9'))
    ensures DigitsOf(d + rest) == DigitsOf(d) == d
    decreases |d|
  {
    if d == [] {
      assert d + rest == rest;
    } else {
      DigitsStop(d[1..], rest);
      assert (d + rest)[1..] == d[1..] + rest;
      assert d == [d[0]] + d[1..];
    }
  }

  // A line is read in pieces of 4095 characters, the last of which ends where the line does.
  lemma LongLine(q: string, rest: string)
    requires |q| == 4095 && '\n' !in q
    ensures ReadLines(q + rest) == [q] + ReadLines(rest)
  {
    NoEndIn(q, rest, 0);
    assert (q + rest)[..4095] == q && (q + rest)[4095..] == rest;
  }

  lemma {:induction false} NoEndIn(q: string, rest: string, k: nat)
    requires |q| == 4095 && '\n' !in q && k <= 4095
    ensures LineEnd(q + rest, k) == 4095
    decreases 4095 - k
  {
    if k < 4095 {
      assert (q + rest)[k] == q[k] && q[k] in q;
      NoEndIn(q, rest, k + 1);
    }
  }

  // The blob of a hash abcdefg goes to abc/defg.
  lemma KeyPlace(a: string, b: string)
    requires |a| == 3
    ensures KeyOf(a + b) == a + "/" + b
  {
    assert (a + b)[..3] == a && (a + b)[3..] == b;
  }
}
