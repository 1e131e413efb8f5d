// The manifest of dedupe (dedupe/dedupe.c:99-101, 160, 204-215, 237-264, 418-453): one line for
// each file, directory and link, with fields that end in tabs.
module DedupeText {
  import opened Bytes

  // The digits of n, most significant first.
  function Digits(n: nat, base: nat): (s: string)
    requires 2 <= base <= 10
    ensures s != [] && forall i :: 0 <= i < |s| ==> '0' <= s[i] <= '9'
    decreases n
  {
    var d := [('0' as int + n % base) as char];
    if n < base then d else Digits(n / base, base) + d
  }

  // atoi, on a string of digits.
  function Value(s: string): (n: nat)
    requires forall i :: 0 <= i < |s| ==> '0' <= s[i] <= '9'
    decreases |s|
  {
    if s == [] then 0 else 10 * Value(s[..|s| - 1]) + (s[|s| - 1] as int - '0' as int)
  }

  lemma ValueMore(s: string, d: nat)
    requires (forall i :: 0 <= i < |s| ==> '0' <= s[i] <= '9') && d < 10
    ensures var t := s + [('0' as int + d) as char];
            (forall i :: 0 <= i < |t| ==> '0' <= t[i] <= '9') && Value(t) == 10 * Value(s) + d
  {
    var t := s + [('0' as int + d) as char];
    assert t[..|t| - 1] == s;
  }

  lemma {:induction false} DecimalRoundTrip(n: nat)
    ensures Value(Digits(n, 10)) == n
    decreases n
  {
    if n < 10 {
      assert [] + [('0' as int + n % 10) as char] == Digits(n, 10);
      ValueMore([], n % 10);
    } else {
      DecimalRoundTrip(n / 10);
      ValueMore(Digits(n / 10, 10), n % 10);
    }
  }

  // dec_to_oct (dedupe.c:253-264): read the decimal digits of a number as octal ones.
  function AsOctal(dec: nat): (n: nat)
  {
    if dec == 0 then 0 else dec % 10 + 8 * AsOctal(dec / 10)
  }

  method DecToOct(dec0: nat) returns (ret: nat)
    ensures ret == AsOctal(dec0)
  {
    ret := 0;
    var mult: nat, dec: nat := 1, dec0;
    while dec != 0
      invariant ret + mult * AsOctal(dec) == AsOctal(dec0)
    {
      var rem := dec % 10;
      OctalStep(ret, mult, dec);
      ret := ret + rem * mult;
      dec := dec / 10;
      mult := mult * 8;
    }
  }

  lemma OctalStep(ret: nat, mult: nat, dec: nat)
    requires dec != 0
    ensures ret + dec % 10 * mult + mult * 8 * AsOctal(dec / 10) == ret + mult * AsOctal(dec)
  {
    var r, x, v := dec % 10, AsOctal(dec / 10), AsOctal(dec);
    assert v == r + 8 * x;
    Horner(mult, r, x, v);
  }

  lemma Horner(m: nat, r: nat, x: nat, v: nat)
    requires v == r + 8 * x
    ensures r * m + m * 8 * x == m * v
  {
  }

  lemma LastDigit(mode: nat)
    requires 8 <= mode
    ensures Value(Digits(mode, 8)) == 10 * Value(Digits(mode / 8, 8)) + mode % 8
  {
    ValueMore(Digits(mode / 8, 8), mode % 8);
  }

  // What is printed in octal and read back in decimal comes out right.
  lemma {:induction false} ModeRoundTrip(mode: nat)
    ensures AsOctal(Value(Digits(mode, 8))) == mode
    decreases mode
  {
    if mode < 8 {
      assert [] + [('0' as int + mode % 8) as char] == Digits(mode, 8);
      ValueMore([], mode % 8);
      LastOctal(mode, 0, mode % 8);
    } else {
      ModeRoundTrip(mode / 8);
      LastDigit(mode);
      LastOctal(Value(Digits(mode, 8)), Value(Digits(mode / 8, 8)), mode % 8);
    }
  }

  lemma LastOctal(v: nat, w: nat, d: nat)
    requires v == 10 * w + d && d < 8
    ensures AsOctal(v) == d + 8 * AsOctal(w)
  {
    assert v % 10 == d && v / 10 == w;
  }

  // What comes before the first separator, and what comes after it.
  function Token(line: string, sep: char): (r: Option<(string, string)>)
    ensures r.Some? ==> line == r.value.0 + [sep] + r.value.1 && sep !in r.value.0
  {
    if line == [] then None
    else if line[0] == sep then Some(([], line[1..]))
    else match Token(line[1..], sep)
      case None => None
      case Some((a, b)) => Some(([line[0]] + a, b))
  }

  lemma {:induction false} TokenIs(a: string, sep: char, b: string)
    requires sep !in a
    ensures Token(a + [sep] + b, sep) == Some((a, b))
  {
    var line := a + [sep] + b;
    if a == [] {
      assert line[0] == sep && line[1..] == b;
    } else {
      assert line[0] == a[0] && line[1..] == a[1..] + [sep] + b;
      TokenIs(a[1..], sep, b);
      assert a == [a[0]] + a[1..];
    }
  }

  // tokenize (dedupe.c:237-251); the end of the string gives NULL.
  method Tokenize(line: string, sep: char) returns (r: Option<(string, string)>)
    ensures r == Token(line, sep)
  {
    var i := 0;
    while i < |line| && line[i] != sep
      invariant 0 <= i <= |line| && sep !in line[..i]
    {
      i := i + 1;
    }
    if i == |line| {
      assert line[..i] == line;
      return None;
    }
    TokenIs(line[..i], sep, line[i + 1..]);
    assert line == line[..i] + [sep] + line[i + 1..];
    return Some((line[..i], line[i + 1..]));
  }

  datatype What = File(key: string, size: nat) | Dir | Link(to: string)

  datatype Entry = Entry(what: What, mode: nat, uid: nat, gid: nat, times: (nat, nat, nat), name: string)

  function KindOf(w: What): (s: string)
  {
    match w case File(_, _) => "f" case Dir => "d" case Link(_) => "l"
  }

  // The end of a line (dedupe.c:160, 213, 224).
  function TailOf(w: What): (s: string)
  {
    match w
    case File(key, size) => key + "\t" + (Digits(size, 10) + "\t" + "\n")
    case Dir => "\n"
    case Link(to) => to + "\t" + "\n"
  }

  // print_stat and what follows it.
  function Line(e: Entry): (s: string)
  {
    KindOf(e.what) + "\t" + (Digits(e.mode, 8) + "\t" + (Digits(e.uid, 10) + "\t" + (Digits(e.gid, 10) + "\t"
    + (Digits(e.times.0, 10) + "\t" + (Digits(e.times.1, 10) + "\t" + (Digits(e.times.2, 10) + "\t"
    + (e.name + "\t" + TailOf(e.what))))))))
  }

  // The first n fields of a line.
  function Fields(line: string, n: nat): (r: Option<(seq<string>, string)>)
    ensures r.Some? ==> |r.value.0| == n
    decreases n
  {
    if n == 0 then Some(([], line))
    else match Token(line, '\t')
      case None => None
      case Some((a, rest)) =>
        match Fields(rest, n - 1)
        case None => None
        case Some((fs, end)) => Some(([a] + fs, end))
  }

  // The fields of a line are those of its two parts.
  lemma {:induction false} FieldsSplit(line: string, a: nat, b: nat)
    ensures Fields(line, a + b) == match Fields(line, a)
                                   case None => None
                                   case Some((fs, rest)) => match Fields(rest, b)
                                                            case None => None
                                                            case Some((gs, end)) => Some((fs + gs, end))
    decreases a
  {
    if a == 0 {
      assert Fields(line, b).Some? ==> [] + Fields(line, b).value.0 == Fields(line, b).value.0;
    } else if Token(line, '\t').Some? {
      var (x, rest) := Token(line, '\t').value;
      FieldsSplit(rest, a - 1, b);
      if Fields(rest, a - 1 + b).Some? {
        var (fs, more) := Fields(rest, a - 1).value;
        assert [x] + (fs + Fields(more, b).value.0) == ([x] + fs) + Fields(more, b).value.0;
      }
    }
  }

  predicate Numeral(s: string)
  {
    forall i :: 0 <= i < |s| ==> '0' <= s[i] <= '9'
  }

  // atoi: the digits a string starts with.
  function Number(s: string): (n: nat)
  {
    Value(DigitsOf(s))
  }

  function DigitsOf(s: string): (d: string)
    ensures Numeral(d)
  {
    if s == [] || s[0] < '0' || '9' < s[0] then [] else [s[0]] + DigitsOf(s[1..])
  }

  lemma {:induction false} DigitsOfNumeral(s: string)
    requires Numeral(s)
    ensures DigitsOf(s) == s
  {
    if s != [] {
      DigitsOfNumeral(s[1..]);
      assert s == [s[0]] + s[1..];
    }
  }

  // Each field fits its buffer, with the NUL behind it.
  predicate Roomy(fs: seq<string>, rooms: seq<nat>)
  {
    |fs| <= |rooms| && forall i :: 0 <= i < |fs| ==> |fs[i]| < rooms[i]
  }

  // The buffers for type, mode, uid, gid, the three times, which lines of version 1 do not
  // have, and the name; those for the key and the size of a file; and that for the target of
  // a link (dedupe.c:421-428, 449-451, 468).
  function HeadRooms(version: int): (rooms: seq<nat>)
    ensures |rooms| == HeadFields(version)
  {
    if version >= 2 then [4, 8, 32, 32, 32, 32, 32, 4096] else [4, 8, 32, 32, 4096]
  }

  const FILE_ROOMS: seq<nat> := [128, 32]
  const LINK_ROOMS: seq<nat> := [41]

  function HeadFields(version: int): (n: nat)
  {
    if version >= 2 then 8 else 5
  }

  // What extracting makes of a line: an entry, a line of a type it does not know, or one on
  // which it reads through NULL, uses a field that does not end, or overruns a buffer.
  datatype Parsed = Read(e: Entry) | Unknown | Breaks

  // One line (dedupe.c:430-485).
  function Parse(version: int, line: string): (r: Parsed)
  {
    match Fields(line, HeadFields(version))
    case None => Breaks
    case Some((fs, end)) => if Roomy(fs, HeadRooms(version)) then ParseEnd(version, fs, end) else Breaks
  }

  function ParseEnd(version: int, fs: seq<string>, end: string): (r: Parsed)
    requires |fs| == HeadFields(version)
  {
    var mode, uid, gid, name := AsOctal(Number(fs[1])), Number(fs[2]), Number(fs[3]), fs[|fs| - 1];
    var times := if version >= 2 then (Number(fs[4]), Number(fs[5]), Number(fs[6])) else (0, 0, 0);
    if fs[0] == "f" then
      match Fields(end, 2)
      case None => Breaks
      case Some((gs, _)) =>
        if Roomy(gs, FILE_ROOMS) then Read(Entry(File(gs[0], Number(gs[1])), mode, uid, gid, times, name)) else Breaks
    else if fs[0] == "l" then
      match Fields(end, 1)
      case None => Breaks
      case Some((gs, _)) => if Roomy(gs, LINK_ROOMS) then Read(Entry(Link(gs[0]), mode, uid, gid, times, name))
                            else Breaks
    else if fs[0] == "d" then Read(Entry(Dir, mode, uid, gid, times, name))
    else Unknown
  }

  // What collecting makes of a line: it uses a blob, is of no interest, or breaks.
  datatype Seen = Uses(key: string) | Passes | Sticks

  // One line (dedupe.c:553-579).  Only the lines of files are read beyond the name, whose end
  // is not looked for in the others; the size is cut out and not used.
  function KeyOn(version: int, line: string): (k: Seen)
  {
    match Fields(line, HeadFields(version) - 1)
    case None => Sticks
    case Some((fs, rest)) =>
      if !Roomy(fs, HeadRooms(version)) then Sticks
      else if fs[0] != "f" then Passes
      else
        match Fields(rest, 2)
        case None => Sticks
        case Some((gs, more)) => if |gs[1]| < 128 && SizeFits(more) then Uses(gs[1]) else Sticks
  }

  predicate SizeFits(more: string)
  {
    match Token(more, '\t') case None => |more| <= 32 case Some((size, _)) => |size| < 32
  }

  // A field without separators.
  predicate Plain(s: string)
  {
    '\t' !in s && '\n' !in s
  }

  // An entry whose strings can be written down.
  predicate Plainly(e: Entry)
  {
    Plain(e.name) && PlainWhat(e.what)
  }

  predicate PlainWhat(w: What)
  {
    match w case File(key, _) => Plain(key) case Dir => true case Link(to) => Plain(to)
  }

  // Its fields fit the buffers they are read into.
  predicate Fitting(e: Entry)
  {
    Roomy(FieldList(e), HeadRooms(2)) && FittingWhat(e.what)
  }

  predicate FittingWhat(w: What)
  {
    match w
    case File(key, size) => Roomy([key, Digits(size, 10)], FILE_ROOMS)
    case Dir => true
    case Link(to) => Roomy([to], LINK_ROOMS)
  }

  predicate Writable(e: Entry)
  {
    Plainly(e) && Fitting(e)
  }

  lemma NumeralPlain(s: string)
    requires Numeral(s)
    ensures Plain(s)
  {
  }

  lemma FieldsFirst(a: string, rest: string, n: nat)
    requires '\t' !in a && n > 0
    ensures Fields(a + "\t" + rest, n) == match Fields(rest, n - 1)
                                          case None => None
                                          case Some((fs, end)) => Some(([a] + fs, end))
  {
    TokenIs(a, '\t', rest);
  }

  lemma EightFields(a: string, b: string, c: string, d: string, e: string, f: string, g: string, h: string,
                    rest: string)
    requires Plain(a) && Plain(b) && Plain(c) && Plain(d) && Plain(e) && Plain(f) && Plain(g) && Plain(h)
    ensures Fields(a + "\t" + (b + "\t" + (c + "\t" + (d + "\t"
                   + (e + "\t" + (f + "\t" + (g + "\t" + (h + "\t" + rest))))))), 8)
         == Some(([a, b, c, d, e, f, g, h], rest))
  {
    FourFields(e, f, g, h, rest);
    FourMore(a, b, c, d, e + "\t" + (f + "\t" + (g + "\t" + (h + "\t" + rest))), [e, f, g, h], rest);
    assert [a] + ([b] + ([c] + ([d] + [e, f, g, h]))) == [a, b, c, d, e, f, g, h];
  }

  lemma FourMore(a: string, b: string, c: string, d: string, more: string, fs: seq<string>, rest: string)
    requires Plain(a) && Plain(b) && Plain(c) && Plain(d) && Fields(more, 4) == Some((fs, rest))
    ensures Fields(a + "\t" + (b + "\t" + (c + "\t" + (d + "\t" + more))), 8)
            == Some(([a] + ([b] + ([c] + ([d] + fs))), rest))
  {
    FieldsFirst(d, more, 5);
    FieldsFirst(c, d + "\t" + more, 6);
    FieldsFirst(b, c + "\t" + (d + "\t" + more), 7);
    FieldsFirst(a, b + "\t" + (c + "\t" + (d + "\t" + more)), 8);
  }

  lemma FourFields(a: string, b: string, c: string, d: string, rest: string)
    requires Plain(a) && Plain(b) && Plain(c) && Plain(d)
    ensures Fields(a + "\t" + (b + "\t" + (c + "\t" + (d + "\t" + rest))), 4) == Some(([a, b, c, d], rest))
  {
    FieldsFirst(d, rest, 1);
    FieldsFirst(c, d + "\t" + rest, 2);
    FieldsFirst(b, c + "\t" + (d + "\t" + rest), 3);
    FieldsFirst(a, b + "\t" + (c + "\t" + (d + "\t" + rest)), 4);
    assert [a] + ([b] + ([c] + ([d] + []))) == [a, b, c, d];
  }

  function FieldList(e: Entry): (fs: seq<string>)
    ensures |fs| == 8
  {
    [KindOf(e.what), Digits(e.mode, 8), Digits(e.uid, 10), Digits(e.gid, 10),
     Digits(e.times.0, 10), Digits(e.times.1, 10), Digits(e.times.2, 10), e.name]
  }

  // A line, up to the newline at its end.
  predicate OneLine(l: string)
  {
    l != [] && l[|l| - 1] == '\n' && forall i :: 0 <= i < |l| - 1 ==> l[i] != '\n'
  }

  lemma FieldBefore(a: string, l: string)
    requires Plain(a) && OneLine(l)
    ensures OneLine(a + "\t" + l)
  {
    var r := a + "\t" + l;
    forall i | 0 <= i < |r| - 1
      ensures r[i] != '\n'
    {
      assert i < |a| ==> a[i] in a;
    }
  }

  // What is written for an entry is one line.
  lemma LineIsOne(e: Entry)
    requires Plainly(e)
    ensures OneLine(Line(e))
  {
    var t := TailOf(e.what);
    TailIsOne(e.what);
    FieldBefore(e.name, t);
    NumberBefore(e.times.2, 10, e.name + "\t" + t);
    NumberBefore(e.times.1, 10, Digits(e.times.2, 10) + "\t" + (e.name + "\t" + t));
    NumberBefore(e.times.0, 10, Digits(e.times.1, 10) + "\t" + (Digits(e.times.2, 10) + "\t" + (e.name + "\t" + t)));
    LineBegins(e, Digits(e.times.0, 10) + "\t" + (Digits(e.times.1, 10) + "\t" + (Digits(e.times.2, 10) + "\t"
                  + (e.name + "\t" + t))));
  }

  lemma LineBegins(e: Entry, l: string)
    requires OneLine(l)
    ensures OneLine(KindOf(e.what) + "\t" + (Digits(e.mode, 8) + "\t" + (Digits(e.uid, 10) + "\t"
                    + (Digits(e.gid, 10) + "\t" + l))))
  {
    NumberBefore(e.gid, 10, l);
    NumberBefore(e.uid, 10, Digits(e.gid, 10) + "\t" + l);
    NumberBefore(e.mode, 8, Digits(e.uid, 10) + "\t" + (Digits(e.gid, 10) + "\t" + l));
    FieldBefore(KindOf(e.what), Digits(e.mode, 8) + "\t" + (Digits(e.uid, 10) + "\t" + (Digits(e.gid, 10) + "\t" + l)));
  }

  lemma NumberBefore(n: nat, base: nat, l: string)
    requires 2 <= base <= 10 && OneLine(l)
    ensures OneLine(Digits(n, base) + "\t" + l)
  {
    NumeralPlain(Digits(n, base));
    FieldBefore(Digits(n, base), l);
  }

  lemma TailIsOne(w: What)
    requires PlainWhat(w)
    ensures OneLine(TailOf(w))
  {
    match w
    case File(key, size) =>
      NumberBefore(size, 10, "\n");
      FieldBefore(key, Digits(size, 10) + "\t" + "\n");
    case Link(to) => FieldBefore(to, "\n");
    case Dir =>
  }

  // The fields of a line as it was written.
  lemma LineFields(e: Entry)
    requires Plainly(e)
    ensures Fields(Line(e), 8) == Some((FieldList(e), TailOf(e.what)))
  {
    NumeralPlain(Digits(e.mode, 8));
    NumeralPlain(Digits(e.uid, 10));
    NumeralPlain(Digits(e.gid, 10));
    NumeralPlain(Digits(e.times.0, 10));
    NumeralPlain(Digits(e.times.1, 10));
    NumeralPlain(Digits(e.times.2, 10));
    EightFields(KindOf(e.what), Digits(e.mode, 8), Digits(e.uid, 10), Digits(e.gid, 10),
                Digits(e.times.0, 10), Digits(e.times.1, 10), Digits(e.times.2, 10), e.name, TailOf(e.what));
  }

  lemma TailFields(w: What)
    requires w.File? || w.Link?
    requires PlainWhat(w)
    ensures w.File? ==> Fields(TailOf(w), 2) == Some(([w.key, Digits(w.size, 10)], "\n"))
    ensures w.Link? ==> Fields(TailOf(w), 1) == Some(([w.to], "\n"))
  {
    match w
    case File(key, size) =>
      NumeralPlain(Digits(size, 10));
      FieldsFirst(Digits(size, 10), "\n", 1);
      FieldsFirst(key, Digits(size, 10) + "\t" + "\n", 2);
      assert [key] + ([Digits(size, 10)] + []) == [key, Digits(size, 10)];
    case Link(to) =>
      FieldsFirst(to, "\n", 1);
      assert [to] + [] == [to];
    case Dir =>
  }

  // The numbers of a line come out right.
  lemma NumberBack(n: nat)
    ensures Number(Digits(n, 10)) == n && AsOctal(Number(Digits(n, 8))) == n
  {
    DigitsOfNumeral(Digits(n, 10));
    DigitsOfNumeral(Digits(n, 8));
    DecimalRoundTrip(n);
    ModeRoundTrip(n);
  }

  // What ParseEnd makes of the eight fields and the end of a line.
  lemma EndReads(e: Entry)
    requires PlainWhat(e.what)
    ensures ParseEnd(2, FieldList(e), TailOf(e.what)) == if FittingWhat(e.what) then Read(e) else Breaks
  {
    NumbersBack(e);
    match e.what
    case File(_, size) =>
      NumberBack(size);
      TailFields(e.what);
    case Link(_) => TailFields(e.what);
    case Dir =>
  }

  lemma NumbersBack(e: Entry)
    ensures var fs := FieldList(e);
            && AsOctal(Number(fs[1])) == e.mode && Number(fs[2]) == e.uid && Number(fs[3]) == e.gid
            && (Number(fs[4]), Number(fs[5]), Number(fs[6])) == e.times
  {
    var fs := FieldList(e);
    assert fs[1] == Digits(e.mode, 8) && fs[2] == Digits(e.uid, 10) && fs[3] == Digits(e.gid, 10);
    assert fs[4] == Digits(e.times.0, 10) && fs[5] == Digits(e.times.1, 10) && fs[6] == Digits(e.times.2, 10);
    NumberBack(e.mode);
    NumberBack(e.uid);
    NumberBack(e.gid);
    NumberBack(e.times.0);
    NumberBack(e.times.1);
    NumberBack(e.times.2);
  }

  // A line is read back as it was written exactly if its fields fit the buffers.
  lemma LineRoundTrip(e: Entry)
    requires Plainly(e)
    ensures Parse(2, Line(e)) == if Fitting(e) then Read(e) else Breaks
  {
    LineFields(e);
    EndReads(e);
  }

  // A link to a name of 41 characters is written and cannot be read.
  lemma LongLinkBreaks()
    ensures Parse(2, Line(LongLink())) == Breaks
  {
    LineRoundTrip(LongLink());
    assert !FittingWhat(LongLink().what) by {
      assert [LongLink().what.to][0] == LongLink().what.to;
    }
  }

  function LongLink(): (e: Entry)
    ensures Plainly(e)
  {
    Entry(Link(seq(41, _ => 'x')), 0, 0, 0, (0, 0, 0), "l")
  }

  function Power(b: nat, k: nat): (p: nat)
  {
    if k == 0 then 1 else b * Power(b, k - 1)
  }

  lemma {:induction false} DigitsShort(n: nat, base: nat, k: nat)
    requires 2 <= base <= 10 && 1 <= k && n < Power(base, k)
    ensures |Digits(n, base)| <= k
    decreases k
  {
    if n >= base {
      assert k > 1 by {
        assert Power(base, 1) == base * Power(base, 0) == base;
      }
      Smaller(n, base, Power(base, k - 1));
      DigitsShort(n / base, base, k - 1);
    }
  }

  lemma Smaller(n: nat, base: nat, p: nat)
    requires 0 < base && n < base * p
    ensures n / base < p
  {
  }

  // The numbers of an entry are as wide as the fields of a struct stat, with the mode bits
  // print_stat selects.
  predicate Machine(e: Entry)
  {
    && e.mode <= 0xfff && e.uid < 0x8000_0000 && e.gid < 0x8000_0000
    && e.times.0 < 0x1_0000_0000_0000_0000 && e.times.1 < 0x1_0000_0000_0000_0000 && e.times.2 < 0x1_0000_0000_0000_0000
    && (e.what.File? ==> e.what.size < 0x8000_0000)
  }

  // Then only strings can be too long.
  lemma MachineFits(e: Entry)
    requires Machine(e)
    ensures Fitting(e) <==> |e.name| < 4096 && ShortWhat(e.what)
  {
    var fs := FieldList(e);
    assert Power(8, 4) == 0x1000 && Power(10, 5) == 100000 && Power(10, 10) == 10000000000;
    assert Power(10, 15) == 1000000000000000 && Power(10, 20) == 100000000000000000000;
    DigitsShort(e.mode, 8, 4);
    DigitsShort(e.uid, 10, 10);
    DigitsShort(e.gid, 10, 10);
    DigitsShort(e.times.0, 10, 20);
    DigitsShort(e.times.1, 10, 20);
    DigitsShort(e.times.2, 10, 20);
    assert Roomy(fs, HeadRooms(2)) <==> |fs[7]| < 4096;
    match e.what
    case File(key, size) =>
      DigitsShort(size, 10, 10);
      assert [key, Digits(size, 10)][0] == key;
    case Link(to) => assert [to][0] == to;
    case Dir =>
  }

  predicate ShortWhat(w: What)
  {
    match w case File(key, _) => |key| < 128 case Dir => true case Link(to) => |to| < 41
  }
}
