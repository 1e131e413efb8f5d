// Integers as byte strings: the sign-and-magnitude form of bsdiff and the two's
// complement forms of imgdiff (applypatch/utils.c).
module Endian {
  import opened Bytes

  function Pow256(n: nat): (p: nat)
    ensures 1 <= p
  {
    if n == 0 then 1 else 256 * Pow256(n - 1)
  }

  // The n low bytes of y, least significant first.
  function Little(y: nat, n: nat): (b: seq<byte>)
    ensures |b| == n
  {
    if n == 0 then [] else [y % 256] + Little(y / 256, n - 1)
  }

  function FromLittle(b: seq<byte>): (y: nat)
    ensures y < Pow256(|b|)
  {
    if b == [] then 0 else b[0] + 256 * FromLittle(b[1..])
  }

  // The n bytes of f at p are the number v, least significant byte first.
  predicate FieldAt(f: seq<byte>, p: int, n: nat, v: nat)
  {
    0 <= p && p + n <= |f| && FromLittle(f[p..p + n]) == v
  }

  lemma {:induction false} LittleRoundTrip(y: nat, n: nat)
    requires y < Pow256(n)
    ensures FromLittle(Little(y, n)) == y
  {
    if n > 0 {
      LittleRoundTrip(y / 256, n - 1);
      assert Little(y, n)[1..] == Little(y / 256, n - 1);
    }
  }

  lemma {:induction false} LittleOfFrom(b: seq<byte>)
    ensures Little(FromLittle(b), |b|) == b
  {
    if b != [] {
      LittleOfFrom(b[1..]);
      LowByte(b[0], FromLittle(b[1..]));
      assert b == [b[0]] + b[1..];
    }
  }

  lemma LowByte(c: byte, r: nat)
    ensures (c as int + 256 * r) % 256 == c && (c as int + 256 * r) / 256 == r
  {
  }

  const TWO31: int := 0x8000_0000
  const TWO32: int := 0x1_0000_0000
  const TWO63: int := 0x8000_0000_0000_0000
  const TWO64: int := 0x1_0000_0000_0000_0000

  lemma Powers()
    ensures Pow256(4) == TWO32 && Pow256(8) == TWO64
  {
    assert Pow256(2) == 0x1_0000;
    assert Pow256(6) == 0x1_0000_0000_0000;
  }

  // offtout (bsdiff.c:195-211): eight bytes of magnitude, the sign in the top bit of the
  // last.  Setting that bit changes nothing when the magnitude already reaches it.
  function OfftOut(x: int): (b: seq<byte>)
    ensures |b| == 8
  {
    var m := Little(if x < 0 then -x else x, 8);
    if x < 0 && m[7] < 0x80 then m[7 := m[7] + 0x80] else m
  }

  // offtin (bspatch.c:66-82).
  function OfftIn(b: seq<byte>): (x: int)
    requires |b| == 8
    ensures -TWO63 < x < TWO63
  {
    Powers();
    var y: int := FromLittle(b[7 := b[7] % 0x80]);
    MagnitudeBound(b[7 := b[7] % 0x80]);
    if b[7] >= 0x80 then -y else y
  }

  lemma Distribute(a: int, p: int, c: int)
    ensures 256 * (a + p * c) == 256 * a + (256 * p) * c
  {
  }

  lemma {:induction false} FromLittleSplit(b: seq<byte>, n: nat)
    requires n <= |b|
    ensures FromLittle(b) == FromLittle(b[..n]) + Pow256(n) * FromLittle(b[n..])
    decreases n
  {
    if n > 0 {
      FromLittleSplit(b[1..], n - 1);
      assert b[1..][..n - 1] == b[..n][1..] && b[1..][n - 1..] == b[n..];
      Distribute(FromLittle(b[..n][1..]), Pow256(n - 1), FromLittle(b[n..]));
    } else {
      assert b[0..] == b;
    }
  }

  lemma TopByte(b: seq<byte>)
    requires |b| == 8
    ensures FromLittle(b) == FromLittle(b[..7]) + 0x100_0000_0000_0000 * (b[7] as int)
    ensures FromLittle(b[..7]) < 0x100_0000_0000_0000
  {
    FromLittleSplit(b, 7);
    assert b[7..] == [b[7]];
    assert Pow256(4) == 0x1_0000_0000 && Pow256(6) == 0x1_0000_0000_0000;
  }

  lemma MagnitudeBound(b: seq<byte>)
    requires |b| == 8 && b[7] < 0x80
    ensures FromLittle(b) < TWO63
  {
    TopByte(b);
  }

  // The sign-and-magnitude form holds every off_t but the least, whose magnitude does
  // not fit beside the sign.
  lemma OfftRoundTrip(x: int)
    requires -TWO63 <= x < TWO63
    ensures OfftIn(OfftOut(x)) == x <==> x != -TWO63
  {
    if x != -TWO63 {
      Powers();
      var y := if x < 0 then -x else x;
      LittleRoundTrip(y, 8);
      OfftBack(x, Little(y, 8), OfftOut(x));
    }
  }

  lemma OfftBack(x: int, m: seq<byte>, b: seq<byte>)
    requires |m| == 8 && FromLittle(m) == (if x < 0 then -x else x) < TWO63
    requires b == if x < 0 && m[7] < 0x80 then m[7 := m[7] + 0x80] else m
    ensures OfftIn(b) == x
  {
    TopByte(m);
    assert b[7 := b[7] % 0x80] == m;
  }

  // The bytes themselves: the magnitude, and 0x80 more in the last byte if x is negative.
  lemma OfftForm(x: int)
    requires -TWO63 < x < TWO63
    ensures 0 <= x ==> OfftOut(x) == Little(x, 8)
    ensures x < 0 ==> Little(-x, 8)[7] < 0x80 && OfftOut(x) == Little(-x, 8)[..7] + [Little(-x, 8)[7] + 0x80]
  {
    Powers();
    if x < 0 {
      var m := Little(-x, 8);
      LittleRoundTrip(-x, 8);
      TopByte(m);
      assert m[7 := m[7] + 0x80] == m[..7] + [m[7] + 0x80];
    }
  }

  // Write4 and Write8: the low bytes of the two's complement.
  function Write4(v: int): (b: seq<byte>)
    ensures |b| == 4
  {
    Little(v % TWO32, 4)
  }

  function Write8(v: int): (b: seq<byte>)
    ensures |b| == 8
  {
    Little(v % TWO64, 8)
  }

  // Read4 and Read8: an int and a long long.
  function Read4(b: seq<byte>): (v: int)
    requires |b| == 4
    ensures -TWO31 <= v < TWO31
  {
    Powers();
    var y := FromLittle(b);
    if y < TWO31 then y else y - TWO32
  }

  function Read8(b: seq<byte>): (v: int)
    requires |b| == 8
    ensures -TWO63 <= v < TWO63
  {
    Powers();
    var y := FromLittle(b);
    if y < TWO63 then y else y - TWO64
  }

  lemma Write4RoundTrip(v: int)
    ensures Read4(Write4(v)) == v <==> -TWO31 <= v < TWO31
  {
    Powers();
    LittleRoundTrip(v % TWO32, 4);
  }

  lemma Write8RoundTrip(v: int)
    ensures Read8(Write8(v)) == v <==> -TWO63 <= v < TWO63
  {
    Powers();
    LittleRoundTrip(v % TWO64, 8);
  }
}
