// Streaming MD5 (digest/md5.c:47-152): however a message is cut up into updates, the result
// is the block function folded over the message padded as in sections 3.1 to 3.4 of RFC
// 1321.
module Md5 {
  import opened Bytes
  import opened Endian

  type Words = seq<int>

  const INIT: Words := [0x67452301, 0xefcdab89, 0x98badcfe, 0x10325476]

  // Section 3.3 of RFC 1321 lists the words by their bytes.
  lemma InitBytes()
    ensures |INIT| == 4
    ensures INIT[0] == FromLittle([0x01, 0x23, 0x45, 0x67]) && INIT[1] == FromLittle([0x89, 0xab, 0xcd, 0xef])
    ensures INIT[2] == FromLittle([0xfe, 0xdc, 0xba, 0x98]) && INIT[3] == FromLittle([0x76, 0x54, 0x32, 0x10])
  {
    FourBytes(0x01, 0x23, 0x45, 0x67);
    FourBytes(0x89, 0xab, 0xcd, 0xef);
    FourBytes(0xfe, 0xdc, 0xba, 0x98);
    FourBytes(0x76, 0x54, 0x32, 0x10);
  }

  lemma FourBytes(a: byte, b: byte, c: byte, d: byte)
    ensures FromLittle([a, b, c, d]) == a as int + 256 * (b as int + 256 * (c as int + 256 * d as int))
  {
    assert [a, b, c, d][1..] == [b, c, d] && [b, c, d][1..] == [c, d] && [c, d][1..] == [d];
    assert FromLittle([d]) == d as int + 256 * FromLittle([d][1..]) == d as int;
    assert FromLittle([c, d]) == c as int + 256 * d as int;
    assert FromLittle([b, c, d]) == b as int + 256 * (c as int + 256 * d as int);
  }

  // The whole 64-byte blocks of m, one after the other.
  function Fold(f: (Words, seq<byte>) -> Words, s: Words, m: seq<byte>): (r: Words)
    decreases |m|
  {
    if |m| < 64 then s else Fold(f, f(s, m[..64]), m[64..])
  }

  // The message, a 1 bit, zeros to 56 modulo 64, and the length in bits as eight bytes.
  function Padding(len: nat): (p: seq<byte>)
  {
    var used := len % 64;
    [0x80] + seq(if used < 56 then 55 - used else 119 - used, _ => 0) + Little(8 * len % TWO64, 8)
  }

  // It makes whole blocks, and no more than it must.
  lemma PaddingFills(len: nat)
    ensures (len + |Padding(len)|) % 64 == 0 && 9 <= |Padding(len)| < 73
  {
    var q, used := len / 64, len % 64;
    assert len == 64 * q + used;
    assert len + |Padding(len)| == 64 * (q + if used < 56 then 1 else 2);
  }

  function Md5(f: (Words, seq<byte>) -> Words, m: seq<byte>): (r: Words)
  {
    Fold(f, INIT, m + Padding(|m|))
  }

  // More bytes, up to the end of the block they start in.
  lemma {:induction false} FoldMore(f: (Words, seq<byte>) -> Words, s: Words, m: seq<byte>, d: seq<byte>)
    requires |m| % 64 + |d| <= 64
    ensures |m| % 64 + |d| < 64 ==> Fold(f, s, m + d) == Fold(f, s, m)
    ensures |m| % 64 + |d| == 64 ==> Fold(f, s, m + d) == f(Fold(f, s, m), m[|m| - |m| % 64..] + d)
    decreases |m|
  {
    var n := m + d;
    if |m| < 64 {
      if |n| == 64 {
        assert n[..64] == m[0..] + d;
        assert m[|m| - |m| % 64..] == m[0..];
      }
    } else {
      var rest := m[64..];
      assert n[..64] == m[..64] && n[64..] == rest + d;
      assert |rest| % 64 == |m| % 64;
      FoldMore(f, f(s, m[..64]), rest, d);
      assert rest[|rest| - |rest| % 64..] == m[|m| - |m| % 64..];
    }
  }

  lemma ModIs(x: int, q: int, r: int)
    requires x == q * TWO64 + r && 0 <= r < TWO64
    ensures x % TWO64 == r
  {
  }

  // The low word and its carry.
  lemma LowWord(t: nat, len: nat) returns (c: nat)
    requires t < TWO32 && len < TWO32
    ensures var t' := (t + len * 8 % TWO32) % TWO32;
            c == (if t' < t then 1 else 0) && t + 8 * len == t' + (c + len / 0x2000_0000) * TWO32
  {
    var low := len * 8 % TWO32;
    assert len * 8 == low + len / 0x2000_0000 * TWO32;
    c := if t + low < TWO32 then 0 else 1;
    assert (t + low) % TWO32 == t + low - c * TWO32;
  }

  // The high word wraps around.
  lemma HighWord(b: nat, c: nat, h: nat) returns (k: nat)
    requires b < TWO32 && c <= 1 && h < 8
    ensures var b' := ((if c == 1 then (b + 1) % TWO32 else b) + h) % TWO32;
            b + c + h == b' + k * TWO32
  {
    k := (b + c + h) / TWO32;
  }

  // The two words count bits modulo 2^64.
  lemma CarryRight(t: nat, b: nat, len: nat, n: nat)
    requires t < TWO32 && b < TWO32 && len < TWO32 && t + b * TWO32 == 8 * n % TWO64
    ensures var t' := (t + len * 8 % TWO32) % TWO32;
            var b' := ((if t' < t then (b + 1) % TWO32 else b) + len / 0x2000_0000) % TWO32;
            t' + b' * TWO32 == 8 * (n + len) % TWO64
  {
    var q := 8 * n / TWO64;
    var h := len / 0x2000_0000;
    var t' := (t + len * 8 % TWO32) % TWO32;
    var c := LowWord(t, len);
    var k := HighWord(b, c, h);
    var b' := ((if c == 1 then (b + 1) % TWO32 else b) + h) % TWO32;
    assert 8 * (n + len) == q * TWO64 + t + b * TWO32 + 8 * len == (q + k) * TWO64 + (t' + b' * TWO32);
    ModIs(8 * (n + len), q + k, t' + b' * TWO32);
  }

  lemma UsedBits(t: nat, b: nat, n: nat)
    requires t < TWO32 && t + b * TWO32 == 8 * n % TWO64
    ensures t / 8 % 64 == n % 64
  {
    var q := 8 * n / TWO64;
    var x := n - q * 0x2000_0000_0000_0000 - b * 0x2000_0000;
    assert t == 8 * x;
    assert n == x + 64 * (q * 0x80_0000_0000_0000 + b * 0x80_0000);
    SameModulo(n, x, q * 0x80_0000_0000_0000 + b * 0x80_0000);
  }

  lemma SameModulo(n: int, x: int, k: int)
    requires n == x + 64 * k
    ensures n % 64 == x % 64
  {
  }

  lemma WholeBlock(n: nat, k: nat)
    requires n % 64 + k == 64
    ensures (n + k) % 64 == 0
  {
  }

  lemma ThreeParts(m: seq<byte>, data: seq<byte>, a: nat, b: nat)
    requires a <= b <= |data|
    ensures m + data[..a] + data[a..b] + data[b..] == m + data
  {
  }

  class MD5Context {
    const transform: (Words, seq<byte>) -> Words
    var buf: Words
    var bits0: nat
    var bits1: nat
    const inp: array<byte>
    ghost var message: seq<byte> // everything so far

    // MD5Init (md5.c:47-56).
    constructor (transform: (Words, seq<byte>) -> Words)
      ensures Valid() && message == [] && fresh(inp) && this.transform == transform
    {
      this.transform := transform;
      buf, bits0, bits1 := INIT, 0, 0;
      inp := new byte[64];
      message := [];
    }

    // The buffer and the state are right for the message; the count is looked at apart.
    ghost predicate Held()
      reads this, inp
    {
      && inp.Length == 64 && buf == Fold(transform, INIT, message)
      && inp[..|message| % 64] == message[|message| - |message| % 64..]
    }

    ghost predicate Counted(len: nat)
      reads this
    {
      bits0 < TWO32 && bits1 < TWO32 && bits0 + bits1 * TWO32 == 8 * len % TWO64
    }

    ghost predicate Valid()
      reads this, inp
    {
      Held() && Counted(|message|)
    }

    // The update of the bit count, with its carry (md5.c:66-71).
    method CountBits(len: nat)
      requires len < TWO32 && Counted(|message|)
      modifies this`bits0, this`bits1
      ensures Counted(|message| + len)
    {
      CarryRight(bits0, bits1, len, |message|);
      var t := bits0;
      bits0 := (t + len * 8 % TWO32) % TWO32;
      if bits0 < t {
        bits1 := (bits1 + 1) % TWO32;
      }
      bits1 := (bits1 + len / 0x2000_0000) % TWO32;
    }

    // Copy bytes into the block buffer.
    method Copy(at: nat, d: seq<byte>)
      requires inp.Length == 64 && at + |d| <= 64
      modifies inp
      ensures inp[..] == old(inp[..at]) + d + old(inp[at + |d|..])
    {
      ghost var was := inp[..];
      var i := 0;
      while i < |d|
        invariant 0 <= i <= |d| && inp[..] == was[..at] + d[..i] + was[at + i..]
      {
        CopyOne(was, d, at, i);
        inp[at + i] := d[i];
        i := i + 1;
      }
      assert d[..i] == d;
    }

    // Take in bytes that do not fill the block; at are there already.
    method Keep(at: nat, d: seq<byte>)
      requires Held() && at == |message| % 64 && at + |d| < 64
      modifies inp, this`message
      ensures Held() && message == old(message) + d && |message| % 64 == at + |d|
    {
      FoldMore(transform, INIT, message, d);
      ghost var was := inp[..];
      Copy(at, d);
      message := message + d;
      assert was[..at] == inp[..at];
      assert inp[..at + |d|] == was[..at] + d;
      assert |message| % 64 == at + |d|;
    }

    // Take in bytes that fill the block, and transform it.
    method Fill(at: nat, d: seq<byte>)
      requires Held() && at == |message| % 64 && at + |d| == 64
      modifies inp, this`buf, this`message
      ensures Held() && message == old(message) + d && |message| % 64 == 0
    {
      FoldMore(transform, INIT, message, d);
      WholeBlock(|message|, |d|);
      ghost var was := inp[..];
      Copy(at, d);
      assert inp[..] == was[..at] + d;
      buf := transform(buf, inp[..]);
      message := message + d;
    }

    // How many bytes the block buffer holds (md5.c:73).
    method Used() returns (t: nat)
      requires Counted(|message|)
      ensures t == |message| % 64
    {
      UsedBits(bits0, bits1, |message|);
      t := bits0 / 8 % 64;
    }

    // MD5Update (md5.c:62-104).
    method Update(data: seq<byte>)
      requires Valid() && |data| < TWO32
      modifies this, inp
      ensures Valid() && message == old(message) + data
    {
      ghost var before := message;
      var t := Used();
      CountBits(|data|);
      var full, done := TopUp(t, data);
      if full {
        ghost var top := done;
        done := FillBlocks(data, done);
        Keep(0, data[done..]);
        ThreeParts(before, data, top, done);
      } else {
        assert data[..done] == data;
      }
    }

    // Fill up the block that is under way, if there is one (md5.c:75-90).
    method TopUp(t: nat, data: seq<byte>) returns (full: bool, done: nat)
      requires Held() && t == |message| % 64
      modifies inp, this`buf, this`message
      ensures Held() && done <= |data| && message == old(message) + data[..done]
      ensures if full then |message| % 64 == 0 else data[..done] == data
    {
      full, done := true, 0;
      assert message + data[..0] == message;
      if t != 0 {
        if |data| < 64 - t {
          Keep(t, data);
          assert data[..|data|] == data;
          return false, |data|;
        }
        done := 64 - t;
        Fill(t, data[..done]);
      }
    }

    // Process whole blocks (md5.c:91-99).
    method FillBlocks(data: seq<byte>, from: nat) returns (done: nat)
      requires Held() && |message| % 64 == 0 && from <= |data|
      modifies inp, this`buf, this`message
      ensures Held() && |message| % 64 == 0 && from <= done <= |data| < done + 64
      ensures message == old(message) + data[from..done]
    {
      done := from;
      ghost var before := message;
      assert data[from..from] == [];
      while |data| - done >= 64
        invariant from <= done <= |data| && Held() && message == before + data[from..done] && |message| % 64 == 0
      {
        assert data[from..done + 64] == data[from..done] + data[done..done + 64];
        Fill(0, data[done..done + 64]);
        done := done + 64;
      }
    }

    // MD5Final (md5.c:110-152).
    method Final() returns (digest: Words)
      requires Valid()
      modifies this, inp
      ensures digest == Md5(transform, old(message))
    {
      ghost var m, len := message, |message|;
      var count := Used();
      ghost var c := count;
      var rest := 63 - count;
      if rest < 8 {
        Fill(count, [0x80] + Zeros(rest));
        Keep(0, Zeros(56));
      } else {
        Keep(count, [0x80] + Zeros(rest - 8));
      }
      BitsAsBytes(bits0, bits1);
      Fill(56, Little(bits0, 4) + Little(bits1, 4));
      PaddingIs(m, len, c, message);
      digest := buf;
    }
  }

  function Zeros(n: nat): (z: seq<byte>)
  {
    seq(n, _ => 0)
  }

  lemma PaddingIs(m: seq<byte>, len: nat, count: nat, padded: seq<byte>)
    requires len == |m| && count == len % 64
    requires padded
             == (if 63 - count < 8 then m + ([0x80] + Zeros(63 - count)) + Zeros(56)
                 else m + ([0x80] + Zeros(55 - count)))
                       + Little(8 * len % TWO64, 8)
    ensures padded == m + Padding(len)
  {
    if 63 - count < 8 {
      assert Zeros(63 - count) + Zeros(56) == Zeros(119 - count);
    }
  }

  lemma {:induction false} LittleSplit(a: nat, b: nat, n: nat, k: nat)
    requires a < Pow256(n)
    ensures Little(a + Pow256(n) * b, n + k) == Little(a, n) + Little(b, k)
  {
    if n > 0 {
      var p := Pow256(n - 1);
      Distribute256(a, p, b);
      LittleSplit(a / 256, b, n - 1, k);
    } else {
      assert [] + Little(b, k) == Little(b, k);
    }
  }

  lemma Distribute256(a: nat, p: nat, b: nat)
    ensures (a + 256 * p * b) % 256 == a % 256 && (a + 256 * p * b) / 256 == a / 256 + p * b
  {
    assert 256 * p * b == 256 * (p * b);
  }

  // The two words of the count are the eight bytes of the length.
  lemma BitsAsBytes(bits0: nat, bits1: nat)
    requires bits0 < TWO32
    ensures Little(bits0, 4) + Little(bits1, 4) == Little(bits0 + bits1 * TWO32, 8)
  {
    Powers();
    LittleSplit(bits0, bits1, 4, 4);
  }

  // Any way of cutting up a message gives its digest.
  method DigestOf(f: (Words, seq<byte>) -> Words, pieces: seq<seq<byte>>) returns (digest: Words)
    requires forall i :: 0 <= i < |pieces| ==> |pieces[i]| < TWO32
    ensures digest == Md5(f, Concat(pieces))
  {
    var ctx := new MD5Context(f);
    var i := 0;
    while i < |pieces|
      invariant 0 <= i <= |pieces| && ctx.Valid() && fresh(ctx) && fresh(ctx.inp) && ctx.transform == f
      invariant ctx.message == Concat(pieces[..i])
    {
      ConcatNext(pieces, i);
      ctx.Update(pieces[i]);
      i := i + 1;
    }
    assert pieces[..i] == pieces;
    digest := ctx.Final();
  }

}
