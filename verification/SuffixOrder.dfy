// Suffixes of byte strings, compared by their common prefix.  The suffix of s at a
// and the suffix of t at b may come from the same string (when sorting) or from two
// strings (when searching); an exhausted suffix sorts before every longer one.
module SuffixOrder {
  import opened Bytes
  import Lexicographic

  // Length of the longest common prefix of s[a..] and t[b..].
  function Lcp(s: seq<byte>, a: nat, t: seq<byte>, b: nat): (m: nat)
    requires a <= |s| && b <= |t|
    ensures a + m <= |s| && b + m <= |t|
    ensures a + m < |s| && b + m < |t| ==> s[a + m] != t[b + m]
    decreases |s| - a
  {
    if a < |s| && b < |t| && s[a] == t[b] then 1 + Lcp(s, a + 1, t, b + 1) else 0
  }

  // s[a..] comes strictly before t[b..] in lexicographic order.
  predicate Less(s: seq<byte>, a: nat, t: seq<byte>, b: nat)
    requires a <= |s| && b <= |t|
  {
    var m := Lcp(s, a, t, b);
    b + m < |t| && (a + m == |s| || s[a + m] < t[b + m])
  }

  // The bytes below the common prefix are equal, and no longer prefix is shared.
  lemma {:induction false} LcpSlice(s: seq<byte>, a: nat, t: seq<byte>, b: nat, h: nat)
    requires a + h <= |s| && b + h <= |t|
    ensures s[a..a + h] == t[b..b + h] <==> h <= Lcp(s, a, t, b)
    decreases h
  {
    if h > 0 {
      assert s[a..a + h] == [s[a]] + s[a + 1..a + h];
      assert t[b..b + h] == [t[b]] + t[b + 1..b + h];
      if s[a] == t[b] {
        LcpSlice(s, a + 1, t, b + 1, h - 1);
      } else {
        assert s[a..a + h][0] != t[b..b + h][0];
      }
    }
  }

  // A shared prefix can be dropped from both sides of a comparison.
  lemma {:induction false} LcpShift(s: seq<byte>, a: nat, t: seq<byte>, b: nat, h: nat)
    requires a <= |s| && b <= |t| && h <= Lcp(s, a, t, b)
    ensures Lcp(s, a, t, b) == h + Lcp(s, a + h, t, b + h)
    ensures Less(s, a, t, b) <==> Less(s, a + h, t, b + h)
    decreases h
  {
    if h > 0 {
      LcpShift(s, a + 1, t, b + 1, h - 1);
    }
  }

  lemma {:induction false} LcpSymmetric(s: seq<byte>, a: nat, t: seq<byte>, b: nat)
    requires a <= |s| && b <= |t|
    ensures Lcp(s, a, t, b) == Lcp(t, b, s, a)
    decreases |s| - a
  {
    if a < |s| && b < |t| && s[a] == t[b] {
      LcpSymmetric(s, a + 1, t, b + 1);
    }
  }

  lemma {:induction false} LcpSelf(s: seq<byte>, a: nat)
    requires a <= |s|
    ensures Lcp(s, a, s, a) == |s| - a
    decreases |s| - a
  {
    if a < |s| {
      LcpSelf(s, a + 1);
    }
  }

  // Agreement on h bytes is transitive.
  lemma {:induction false} LcpTransitive(s: seq<byte>, a: nat, t: seq<byte>, b: nat, u: seq<byte>, c: nat, h: nat)
    requires a <= |s| && b <= |t| && c <= |u|
    requires h <= Lcp(s, a, t, b) && h <= Lcp(t, b, u, c)
    ensures h <= Lcp(s, a, u, c)
    decreases h
  {
    if h > 0 {
      LcpTransitive(s, a + 1, t, b + 1, u, c + 1, h - 1);
    }
  }

  lemma LessIrreflexive(s: seq<byte>, a: nat)
    requires a <= |s|
    ensures !Less(s, a, s, a)
  {
    LcpSelf(s, a);
  }

  lemma LessAsymmetric(s: seq<byte>, a: nat, t: seq<byte>, b: nat)
    requires a <= |s| && b <= |t| && Less(s, a, t, b)
    ensures !Less(t, b, s, a)
  {
    LcpSymmetric(s, a, t, b);
  }

  // The order is transitive, and a suffix between two others shares with each of
  // them at least what they share with each other.
  lemma {:induction false} LessTransitive(s: seq<byte>, a: nat, t: seq<byte>, b: nat, u: seq<byte>, c: nat)
    requires a <= |s| && b <= |t| && c <= |u|
    requires Less(s, a, t, b) && Less(t, b, u, c)
    ensures Less(s, a, u, c)
    ensures Lcp(s, a, u, c) <= Lcp(s, a, t, b)
    ensures Lcp(s, a, u, c) <= Lcp(t, b, u, c)
    decreases |s| - a
  {
    if a < |s| && s[a] == t[b] && t[b] == u[c] {
      LessTransitive(s, a + 1, t, b + 1, u, c + 1);
    }
  }

  // The order is the lexicographic one.
  lemma {:induction false} LessIsLexicographic(s: seq<byte>, a: nat, t: seq<byte>, b: nat)
    requires a <= |s| && b <= |t|
    ensures Less(s, a, t, b) <==> Lexicographic.Precedes(s[a..], t[b..])
    decreases |s| - a
  {
    if a < |s| && b < |t| && s[a] == t[b] {
      assert s[a..][1..] == s[a + 1..] && t[b..][1..] == t[b + 1..];
      LessIsLexicographic(s, a + 1, t, b + 1);
    }
  }
}
