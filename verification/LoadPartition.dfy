// LoadPartitionContents (applypatch.c:123-322): find out how much of a partition is data,
// given the sizes and hashes it may have.
module LoadPartition {
  import opened Bytes
  import opened MtdBlocks
  import opened ImgPatch

  type Digest = seq<byte>

  // A size and the hash of the data of that size; None for a hash that cannot be parsed.
  datatype Pair = Pair(size: nat, sha: Option<Digest>)

  // An order of the pairs by size, as qsort may leave it.
  ghost predicate Order(pairs: seq<Pair>, index: seq<nat>)
  {
    && |index| == |pairs| && (forall i :: 0 <= i < |index| ==> index[i] < |pairs|)
    && (forall k :: 0 <= k < |pairs| ==> k in index)
    && (forall i, j :: 0 <= i < j < |index| ==> pairs[index[i]].size <= pairs[index[j]].size)
  }

  // The pair describes the beginning of the partition.
  predicate Fits(sha: seq<byte> -> Digest, partition: seq<byte>, p: Pair)
  {
    p.size <= |partition| && p.sha == Some(sha(partition[..p.size]))
  }

  ghost predicate AnyFits(sha: seq<byte> -> Digest, partition: seq<byte>, pairs: seq<Pair>)
  {
    exists k :: 0 <= k < |pairs| && Fits(sha, partition, pairs[k])
  }

  // n is the smallest size of a pair that fits.
  ghost predicate Smallest(sha: seq<byte> -> Digest, partition: seq<byte>, pairs: seq<Pair>, n: nat)
  {
    && (exists k :: 0 <= k < |pairs| && Fits(sha, partition, pairs[k]) && pairs[k].size == n)
    && (forall k :: 0 <= k < |pairs| && Fits(sha, partition, pairs[k]) ==> n <= pairs[k].size)
  }

  // Read on to the next size; None when the partition is too short.
  method ReadUpTo(ctx: ReadContext, ghost partition: seq<byte>, have: seq<byte>, size: nat, ctxSha: Sha)
    returns (ok: bool, data: seq<byte>)
    requires ctx.Valid() && |have| <= size && partition == have + ctx.Rest() && ctxSha.hashed == have
    modifies ctx`consumed, ctx`pos, ctx.buffer, ctxSha
    ensures ok == (size <= |partition|)
    ensures ok ==> ctx.Valid() && data == partition[..size] && partition == data + ctx.Rest() && ctxSha.hashed == data
  {
    var next := size - |have|;
    data := have;
    if next > 0 {
      var piece := new byte[next];
      var read := ctx.ReadData(piece, next);
      if next != read {
        return false, data;
      }
      assert piece[..next] == piece[..];
      Associative(have, piece[..], ctx.Rest());
      data := have + piece[..];
      ctxSha.Update(piece[..]);
    }
    ok := true;
  }

  // The pairs before position i, in order of size, do not fit.
  ghost predicate Tried(sha: seq<byte> -> Digest, partition: seq<byte>, pairs: seq<Pair>, index: seq<nat>, i: nat)
    requires Order(pairs, index)
  {
    i <= |index| && forall j :: 0 <= j < i ==> !Fits(sha, partition, pairs[index[j]])
  }

  // Once the partition is too short for one size it is too short for the sizes after it.
  lemma TooShort(sha: seq<byte> -> Digest, partition: seq<byte>, pairs: seq<Pair>, index: seq<nat>, i: nat)
    requires Order(pairs, index) && Tried(sha, partition, pairs, index, i) && i < |index|
             && |partition| < pairs[index[i]].size
    ensures Tried(sha, partition, pairs, index, |index|)
  {
  }

  lemma FirstIsSmallest(sha: seq<byte> -> Digest, partition: seq<byte>, pairs: seq<Pair>, index: seq<nat>, i: nat)
    requires Order(pairs, index) && Tried(sha, partition, pairs, index, i) && i < |index|
             && Fits(sha, partition, pairs[index[i]])
    ensures Smallest(sha, partition, pairs, pairs[index[i]].size)
  {
    forall k | 0 <= k < |pairs| && Fits(sha, partition, pairs[k])
      ensures pairs[index[i]].size <= pairs[k].size
    {
      assert k in index;
      var j :| 0 <= j < |index| && index[j] == k;
      assert i <= j;
    }
  }

  // The check of the sizes (applypatch.c:174-183).
  method SizesGood(pairs: seq<Pair>) returns (good: bool)
    ensures good <==> forall k :: 0 <= k < |pairs| ==> pairs[k].size > 0
  {
    var i := 0;
    while i < |pairs|
      invariant 0 <= i <= |pairs| && forall k :: 0 <= k < i ==> pairs[k].size > 0
    {
      if pairs[i].size == 0 {
        return false;
      }
      i := i + 1;
    }
    good := true;
  }

  // The pair at position i, in order of size, fits, and every hash before it can be parsed.
  ghost predicate FoundAt(sha: seq<byte> -> Digest, partition: seq<byte>, pairs: seq<Pair>, index: seq<nat>, i: nat)
    requires Order(pairs, index)
  {
    i < |index| && Fits(sha, partition, pairs[index[i]]) && forall j :: 0 <= j < i ==> pairs[index[j]].sha.Some?
  }

  // Loading succeeds exactly if some pair fits that only pairs with good hashes come before;
  // what is loaded is the beginning of the partition of the smallest size that fits.
  ghost predicate Answers(sha: seq<byte> -> Digest, partition: seq<byte>, pairs: seq<Pair>, index: seq<nat>,
                          r: Option<(seq<byte>, Digest)>)
    requires Order(pairs, index)
  {
    && (r.Some? <==> exists i :: FoundAt(sha, partition, pairs, index, i))
    && (r.Some? ==>
          var (data, digest) := r.value;
          data <= partition && digest == sha(data) && Smallest(sha, partition, pairs, |data|))
  }

  // The pairs before position i do not fit, and neither does any other if the hash at i
  // cannot be parsed, or all positions have been tried.
  lemma NoneFound(sha: seq<byte> -> Digest, partition: seq<byte>, pairs: seq<Pair>, index: seq<nat>, i: nat)
    requires Order(pairs, index) && Tried(sha, partition, pairs, index, i)
    requires i < |index| ==> pairs[index[i]].sha.None?
    ensures forall k :: !FoundAt(sha, partition, pairs, index, k)
  {
  }

  // With hashes that can all be parsed, loading fails only if no pair fits.
  lemma FoundIfFits(sha: seq<byte> -> Digest, partition: seq<byte>, pairs: seq<Pair>, index: seq<nat>)
    requires Order(pairs, index) && forall k :: 0 <= k < |pairs| ==> pairs[k].sha.Some?
    ensures (exists i :: FoundAt(sha, partition, pairs, index, i)) <==> AnyFits(sha, partition, pairs)
  {
    if AnyFits(sha, partition, pairs) {
      var k :| 0 <= k < |pairs| && Fits(sha, partition, pairs[k]);
      assert k in index;
      var i: nat :| i < |index| && index[i] == k;
      assert FoundAt(sha, partition, pairs, index, i);
    }
  }

  // One turn of the loop: read up to the size of a pair and look at its hash.
  method TryPair(ctx: ReadContext, shaCtx: Sha, ghost partition: seq<byte>, sha: seq<byte> -> Digest, pairs: seq<Pair>,
                 index: seq<nat>,
                 i: nat, have: seq<byte>)
    returns (done: bool, data: seq<byte>, r: Option<(seq<byte>, Digest)>)
    requires Order(pairs, index) && i < |index| && Tried(sha, partition, pairs, index, i)
             && |have| <= pairs[index[i]].size && forall j :: 0 <= j < i ==> pairs[index[j]].sha.Some?
    requires ctx.Valid() && partition == have + ctx.Rest() && shaCtx.hashed == have
    modifies ctx`consumed, ctx`pos, ctx.buffer, shaCtx
    ensures done ==> Answers(sha, partition, pairs, index, r)
    ensures !done ==> Tried(sha, partition, pairs, index, i + 1) && |data| == pairs[index[i]].size
    ensures !done ==> pairs[index[i]].sha.Some?
    ensures !done ==> ctx.Valid() && partition == data + ctx.Rest() && shaCtx.hashed == data
  {
    var p := pairs[index[i]];
    r := None;
    var ok;
    ok, data := ReadUpTo(ctx, partition, have, p.size, shaCtx);
    if !ok {
      TooShort(sha, partition, pairs, index, i);
      NoneFound(sha, partition, pairs, index, |index|);
      return true, data, None;
    }
    if p.sha.None? {
      NoneFound(sha, partition, pairs, index, i);
      return true, data, None;
    }
    done := sha(shaCtx.hashed) == p.sha.value;
    if done {
      FirstIsSmallest(sha, partition, pairs, index, i);
      assert FoundAt(sha, partition, pairs, index, i);
      r := Some((data, sha(shaCtx.hashed)));
    }
  }

  // The loop over the pairs (applypatch.c:233-283).
  method TryPairs(ctx: ReadContext, shaCtx: Sha, ghost partition: seq<byte>, sha: seq<byte> -> Digest,
                  pairs: seq<Pair>, index: seq<nat>)
    returns (r: Option<(seq<byte>, Digest)>)
    requires Order(pairs, index) && ctx.Valid() && partition == ctx.Rest() && shaCtx.hashed == []
    modifies ctx`consumed, ctx`pos, ctx.buffer, shaCtx
    ensures Answers(sha, partition, pairs, index, r)
  {
    assert [] + partition == partition;
    var data: seq<byte> := [];
    var i := 0;
    while i < |pairs|
      invariant 0 <= i <= |pairs| && ctx.Valid() && Tried(sha, partition, pairs, index, i)
      invariant partition == data + ctx.Rest() && shaCtx.hashed == data
      invariant i < |pairs| ==> |data| <= pairs[index[i]].size
      invariant forall j :: 0 <= j < i ==> pairs[index[j]].sha.Some?
    {
      var done;
      done, data, r := TryPair(ctx, shaCtx, partition, sha, pairs, index, i, data);
      if done {
        return;
      }
      i := i + 1;
    }
    NoneFound(sha, partition, pairs, index, |index|);
    r := None;
  }

  method LoadPartitionContents(flash: Flash, sha: seq<byte> -> Digest, pairs: seq<Pair>, index: seq<nat>)
    returns (r: Option<(seq<byte>, Digest)>)
    requires flash.Valid() && Order(pairs, index)
    ensures if forall k :: 0 <= k < |pairs| ==> pairs[k].size > 0 then
              Answers(sha, Data(flash.blocks, Legible(flash.kinds), 0, |flash.kinds|), pairs, index, r)
            else r.None?
  {
    var good := SizesGood(pairs);
    if !good {
      return None;
    }
    var ctx := new ReadContext(flash);
    var shaCtx := new Sha();
    r := TryPairs(ctx, shaCtx, ctx.Rest(), sha, pairs, index);
  }
}
