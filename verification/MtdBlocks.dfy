// Block I/O on NAND flash (mtdutils/mtdutils.c:250-564): reading and writing a stream of
// bytes across blocks, some of which are bad.  Offsets count blocks.
module MtdBlocks {
  import opened Bytes

  // A worn block is not marked bad, but what is written to it does not read back.
  datatype Kind = Good | Bad | Worn

  class Flash {
    const eraseSize: nat
    const kinds: seq<Kind>
    // Worn blocks can at least be erased.
    const tidy: bool
    var blocks: seq<seq<byte>>

    constructor (eraseSize: nat, kinds: seq<Kind>, tidy: bool, blocks: seq<seq<byte>>)
      requires 0 < eraseSize && |kinds| == |blocks| && forall i :: 0 <= i < |blocks| ==> |blocks[i]| == eraseSize
      ensures Valid() && this.eraseSize == eraseSize && this.kinds == kinds && this.tidy == tidy
              && this.blocks == blocks
    {
      this.eraseSize, this.kinds, this.tidy, this.blocks := eraseSize, kinds, tidy, blocks;
    }

    ghost predicate Valid()
      reads this
    {
      0 < eraseSize && |kinds| == |blocks| && forall i :: 0 <= i < |blocks| ==> |blocks[i]| == eraseSize
    }

    method SetBlock(i: nat, data: seq<byte>)
      requires Valid() && i < |kinds| && |data| == eraseSize
      modifies this
      ensures Valid() && blocks == old(blocks)[i := data]
    {
      blocks := blocks[i := data];
    }

    // MEMERASE, which may fail, but not twice on a good block.
    method Erase(i: nat, retry: nat) returns (ok: bool)
      requires Valid() && i < |kinds|
      modifies this
      ensures Valid() && exists b :: |b| == eraseSize && blocks == old(blocks)[i := b]
      ensures (kinds[i].Good? && retry > 0) || (kinds[i].Worn? && tidy) ==> ok
      ensures ok ==> blocks == old(blocks)[i := Blank(eraseSize)]
    {
      ok := *;
      ok := ok || (kinds[i].Good? && retry > 0) || (kinds[i].Worn? && tidy);
      if ok {
        SetBlock(i, Blank(eraseSize));
      } else {
        assert blocks == blocks[i := blocks[i]];
      }
    }

    // Write a block and read it back.  On a good block the first try may leave anything
    // behind; the second succeeds.  On a worn block no try does.
    method Program(i: nat, data: seq<byte>, retry: nat) returns (verify: seq<byte>)
      requires Valid() && i < |kinds| && |data| == eraseSize
      modifies this
      ensures Valid() && |verify| == eraseSize && blocks == old(blocks)[i := verify]
      ensures kinds[i].Good? && retry > 0 ==> verify == data
      ensures kinds[i].Worn? ==> verify != data
    {
      var garbled := *;
      verify := data;
      if kinds[i].Worn? || (garbled && retry == 0) {
        verify := data[0 := (data[0] as int + 1) % 256];
      }
      SetBlock(i, verify);
    }
  }

  // An erased block.
  function Blank(size: nat): (b: seq<byte>)
    ensures |b| == size
  {
    seq(size, _ => 0xff)
  }

  // The worn blocks before pos, which the writer has given up, are left erased.
  ghost predicate GivenUp(flash: Flash, pos: nat)
    reads flash
  {
    flash.Valid() && flash.tidy ==>
      forall p :: 0 <= p < pos && p < |flash.kinds| && flash.kinds[p].Worn? ==>
        flash.blocks[p] == Blank(flash.eraseSize)
  }

  // Which blocks the writer uses, and which the reader reads.
  function Usable(kinds: seq<Kind>): (k: seq<bool>)
    ensures |k| == |kinds| && forall i :: 0 <= i < |kinds| ==> k[i] == kinds[i].Good?
  {
    seq(|kinds|, i requires 0 <= i < |kinds| => kinds[i].Good?)
  }

  function Legible(kinds: seq<Kind>): (k: seq<bool>)
    ensures |k| == |kinds| && forall i :: 0 <= i < |kinds| ==> k[i] == !kinds[i].Bad?
  {
    seq(|kinds|, i requires 0 <= i < |kinds| => !kinds[i].Bad?)
  }

  // The bytes in the blocks lo..hi that are kept.
  function Data(blocks: seq<seq<byte>>, keep: seq<bool>, lo: nat, hi: nat): (d: seq<byte>)
    requires hi <= |blocks| == |keep|
    decreases hi
  {
    if hi <= lo then [] else Data(blocks, keep, lo, hi - 1) + if keep[hi - 1] then blocks[hi - 1] else []
  }

  function Count(keep: seq<bool>, lo: nat, hi: nat): (n: nat)
    requires hi <= |keep|
    decreases hi
  {
    if hi <= lo then 0 else Count(keep, lo, hi - 1) + if keep[hi - 1] then 1 else 0
  }

  lemma {:induction false} DataFront(blocks: seq<seq<byte>>, keep: seq<bool>, lo: nat, hi: nat)
    requires lo < hi <= |blocks| == |keep|
    ensures Data(blocks, keep, lo, hi) == (if keep[lo] then blocks[lo] else []) + Data(blocks, keep, lo + 1, hi)
    ensures Count(keep, lo, hi) == (if keep[lo] then 1 else 0) + Count(keep, lo + 1, hi)
    decreases hi
  {
    if lo + 1 < hi {
      DataFront(blocks, keep, lo, hi - 1);
      Associative(if keep[lo] then blocks[lo] else [], Data(blocks, keep, lo + 1, hi - 1),
                  if keep[hi - 1] then blocks[hi - 1] else []);
    } else {
      assert Data(blocks, keep, lo, lo) == [] && Data(blocks, keep, hi, hi) == [];
    }
  }

  lemma {:induction false} DataSame(b: seq<seq<byte>>, c: seq<seq<byte>>, keep: seq<bool>, lo: nat, hi: nat)
    requires hi <= |b| == |c| == |keep| && forall i :: lo <= i < hi ==> b[i] == c[i]
    ensures Data(b, keep, lo, hi) == Data(c, keep, lo, hi)
    decreases hi
  {
    if lo < hi {
      DataSame(b, c, keep, lo, hi - 1);
    }
  }

  lemma {:induction false} DataSize(blocks: seq<seq<byte>>, keep: seq<bool>, lo: nat, hi: nat, size: nat)
    requires hi <= |blocks| == |keep| && forall i :: 0 <= i < |blocks| ==> |blocks[i]| == size
    ensures |Data(blocks, keep, lo, hi)| == size * Count(keep, lo, hi)
    decreases hi
  {
    if lo < hi {
      DataSize(blocks, keep, lo, hi - 1, size);
      if keep[hi - 1] {
        assert size * (Count(keep, lo, hi - 1) + 1) == size * Count(keep, lo, hi - 1) + size;
      }
    }
  }

  // Passing a block adds what was written to it, if it is kept.
  lemma AfterBlock(b: seq<seq<byte>>, c: seq<seq<byte>>, keep: seq<bool>, p: nat, data: seq<byte>)
    requires p < |b| == |c| == |keep| && (forall i :: 0 <= i < p ==> b[i] == c[i]) && (keep[p] ==> c[p] == data)
    ensures Data(c, keep, 0, p + 1) == if keep[p] then Data(b, keep, 0, p) + data else Data(b, keep, 0, p)
    ensures Count(keep, p, |keep|) == Count(keep, p + 1, |keep|) + if keep[p] then 1 else 0
  {
    DataSame(b, c, keep, 0, p);
    DataFront(b, keep, p, |keep|);
    assert Data(c, keep, 0, p) + [] == Data(c, keep, 0, p);
  }

  class WriteContext {
    const flash: Flash
    const buffer: array<byte>
    var stored: nat
    var pos: nat // of the file descriptor
    var badBlocks: seq<nat>
    ghost var written: seq<byte> // everything handed over so far

    // What is on the flash, and what is in the buffer, is what was handed over.
    ghost predicate Valid()
      reads this, flash, buffer
    {
      && flash.Valid() && buffer.Length == flash.eraseSize && stored < buffer.Length && pos <= |flash.kinds|
      && written == OnFlash() + buffer[..stored]
    }

    ghost function OnFlash(): seq<byte>
      requires pos <= |flash.kinds| && flash.Valid()
      reads this, flash
    {
      Data(flash.blocks, Usable(flash.kinds), 0, pos)
    }

    // How many bytes it takes to run out of space.
    ghost function Room(): int
      requires pos <= |flash.kinds|
      reads this
    {
      (Left() + 1) * buffer.Length - stored
    }

    // How many blocks can still be written.
    ghost function Left(): nat
      requires pos <= |flash.kinds|
      reads this
    {
      Count(Usable(flash.kinds), pos, |flash.kinds|)
    }

    // mtd_write_partition.
    constructor (flash: Flash)
      requires flash.Valid()
      ensures Valid() && Ready() && this.flash == flash && fresh(buffer) && written == [] && pos == 0 && stored == 0
    {
      this.flash := flash;
      buffer := new byte[flash.eraseSize];
      stored, pos, badBlocks, written := 0, 0, [], [];
    }

    // The two tries at writing a block (mtdutils.c:421-461).
    method TryBlock(p: nat, data: seq<byte>) returns (ok: bool)
      requires flash.Valid() && p < |flash.kinds| && |data| == flash.eraseSize && !flash.kinds[p].Bad?
      modifies flash
      ensures flash.Valid() && ok == flash.kinds[p].Good?
      ensures forall i :: 0 <= i < |flash.kinds| && i != p ==> flash.blocks[i] == old(flash.blocks[i])
      ensures ok ==> flash.blocks[p] == data
      ensures flash.kinds[p].Worn? && flash.tidy ==> flash.blocks[p] == Blank(flash.eraseSize)
    {
      var retry := 0;
      while retry < 2
        invariant 0 <= retry <= 2 && flash.Valid()
        invariant forall i :: 0 <= i < |flash.kinds| && i != p ==> flash.blocks[i] == old(flash.blocks[i])
        invariant retry == 2 ==> flash.kinds[p].Worn?
      {
        var erased := flash.Erase(p, retry);
        if erased {
          var verify := flash.Program(p, data, retry);
          if data == verify {
            return true;
          }
        }
        retry := retry + 1;
      }
      var _ := flash.Erase(p, 0);
      ok := false;
    }

    ghost predicate Ready()
      reads this, flash
    {
      flash.Valid() && pos <= |flash.kinds| && Noted(badBlocks, flash.kinds, pos) && GivenUp(flash, pos)
    }

    // One turn of write_block's loop: write to the block at the descriptor, or pass over it.
    method WriteHere(data: seq<byte>) returns (ok: bool)
      requires Ready() && pos < |flash.kinds| && |data| == flash.eraseSize
      modifies flash, this`pos, this`badBlocks
      ensures Ready() && pos == old(pos) + 1 && ok == flash.kinds[old(pos)].Good?
      ensures OnFlash() == if ok then old(OnFlash()) + data else old(OnFlash())
      ensures Left() == old(Left()) - if ok then 1 else 0
    {
      ghost var b, p, noted := flash.blocks, pos, badBlocks;
      ok := false;
      if !flash.kinds[pos].Bad? {
        ok := TryBlock(pos, data);
      }
      AfterBlock(b, flash.blocks, Usable(flash.kinds), p, data);
      if !ok {
        badBlocks := badBlocks + [pos];
      }
      pos := pos + 1;
      NotedMore(noted, badBlocks, flash.kinds, p, pos);
    }

    // write_block (mtdutils.c:400-467): write to the next good block.
    method WriteBlock(data: seq<byte>) returns (ok: bool)
      requires Ready() && |data| == flash.eraseSize
      modifies flash, this`pos, this`badBlocks
      ensures Ready() && ok == (0 < old(Left()))
      ensures OnFlash() == if ok then old(OnFlash()) + data else old(OnFlash())
      ensures Left() == if ok then old(Left()) - 1 else 0
    {
      ok := false;
      while pos < |flash.kinds|
        invariant Ready() && OnFlash() == old(OnFlash()) && Left() == old(Left())
      {
        ok := WriteHere(data);
        if ok {
          return;
        }
      }
    }

    // Take what fits into the buffer (mtdutils.c:473-480).
    method FillBuffer(data: seq<byte>, wrote: nat) returns (copy: nat)
      requires Ready() && Valid() && wrote < |data|
      modifies buffer, this`stored, this`written
      ensures Full() && 0 < copy <= |data| - wrote && Room() == old(Room()) - copy
      ensures copy == if |data| - wrote < buffer.Length - old(stored) then |data| - wrote
                      else buffer.Length - old(stored)
      ensures stored == old(stored) + copy && written == old(written) + data[wrote..wrote + copy]
    {
      copy := if |data| - wrote < buffer.Length - stored then |data| - wrote else buffer.Length - stored;
      ghost var was, at := buffer[..stored], stored;
      var i := 0;
      while i < copy
        invariant 0 <= i <= copy && stored == at && written == old(written)
        invariant buffer[..at + i] == was + data[wrote..wrote + i]
      {
        buffer[stored + i] := data[wrote + i];
        assert buffer[..at + i + 1] == buffer[..at + i] + [data[wrote + i]];
        i := i + 1;
      }
      stored := stored + copy;
      written := written + data[wrote..wrote + copy];
      Associative(OnFlash(), was, data[wrote..wrote + copy]);
    }

    // The buffer may have become full.
    ghost predicate Full()
      reads this, flash, buffer
    {
      Ready() && buffer.Length == flash.eraseSize && stored <= buffer.Length && written == OnFlash() + buffer[..stored]
    }

    // Write the buffer out if it is full (mtdutils.c:482-486).
    method FlushFull() returns (ok: bool)
      requires Full()
      modifies flash, this`pos, this`badBlocks, this`stored
      ensures Ready() && (ok ==> Valid() && Room() == old(Room())) && (!ok ==> old(Room()) == 0)
      ensures ok == (old(stored) < buffer.Length || 0 < old(Left()))
      ensures ok ==> stored == if old(stored) < buffer.Length then old(stored) else 0
    {
      ok := true;
      if stored == buffer.Length {
        ghost var left: int := Left();
        ok := FlushBuffer();
        Units(left, left - 1, buffer.Length);
      }
    }

    method FlushBuffer() returns (ok: bool)
      requires Full() && stored == buffer.Length
      modifies flash, this`pos, this`badBlocks, this`stored
      ensures Ready() && ok == (0 < old(Left()))
      ensures ok ==> Valid() && stored == 0 && Left() == old(Left()) - 1
      ensures !ok ==> stored == old(stored)
    {
      assert buffer[..] == buffer[..stored];
      ok := WriteBlock(buffer[..]);
      if ok {
        stored := 0;
        assert OnFlash() + buffer[..0] == OnFlash();
      }
    }

    // Write one block straight from the data.
    method WriteDirect(data: seq<byte>) returns (ok: bool)
      requires Valid() && Ready() && stored == 0 && |data| == buffer.Length
      modifies flash, this`pos, this`badBlocks, this`written
      ensures Ready() && (!ok ==> old(Room()) == buffer.Length)
      ensures ok ==> Valid() && Room() == old(Room()) - buffer.Length && written == old(written) + data
    {
      ghost var left := Left();
      assert buffer[..stored] == [] && written == OnFlash();
      ok := WriteBlock(data);
      Units(left, Left(), buffer.Length);
      if ok {
        written := written + data;
      }
    }

    // Write whole blocks straight from the data (mtdutils.c:488-492).
    method WriteWhole(data: seq<byte>, wrote0: nat) returns (ok: bool, wrote: nat)
      requires Valid() && Ready() && wrote0 <= |data|
      modifies flash, this`pos, this`badBlocks, this`written
      ensures Ready() && wrote0 <= wrote <= |data| && (stored > 0 ==> ok && wrote == wrote0)
      ensures ok ==> Valid() && (stored > 0 || |data| - wrote < buffer.Length)
      ensures ok ==> written == old(written) + data[wrote0..wrote] && Room() == old(Room()) - (wrote - wrote0)
      ensures !ok ==> old(Room()) <= |data| - wrote0
    {
      wrote := wrote0;
      ok := true;
      assert data[wrote0..wrote0] == [];
      while stored == 0 && |data| - wrote >= buffer.Length
        invariant Valid() && Ready() && wrote0 <= wrote <= |data| && written == old(written) + data[wrote0..wrote]
        invariant (stored > 0 ==> wrote == wrote0) && Room() == old(Room()) - (wrote - wrote0)
      {
        ok := WriteDirect(data[wrote..wrote + buffer.Length]);
        if !ok {
          return;
        }
        assert data[wrote0..wrote + buffer.Length] == data[wrote0..wrote] + data[wrote..wrote + buffer.Length];
        wrote := wrote + buffer.Length;
      }
    }

    // One turn of mtd_write_data's loop.
    method WriteTurn(data: seq<byte>, wrote0: nat) returns (ok: bool, wrote: nat)
      requires Valid() && Ready() && wrote0 < |data|
      modifies flash, buffer, this
      ensures Ready() && wrote0 <= wrote <= |data| && (!ok ==> old(Room()) <= |data| - wrote0)
      ensures ok ==> Valid() && wrote0 < wrote && written == old(written) + data[wrote0..wrote]
                     && Room() == old(Room()) - (wrote - wrote0)
    {
      wrote := wrote0;
      assert data[wrote0..wrote0] == [];
      if stored > 0 || |data| - wrote < buffer.Length {
        var copy := FillBuffer(data, wrote);
        wrote := wrote + copy;
      }
      ghost var from, w := wrote, written;
      ok := FlushFull();
      if !ok {
        return;
      }
      ok, wrote := WriteWhole(data, wrote);
      if ok {
        assert data[wrote0..wrote] == data[wrote0..from] + data[from..wrote];
        Associative(old(written), data[wrote0..from], data[from..wrote]);
      }
    }

    // mtd_write_data (mtdutils.c:469-496): it fails exactly when it runs out of good blocks.
    method WriteData(data: seq<byte>) returns (ok: bool)
      requires Valid() && Ready()
      modifies flash, buffer, this
      ensures Ready() && ok == (|data| < old(Room()))
      ensures ok ==> Valid() && written == old(written) + data && Room() == old(Room()) - |data|
    {
      var wrote := 0;
      while wrote < |data|
        invariant Valid() && Ready() && 0 <= wrote <= |data|
        invariant written == old(written) + data[..wrote] && Room() == old(Room()) - wrote
      {
        ghost var from := wrote;
        ok, wrote := WriteTurn(data, wrote);
        if !ok {
          return;
        }
        assert data[..wrote] == data[..from] + data[from..wrote];
        Associative(old(written), data[..from], data[from..wrote]);
      }
      assert data[..wrote] == data;
      RoomLeft();
      ok := true;
    }

    // There is always room for what the buffer still takes.
    lemma RoomLeft()
      requires Valid()
      ensures Room() > 0
    {
      Units(Left(), Left() - 1, buffer.Length);
    }

    // Pad and write what is pending, to get to the end of a block (mtdutils.c:500-506).
    method FlushPending() returns (ok: bool)
      requires Valid() && Ready()
      modifies flash, buffer, this
      ensures Ready() && ok == (old(stored) == 0 || 0 < old(Left()))
      ensures ok ==> Valid() && stored == 0 && written == Padded(old(written), old(stored), buffer.Length)
    {
      ok := true;
      if stored > 0 {
        PadBuffer();
        ok := FlushFull();
      }
    }

    // mtd_erase_blocks (mtdutils.c:498-537): erase blocks behind what has been written, all
    // of them if the number is negative.
    method EraseBlocks(blocks: int) returns (end: int)
      requires Valid() && Ready()
      modifies flash, buffer, this
      ensures Ready()
              && (end >= 0 ==> Valid() && stored == 0 && written == Padded(old(written), old(stored), buffer.Length))
      ensures if (old(stored) > 0 && old(Left()) == 0) || blocks > |flash.kinds| - pos then end == -1
              else end == if blocks < 0 then |flash.kinds| else pos + blocks
    {
      var ok := FlushPending();
      if !ok {
        return -1;
      }
      var total := |flash.kinds| - pos;
      var n := if blocks < 0 then total else blocks;
      if n > total {
        return -1;
      }
      ghost var w := written;
      end := pos;
      while n > 0
        invariant Valid() && Ready() && 0 <= n <= |flash.kinds| - end && pos <= end && stored == 0 && written == w
        invariant end + n == if blocks < 0 then |flash.kinds| else pos + blocks
      {
        EraseOne(end);
        end := end + 1;
        n := n - 1;
      }
    }

    // Erase a block behind the descriptor, unless it is bad.
    method EraseOne(i: nat)
      requires Valid() && Ready() && pos <= i < |flash.kinds|
      modifies flash
      ensures Valid() && Ready() && OnFlash() == old(OnFlash())
    {
      if !flash.kinds[i].Bad? {
        ghost var b := flash.blocks;
        var _ := flash.Erase(i, 0);
        DataSame(b, flash.blocks, Usable(flash.kinds), 0, pos);
      }
    }

    // Fill the rest of the buffer with zeros.
    method PadBuffer()
      requires Valid() && Ready() && stored > 0
      modifies buffer, this`stored, this`written
      ensures Full() && stored == buffer.Length && written == Padded(old(written), old(stored), buffer.Length)
    {
      var at := stored;
      ghost var was := buffer[..at];
      while at < buffer.Length
        invariant stored <= at <= buffer.Length && stored == old(stored) && written == old(written)
        invariant buffer[..at] == was + seq(at - stored, _ => 0)
      {
        buffer[at] := 0;
        at := at + 1;
        assert buffer[..at] == buffer[..at - 1] + [0];
      }
      Associative(OnFlash(), was, seq(buffer.Length - stored, _ => 0));
      written := written + seq(buffer.Length - stored, _ => 0);
      stored := buffer.Length;
    }

    // mtd_write_close (mtdutils.c:539-549).
    method Close() returns (r: int)
      requires Valid() && Ready()
      modifies flash, buffer, this
      ensures r == if old(stored) > 0 && old(Left()) == 0 then -1 else 0
      ensures Ready() && (r == 0 ==> OnFlash() == Padded(old(written), old(stored), buffer.Length))
    {
      r := 0;
      var end := EraseBlocks(0);
      if end == -1 {
        r := -1;
      } else {
        assert buffer[..stored] == [];
      }
    }
  }

  // Data with its last block filled up with zeros; stored is the length of that block.
  function Padded(d: seq<byte>, stored: nat, size: nat): (p: seq<byte>)
    requires stored <= size
  {
    if stored == 0 then d else d + seq(size - stored, _ => 0)
  }

  // One block fewer, one block's worth less.
  lemma Units(n: nat, m: int, size: nat)
    ensures m == n - 1 ==> (m + 1) * size == (n + 1) * size - size
    ensures n == 0 ==> (n + 1) * size == size
    ensures size <= (n + 1) * size
  {
    assert (n + 1) * size == n * size + size;
  }

  // The blocks found bad so far are those before the descriptor that are not good, in order.
  ghost predicate Noted(bad: seq<nat>, kinds: seq<Kind>, pos: nat)
    requires pos <= |kinds|
  {
    && (forall i :: 0 <= i < |bad| ==> bad[i] < pos && !kinds[bad[i]].Good?)
    && (forall i, j :: 0 <= i < j < |bad| ==> bad[i] < bad[j])
    && (forall p :: 0 <= p < pos && !kinds[p].Good? ==> p in bad)
  }

  lemma NotedMore(bad: seq<nat>, bad': seq<nat>, kinds: seq<Kind>, pos: nat, pos': nat)
    requires pos < |kinds| && Noted(bad, kinds, pos) && pos' == pos + 1
    requires if kinds[pos].Good? then bad' == bad else bad' == bad + [pos]
    ensures Noted(bad', kinds, pos')
  {
    if !kinds[pos].Good? {
      assert bad'[|bad|] == pos;
      forall p | 0 <= p < pos && !kinds[p].Good?
        ensures p in bad'
      {
        assert p in bad;
      }
    }
  }

  // mtd_find_write_start (mtdutils.c:551-564): the first block at or after start that was
  // not found bad.
  method FindWriteStart(bad: seq<nat>, start: nat) returns (p: nat)
    requires forall i, j :: 0 <= i < j < |bad| ==> bad[i] < bad[j]
    ensures start <= p && p !in bad && forall q :: start <= q < p ==> q in bad
  {
    p := start;
    var i := 0;
    while i < |bad|
      invariant 0 <= i <= |bad| && start <= p && (forall j :: 0 <= j < i ==> bad[j] < p)
      invariant forall q :: start <= q < p ==> q in bad
    {
      if bad[i] == p {
        p := p + 1;
      } else if bad[i] > p {
        return;
      }
      i := i + 1;
    }
  }

  class ReadContext {
    const flash: Flash
    const buffer: array<byte>
    var consumed: nat
    var pos: nat

    ghost predicate Valid()
      reads this, flash, buffer
    {
      flash.Valid() && buffer.Length == flash.eraseSize && consumed <= buffer.Length && pos <= |flash.kinds|
    }

    // What is still to be read.
    ghost function Rest(): seq<byte>
      requires Valid()
      reads this, flash, buffer
    {
      buffer[consumed..] + OnFlash()
    }

    ghost function OnFlash(): seq<byte>
      requires flash.Valid() && pos <= |flash.kinds|
      reads this, flash
    {
      Data(flash.blocks, Legible(flash.kinds), pos, |flash.kinds|)
    }

    // mtd_read_partition.
    constructor (flash: Flash)
      requires flash.Valid()
      ensures Valid() && this.flash == flash && fresh(buffer)
      ensures Rest() == Data(flash.blocks, Legible(flash.kinds), 0, |flash.kinds|)
    {
      this.flash := flash;
      buffer := new byte[flash.eraseSize];
      consumed, pos := flash.eraseSize, 0;
      new;
      assert buffer[consumed..] == [];
    }

    // read_block (mtdutils.c:281-320): the next block that is not bad.
    method ReadBlock() returns (r: Option<seq<byte>>)
      requires Valid()
      modifies this`pos
      ensures Valid() && (r.None? ==> old(OnFlash()) == [])
      ensures r.Some? ==> |r.value| == flash.eraseSize && old(OnFlash()) == r.value + OnFlash()
    {
      while pos < |flash.kinds|
        invariant Valid() && OnFlash() == old(OnFlash())
      {
        DataFront(flash.blocks, Legible(flash.kinds), pos, |flash.kinds|);
        pos := pos + 1;
        if !flash.kinds[pos - 1].Bad? {
          return Some(flash.blocks[pos - 1]);
        }
        assert [] + OnFlash() == OnFlash();
      }
      r := None;
    }

    // Copy what the buffer still has (mtdutils.c:326-332).
    method Drain(data: array<byte>, read: nat, len: nat) returns (copy: nat)
      requires Valid() && read < len <= data.Length && data != buffer
      modifies data, this`consumed
      ensures Valid()
              && copy == if len - read < buffer.Length - old(consumed) then len - read
                         else buffer.Length - old(consumed)
      ensures consumed == old(consumed) + copy
              && data[..] == old(data[..read]) + old(buffer[consumed..])[..copy] + old(data[read + copy..])
    {
      copy := if len - read < buffer.Length - consumed then len - read else buffer.Length - consumed;
      ghost var was, rest, at := data[..], buffer[consumed..], consumed;
      var i := 0;
      while i < copy
        invariant 0 <= i <= copy && consumed == at && buffer[at..] == rest
        invariant data[..] == was[..read] + rest[..i] + was[read + i..]
      {
        CopyOne(was, rest, read, i);
        data[read + i] := buffer[consumed + i];
        i := i + 1;
      }
      consumed := consumed + copy;
    }

    // Put a whole block into the caller's buffer.
    method Place(data: array<byte>, read: nat, block: seq<byte>)
      requires read + |block| <= data.Length
      modifies data
      ensures data[..] == old(data[..read]) + block + old(data[read + |block|..])
    {
      ghost var was := data[..];
      var i := 0;
      while i < |block|
        invariant 0 <= i <= |block| && data[..] == was[..read] + block[..i] + was[read + i..]
      {
        CopyOne(was, block, read, i);
        data[read + i] := block[i];
        i := i + 1;
      }
      assert block[..i] == block;
    }

    // The caller has received the bytes from a to b of what there was, and the rest follows.
    ghost predicate Received(was: seq<byte>, data: seq<byte>, whole: seq<byte>, read: nat, rest: seq<byte>)
    {
      read <= |data| == |was| && data[read..] == was[read..] && whole == data[..read] + rest
    }

    lemma ReceiveMore(was: seq<byte>, data: seq<byte>, whole: seq<byte>, read: nat, rest: seq<byte>, piece: seq<byte>,
                      data': seq<byte>, rest': seq<byte>)
      requires Received(was, data, whole, read, rest) && read + |piece| <= |data|
      requires rest == piece + rest' && data' == data[..read] + piece + data[read + |piece|..]
      ensures Received(was, data', whole, read + |piece|, rest')
    {
      assert data'[..read + |piece|] == data[..read] + piece;
      assert data[read + |piece|..] == data[read..][|piece|..] && was[read + |piece|..] == was[read..][|piece|..];
      Associative(data[..read], piece, rest');
    }

    // Drain the buffer into the caller's (the first step of a turn).
    method TakeBuffered(data: array<byte>, read0: nat, len: nat, ghost was: seq<byte>, ghost whole: seq<byte>)
      returns (read: nat)
      requires Valid() && read0 < len <= data.Length && data != buffer && Received(was, data[..], whole, read0, Rest())
      modifies data, this`consumed
      ensures Valid() && read0 <= read <= len && Received(was, data[..], whole, read, Rest())
      ensures read == len || consumed == buffer.Length
      ensures read > read0 || old(consumed) == buffer.Length
    {
      read := read0;
      if consumed < buffer.Length {
        ghost var d, rest, b, at := data[..], Rest(), buffer[consumed..], consumed;
        var copy := Drain(data, read, len);
        assert buffer[consumed..] == b[copy..];
        assert b == b[..copy] + b[copy..];
        Associative(b[..copy], b[copy..], OnFlash());
        ReceiveMore(was, d, whole, read, rest, b[..copy], data[..], Rest());
        read := read + copy;
      }
    }

    // Read whole blocks straight into the caller's buffer (mtdutils.c:334-339).
    method TakeWhole(data: array<byte>, read0: nat, len: nat, ghost was: seq<byte>, ghost whole: seq<byte>)
      returns (ok: bool, read: nat)
      requires Valid() && read0 <= len <= data.Length && data != buffer && Received(was, data[..], whole, read0, Rest())
      modifies data, this`pos
      ensures Valid() && read0 <= read <= len && (ok ==> Received(was, data[..], whole, read, Rest()))
      ensures ok && consumed == buffer.Length ==> len - read < buffer.Length
      ensures consumed < buffer.Length ==> ok && read == read0
      ensures !ok ==> |whole| < len
    {
      read, ok := read0, true;
      while consumed == buffer.Length && len - read >= buffer.Length
        invariant Valid() && read0 <= read <= len && Received(was, data[..], whole, read, Rest())
        invariant consumed < buffer.Length ==> read == read0
      {
        ghost var d, rest := data[..], Rest();
        assert buffer[consumed..] == [];
        var block := ReadBlock();
        if block.None? {
          assert |whole| == read;
          return false, read;
        }
        Place(data, read, block.value);
        assert rest == block.value + Rest();
        ReceiveMore(was, d, whole, read, rest, block.value, data[..], Rest());
        read := read + buffer.Length;
      }
    }

    // Read the next block into the context's buffer (mtdutils.c:345-349).
    method Refill() returns (ok: bool)
      requires Valid() && consumed == buffer.Length
      modifies this`pos, this`consumed, buffer
      ensures Valid() && (if ok then consumed == 0 && Rest() == old(Rest()) else old(Rest()) == [])
    {
      assert buffer[consumed..] == [];
      var block := ReadBlock();
      if block.None? {
        return false;
      }
      Place(buffer, 0, block.value);
      assert buffer[..] == block.value;
      consumed := 0;
      return true;
    }

    // mtd_read_data (mtdutils.c:322-353): len bytes, or -1 when there are not so many.
    method ReadData(data: array<byte>, len: nat) returns (read: int)
      requires Valid() && len <= data.Length && data != buffer
      modifies this`consumed, this`pos, buffer, data
      ensures Valid() && read == if len <= |old(Rest())| then len else -1
      ensures read == len ==> old(Rest()) == data[..len] + Rest() && data[len..] == old(data[len..])
    {
      ghost var was, whole := data[..], Rest();
      assert [] + whole == whole;
      var got := 0;
      while got < len
        invariant Valid() && 0 <= got <= len && Received(was, data[..], whole, got, Rest())
        decreases len - got, consumed
      {
        ghost var c := consumed;
        got := TakeBuffered(data, got, len, was, whole);
        var ok;
        ok, got := TakeWhole(data, got, len, was, whole);
        if !ok {
          return -1;
        }
        if got >= len {
          break;
        }
        if consumed == buffer.Length {
          ok := Refill();
          if !ok {
            return -1;
          }
        }
      }
      return len;
    }
  }

  lemma {:induction false} DataSplit(blocks: seq<seq<byte>>, keep: seq<bool>, lo: nat, mid: nat, hi: nat)
    requires lo <= mid <= hi <= |blocks| == |keep|
    ensures Data(blocks, keep, lo, hi) == Data(blocks, keep, lo, mid) + Data(blocks, keep, mid, hi)
    decreases hi
  {
    if mid < hi {
      DataSplit(blocks, keep, lo, mid, hi - 1);
      Associative(Data(blocks, keep, lo, mid), Data(blocks, keep, mid, hi - 1),
                  if keep[hi - 1] then blocks[hi - 1] else []);
    } else {
      assert Data(blocks, keep, lo, mid) + [] == Data(blocks, keep, lo, mid);
    }
  }

  function Sum(ns: seq<nat>): (n: nat)
  {
    if ns == [] then 0 else Sum(ns[..|ns| - 1]) + ns[|ns| - 1]
  }

  lemma {:induction false} ConcatGrows(ds: seq<seq<byte>>, i: nat)
    requires i <= |ds|
    ensures |Concat(ds[..i])| <= |Concat(ds)|
    decreases |ds| - i
  {
    if i < |ds| {
      ConcatNext(ds, i);
      ConcatGrows(ds, i + 1);
    } else {
      assert ds[..i] == ds;
    }
  }

  // p is d, with zeros to fill up the last block.
  ghost predicate ZeroFilled(d: seq<byte>, p: seq<byte>, size: nat)
  {
    d <= p && |p| < |d| + size && forall i :: |d| <= i < |p| ==> p[i] == 0
  }

  // Write the pieces, one after the other.
  method WritePieces(ctx: WriteContext, pieces: seq<seq<byte>>) returns (ok: bool)
    requires ctx.Valid() && ctx.Ready() && ctx.written == []
    modifies ctx, ctx.flash, ctx.buffer
    ensures ctx.Ready() && ok == (|Concat(pieces)| < old(ctx.Room()))
    ensures ok ==> ctx.Valid() && ctx.written == Concat(pieces) && ctx.Room() == old(ctx.Room()) - |Concat(pieces)|
  {
    var i := 0;
    ctx.RoomLeft();
    while i < |pieces|
      invariant 0 <= i <= |pieces| && ctx.Valid() && ctx.Ready()
      invariant ctx.written == Concat(pieces[..i]) && ctx.Room() == old(ctx.Room()) - |ctx.written|
    {
      ConcatNext(pieces, i);
      ConcatGrows(pieces, i + 1);
      ok := ctx.WriteData(pieces[i]);
      if !ok {
        return;
      }
      i := i + 1;
    }
    assert pieces[..i] == pieces;
    ctx.RoomLeft();
    ok := true;
  }

  // Close, and see what is on the flash.
  method CloseContext(ctx: WriteContext, ghost total: nat) returns (ok: bool)
    requires ctx.Valid() && ctx.Ready() && ctx.Room() == (total + 1) * ctx.flash.eraseSize - |ctx.written|
    modifies ctx, ctx.flash, ctx.buffer
    ensures ctx.flash.Valid() && ctx.pos <= |ctx.flash.kinds| && GivenUp(ctx.flash, ctx.pos)
            && ok == (|old(ctx.written)| <= total * ctx.flash.eraseSize)
    ensures ok ==> ZeroFilled(old(ctx.written), ctx.OnFlash(), ctx.flash.eraseSize)
  {
    CloseFits(total, ctx.Left(), ctx.flash.eraseSize, ctx.stored, |ctx.written|);
    ghost var d, stored := ctx.written, ctx.stored;
    var r := ctx.Close();
    ok := r == 0;
    PaddedFills(d, stored, ctx.flash.eraseSize);
  }

  lemma PaddedFills(d: seq<byte>, stored: nat, size: nat)
    requires stored < size
    ensures ZeroFilled(d, Padded(d, stored, size), size)
  {
    assert Padded(d, stored, size)[..|d|] == d;
  }

  // Write all pieces and close.
  method WriteAll(flash: Flash, pieces: seq<seq<byte>>) returns (ok: bool, ghost end: nat)
    requires flash.Valid()
    modifies flash
    ensures flash.Valid() && end <= |flash.kinds| && GivenUp(flash, end)
    ensures ok == (|Concat(pieces)| <= Count(Usable(flash.kinds), 0, |flash.kinds|) * flash.eraseSize)
    ensures ok ==> ZeroFilled(Concat(pieces), Data(flash.blocks, Usable(flash.kinds), 0, end), flash.eraseSize)
  {
    var ctx := new WriteContext(flash);
    ghost var total := ctx.Left();
    Units(total, total - 1, flash.eraseSize);
    assert total * flash.eraseSize < (total + 1) * flash.eraseSize;
    end := 0;
    ok := WritePieces(ctx, pieces);
    if ok {
      ok := CloseContext(ctx, total);
      end := ctx.pos;
    }
  }

  lemma CloseFits(total: nat, left: nat, size: nat, stored: nat, len: nat)
    requires stored < size && (left + 1) * size - stored == (total + 1) * size - len
    ensures (stored == 0 || 0 < left) <==> len <= total * size
  {
    assert (total + 1) * size == total * size + size && (left + 1) * size == left * size + size;
    if left > 0 {
      assert left * size >= size;
    }
  }

  // Read the given numbers of bytes, one after the other.
  method ReadAll(flash: Flash, lens: seq<nat>) returns (ok: bool, out: seq<byte>)
    requires flash.Valid()
    ensures var d := Data(flash.blocks, Legible(flash.kinds), 0, |flash.kinds|);
            ok == (Sum(lens) <= |d|) && (ok ==> out == d[..Sum(lens)])
  {
    var ctx := new ReadContext(flash);
    ghost var d := ctx.Rest();
    out := [];
    var i := 0;
    while i < |lens|
      invariant 0 <= i <= |lens| && fresh(ctx) && fresh(ctx.buffer) && ctx.flash == flash && ctx.Valid()
      invariant d == out + ctx.Rest() && |out| == Sum(lens[..i]) && flash.blocks == old(flash.blocks)
    {
      assert lens[..i + 1][..i] == lens[..i];
      var data := new byte[lens[i]];
      ghost var rest := ctx.Rest();
      var read := ctx.ReadData(data, lens[i]);
      if read < 0 {
        SumGrows(lens, i + 1);
        return false, out;
      }
      assert data[..read] == data[..];
      Associative(out, data[..], ctx.Rest());
      out := out + data[..];
      i := i + 1;
    }
    assert lens[..i] == lens;
    ok := true;
  }

  lemma {:induction false} SumGrows(ns: seq<nat>, i: nat)
    requires i <= |ns|
    ensures Sum(ns[..i]) <= Sum(ns)
    decreases |ns| - i
  {
    if i < |ns| {
      assert ns[..i + 1][..i] == ns[..i];
      SumGrows(ns, i + 1);
    } else {
      assert ns[..i] == ns;
    }
  }

  // The first worn block, or the number of blocks.
  function FirstWorn(kinds: seq<Kind>): (w: nat)
    ensures w <= |kinds| && (forall i :: 0 <= i < w ==> !kinds[i].Worn?) && (w < |kinds| ==> kinds[w].Worn?)
  {
    if kinds == [] then 0
    else if kinds[0].Worn? then 0
    else
      var w := FirstWorn(kinds[1..]);
      assert forall i {:trigger kinds[i]} :: 0 < i <= w && i < |kinds| ==> kinds[i] == kinds[1..][i - 1];
      1 + w
  }

  lemma {:induction false} SameBefore(blocks: seq<seq<byte>>, a: seq<bool>, b: seq<bool>, hi: nat)
    requires hi <= |blocks| == |a| == |b| && forall i :: 0 <= i < hi ==> a[i] == b[i]
    ensures Data(blocks, a, 0, hi) == Data(blocks, b, 0, hi)
  {
    if hi > 0 {
      SameBefore(blocks, a, b, hi - 1);
    }
  }

  // The blocks before w hold the beginning of what lies in the good blocks before end.
  lemma GoodBefore(blocks: seq<seq<byte>>, keep: seq<bool>, d: seq<byte>, w: nat, end: nat, n: nat)
    requires w <= |blocks| == |keep| && end <= |blocks| && d <= Data(blocks, keep, 0, end)
    requires n <= |d| && n <= |Data(blocks, keep, 0, w)|
    ensures Data(blocks, keep, 0, w)[..n] == d[..n]
  {
    if w <= end {
      DataSplit(blocks, keep, 0, w, end);
    } else {
      DataSplit(blocks, keep, 0, end, w);
    }
    assert d[..n] == Data(blocks, keep, 0, end)[..n];
  }

  // Up to the first worn block what is read is what was written.
  lemma ReadBefore(blocks: seq<seq<byte>>, kinds: seq<Kind>, d: seq<byte>, end: nat, n: nat)
    requires |blocks| == |kinds| && end <= |blocks| && d <= Data(blocks, Usable(kinds), 0, end)
    requires n <= |d| && n <= |Data(blocks, Usable(kinds), 0, FirstWorn(kinds))|
    ensures n <= |Data(blocks, Legible(kinds), 0, |kinds|)| && Data(blocks, Legible(kinds), 0, |kinds|)[..n] == d[..n]
  {
    var w := FirstWorn(kinds);
    SameBefore(blocks, Usable(kinds), Legible(kinds), w);
    DataSplit(blocks, Legible(kinds), 0, w, |kinds|);
    GoodBefore(blocks, Usable(kinds), d, w, end, n);
  }

  // Behind it the worn block itself is read.
  lemma ReadBeyond(blocks: seq<seq<byte>>, kinds: seq<Kind>, w: nat)
    requires |blocks| == |kinds| && w == FirstWorn(kinds) < |kinds| && blocks[w] != []
    ensures var d, at := Data(blocks, Legible(kinds), 0, |kinds|), |Data(blocks, Usable(kinds), 0, w)|;
            at < |d| && d[at] == blocks[w][0]
  {
    SameBefore(blocks, Usable(kinds), Legible(kinds), w);
    DataSplit(blocks, Legible(kinds), 0, w, |kinds|);
    DataFront(blocks, Legible(kinds), w, |kinds|);
  }

  // Data that does not fit before the first worn block goes behind it.
  lemma WrittenPast(blocks: seq<seq<byte>>, kinds: seq<Kind>, d: seq<byte>, end: nat)
    requires |blocks| == |kinds| && end <= |blocks| && d <= Data(blocks, Usable(kinds), 0, end)
    requires |Data(blocks, Usable(kinds), 0, FirstWorn(kinds))| < |d|
    ensures FirstWorn(kinds) < end
  {
    if end <= FirstWorn(kinds) {
      DataSplit(blocks, Usable(kinds), 0, end, FirstWorn(kinds));
    }
  }

  // How much fits before the first worn block.
  function Sure(kinds: seq<Kind>, size: nat): (n: nat)
  {
    size * Count(Usable(kinds), 0, FirstWorn(kinds))
  }

  // What reading n bytes gives after the data was written.
  lemma ReadBack(flash: Flash, d: seq<byte>, end: nat, n: nat)
    requires flash.Valid() && end <= |flash.kinds| && GivenUp(flash, end) && n <= |d|
    requires d <= Data(flash.blocks, Usable(flash.kinds), 0, end)
    ensures var all := Data(flash.blocks, Legible(flash.kinds), 0, |flash.kinds|);
            var sure := Sure(flash.kinds, flash.eraseSize);
            && n <= |all|
            && (n <= sure ==> all[..n] == d[..n])
            && (n > sure && flash.tidy && 0xff !in d ==> all[..n] != d[..n])
  {
    var w, b := FirstWorn(flash.kinds), flash.blocks;
    DataSize(b, Usable(flash.kinds), 0, w, flash.eraseSize);
    UsableFits(b, flash.kinds, d, end);
    if n <= Sure(flash.kinds, flash.eraseSize) {
      ReadBefore(b, flash.kinds, d, end, n);
    } else {
      WrittenPast(b, flash.kinds, d, end);
      ReadBeyond(b, flash.kinds, w);
      var all, sure := Data(b, Legible(flash.kinds), 0, |flash.kinds|), Sure(flash.kinds, flash.eraseSize);
      if flash.tidy && 0xff !in d {
        assert b[w] == Blank(flash.eraseSize) && all[sure] == 0xff && d[sure] in d;
        assert all[..n][sure] != d[..n][sure];
      }
    }
  }

  // However the data is cut up for writing and for reading, what is read is what was written,
  // as far as the first worn block.  Behind it, it is not: if given-up blocks are left erased
  // and the data holds no 0xff, the first byte behind it is wrong.
  method RoundTrip(flash: Flash, pieces: seq<seq<byte>>, lens: seq<nat>) returns (ok: bool, out: seq<byte>)
    requires flash.Valid() && Sum(lens) <= |Concat(pieces)|
    modifies flash
    ensures ok == (|Concat(pieces)| <= Count(Usable(flash.kinds), 0, |flash.kinds|) * flash.eraseSize)
    ensures ok ==> |out| == Sum(lens)
    ensures ok && Sum(lens) <= Sure(flash.kinds, flash.eraseSize) ==> out == Concat(pieces)[..Sum(lens)]
    ensures ok && flash.tidy && 0xff !in Concat(pieces) ==>
              (out == Concat(pieces)[..Sum(lens)] <==> Sum(lens) <= Sure(flash.kinds, flash.eraseSize))
  {
    ghost var end, d := 0, Concat(pieces);
    out := [];
    ok, end := WriteAll(flash, pieces);
    if ok {
      var all;
      all, out := ReadAll(flash, lens);
      ReadBack(flash, d, end, Sum(lens));
    }
  }

  lemma {:induction false} LegibleMore(blocks: seq<seq<byte>>, kinds: seq<Kind>, hi: nat)
    requires hi <= |blocks| == |kinds|
    ensures |Data(blocks, Usable(kinds), 0, hi)| <= |Data(blocks, Legible(kinds), 0, hi)|
  {
    if hi > 0 {
      LegibleMore(blocks, kinds, hi - 1);
    }
  }

  // There is always something to read in the place of what was written.
  lemma UsableFits(blocks: seq<seq<byte>>, kinds: seq<Kind>, d: seq<byte>, end: nat)
    requires end <= |blocks| == |kinds| && d <= Data(blocks, Usable(kinds), 0, end)
    ensures |d| <= |Data(blocks, Legible(kinds), 0, |kinds|)|
  {
    DataSplit(blocks, Usable(kinds), 0, end, |kinds|);
    LegibleMore(blocks, kinds, |kinds|);
  }

  // A run in which one byte is written behind a worn block, and what is read is the worn
  // block.
  method WornMisleads() returns (ok: bool, out: seq<byte>)
    ensures ok && out != [1] && |out| == 1
  {
    var flash := new Flash(1, [Worn, Good], true, [[9], [9]]);
    ghost var k := Usable(flash.kinds);
    assert FirstWorn(flash.kinds) == 0 && Count(k, 0, 0) == 0 && Count(k, 0, 1) == 0 && Count(k, 0, 2) == 1;
    ConcatOne([1 as byte]);
    assert Sum([1]) == 1 by {
      assert [1][..0] == [];
    }
    ok, out := RoundTrip(flash, [[1]], [1]);
    assert Concat([[1 as byte]]) == [1] && [1][..1] == [1];
  }
}
