// The open-addressing hash table of minzip (minzip/Hash.c): linear probing, tombstones, and
// doubling when five eighths of the slots are taken.
module HashTable {
  import opened Bytes

  datatype Slot<T> = Empty | Tombstone | Live(hash: nat, data: T)

  const LOAD_NUMER := 5
  const LOAD_DENOM := 8

  // The size for a table that will hold size entries (Hash.c:26-28): the least of which they
  // take less than five eighths.
  function HashSize(size: nat): (n: nat)
    ensures (n - 1) * 5 <= size * 8 < n * 5
  {
    size * LOAD_DENOM / LOAD_NUMER + 1
  }

  // The slot a hash belongs in.  The table size is a power of two, so that masking with
  // size - 1 is taking the remainder.
  function Home(h: nat, size: nat): (i: nat)
    requires size > 0
    ensures i < size
  {
    h % size
  }

  function Next(i: nat, size: nat): (j: nat)
    requires i < size
    ensures j < size
  {
    if i + 1 == size then 0 else i + 1
  }

  // How many steps of Next lead from i to j.
  function Dist(i: nat, j: nat, size: nat): (d: nat)
    requires i < size && j < size
    ensures d < size
  {
    if i <= j then j - i else j + size - i
  }

  // Probing for h passes slot j on its way to slot i.
  predicate Before(h: nat, j: int, i: int, size: nat)
  {
    0 <= i < size && 0 <= j < size && Dist(Home(h, size), j, size) < Dist(Home(h, size), i, size)
  }

  // The slots are probed from the hash modulo the size on, one after the other and around.
  lemma BeforeIs(h: nat, e: nat, d: nat, size: nat)
    requires e < size && d < size
    ensures Before(h, (h + e) % size, (h + d) % size, size) <==> e < d
  {
    var i, j := (h + e) % size, (h + d) % size;
    StepsOn(h, e, size);
    StepsOn(h, d, size);
    Wraps(h % size, e, i, size);
    Wraps(h % size, d, j, size);
  }

  lemma Wraps(home: nat, e: nat, i: nat, size: nat)
    requires home < size && e < size && i == if home + e < size then home + e else home + e - size
    ensures i < size && Dist(home, i, size) == e
  {
  }

  lemma NextIs(h: nat, e: nat, size: nat)
    requires e < size
    ensures Next((h + e) % size, size) == (h + (e + 1)) % size
  {
    StepsOn(h, e, size);
    if e + 1 < size {
      StepsOn(h, e + 1, size);
    } else {
      RemainderIs(h + size, size, h / size + 1, h % size);
    }
  }

  lemma StepsOn(h: nat, e: nat, size: nat)
    requires e < size
    ensures var home := h % size;
            (h + e) % size == if home + e < size then home + e else home + e - size
  {
    var home, q := h % size, h / size;
    if home + e < size {
      RemainderIs(h + e, size, q, home + e);
    } else {
      RemainderIs(h + e, size, q + 1, home + e - size);
    }
  }

  lemma RemainderIs(x: nat, size: nat, k: nat, r: nat)
    requires 0 < size && x == size * k + r && r < size
    ensures x % size == r
  {
    var k', r' := x / size, x % size;
    if k < k' {
      Larger(size, k, k');
    } else if k' < k {
      Larger(size, k', k);
    }
  }

  lemma Larger(size: nat, m: nat, n: nat)
    requires m < n
    ensures size * m + size <= size * n
  {
    assert size * n == size * m + size * (n - m);
    assert size * (n - m) == size + size * (n - m - 1);
  }

  function Lives<T>(s: seq<Slot<T>>): (n: nat)
    ensures n <= |s|
  {
    if s == [] then 0 else (if s[0].Live? then 1 else 0) + Lives(s[1..])
  }

  function Deads<T>(s: seq<Slot<T>>): (n: nat)
    ensures Lives(s) + n <= |s|
  {
    if s == [] then 0 else (if s[0].Tombstone? then 1 else 0) + Deads(s[1..])
  }

  lemma {:induction false} CountsUpdate<T>(s: seq<Slot<T>>, i: nat, x: Slot<T>)
    requires i < |s|
    ensures Lives(s[i := x]) == Lives(s) - (if s[i].Live? then 1 else 0) + (if x.Live? then 1 else 0)
    ensures Deads(s[i := x]) == Deads(s) - (if s[i].Tombstone? then 1 else 0) + (if x.Tombstone? then 1 else 0)
  {
    if i == 0 {
      assert s[0 := x][1..] == s[1..];
    } else {
      CountsUpdate(s[1..], i - 1, x);
      assert s[i := x][1..] == s[1..][i - 1 := x];
    }
  }

  // A table that is not full has an empty slot.
  lemma {:induction false} SomeEmpty<T>(s: seq<Slot<T>>) returns (e: nat)
    requires Lives(s) + Deads(s) < |s|
    ensures e < |s| && s[e].Empty?
  {
    if s[0].Empty? {
      e := 0;
    } else {
      e := SomeEmpty(s[1..]);
      e := e + 1;
    }
  }

  lemma {:induction false} NoneCounted<T>(s: seq<Slot<T>>)
    requires forall i :: 0 <= i < |s| ==> s[i].Empty?
    ensures Lives(s) == 0 && Deads(s) == 0
  {
    if s != [] {
      NoneCounted(s[1..]);
    }
  }

  // What the table holds.
  function Contents<T(==,!new)>(s: seq<Slot<T>>): (c: set<(nat, T)>)
    ensures forall h: nat, d :: (h, d) in c <==> Live(h, d) in s
  {
    set i | 0 <= i < |s| && s[i].Live? :: (s[i].hash, s[i].data)
  }

  // An entry with this hash matches the item.
  ghost predicate Holds<T(!new)>(c: set<(nat, T)>, same: (T, T) -> bool, h: nat, item: T)
  {
    exists d :: (h, d) in c && same(d, item)
  }

  // Every entry is reached by probing from its home without meeting an empty slot.
  ghost predicate Reachable<T>(s: seq<Slot<T>>)
  {
    forall i, j {:trigger s[i], s[j]} :: 0 <= i < |s| && 0 <= j < |s| && s[i].Live? && Before(s[i].hash, j, i, |s|) ==>
      !s[j].Empty?
  }

  // No two entries match.
  ghost predicate Unique<T(!new)>(s: seq<Slot<T>>, same: (T, T) -> bool)
  {
    forall i, j {:trigger s[i], s[j]} :: 0 <= i < |s| && 0 <= j < |s| && i != j && s[i].Live? && s[j].Live? ==>
      s[i].hash != s[j].hash || !same(s[i].data, s[j].data)
  }

  ghost predicate Equivalence<T(!new)>(same: (T, T) -> bool)
  {
    && (forall x :: same(x, x))
    && (forall x, y :: same(x, y) ==> same(y, x))
    && (forall x, y, z :: same(x, y) && same(y, z) ==> same(x, z))
  }

  // The slot holds an entry that matches.
  predicate Matches<T>(x: Slot<T>, h: nat, item: T, same: (T, T) -> bool)
  {
    x.Live? && x.hash == h && same(x.data, item)
  }

  // Probing from the home of h has come to slot i without meeting an empty slot.
  ghost predicate Probed<T>(s: seq<Slot<T>>, h: nat, i: nat)
  {
    i < |s| && forall j {:trigger s[j]} :: 0 <= j < |s| && Before(h, j, i, |s|) ==> !s[j].Empty?
  }

  // A new entry where probing meets an empty slot leaves all entries reachable.
  lemma InsertReachable<T(!new)>(s: seq<Slot<T>>, h: nat, i: nat, item: T)
    requires Reachable(s) && Probed(s, h, i) && s[i].Empty?
    ensures Reachable(s[i := Live(h, item)])
  {
  }

  lemma InsertUnique<T(!new)>(s: seq<Slot<T>>, h: nat, i: nat, item: T, same: (T, T) -> bool)
    requires Unique(s, same) && Equivalence(same) && i < |s|
    requires forall j {:trigger s[j]} :: 0 <= j < |s| ==> !Matches(s[j], h, item, same)
    ensures Unique(s[i := Live(h, item)], same)
  {
  }

  lemma InsertContents<T(!new)>(s: seq<Slot<T>>, h: nat, i: nat, item: T)
    requires i < |s| && s[i].Empty?
    ensures Contents(s[i := Live(h, item)]) == Contents(s) + {(h, item)}
  {
    var t := s[i := Live(h, item)];
    forall g: nat, d
      ensures (g, d) in Contents(t) <==> (g, d) in Contents(s) + {(h, item)}
    {
      if Live(g, d) in s {
        var k :| 0 <= k < |s| && s[k] == Live(g, d);
        assert t[k] == Live(g, d);
      }
      assert t[i] == Live(h, item);
    }
  }

  // An entry that probing does not find before an empty slot is not there.
  lemma NotThere<T(!new)>(s: seq<Slot<T>>, h: nat, i: nat, item: T, same: (T, T) -> bool)
    requires Reachable(s) && i < |s| && s[i].Empty?
    requires forall j {:trigger s[j]} :: 0 <= j < |s| && Before(h, j, i, |s|) ==> !Matches(s[j], h, item, same)
    ensures forall j {:trigger s[j]} :: 0 <= j < |s| ==> !Matches(s[j], h, item, same)
  {
  }

  // Probing for h comes to slot i, and the item is there, under whatever hash.
  ghost predicate Met<T(!new)>(s: seq<Slot<T>>, h: nat, item: T, i: nat)
  {
    Probed(s, h, i) && s[i].Live? && s[i].data == item
  }

  // An item is met from every hash that has the home of its own.
  lemma MetFrom<T(!new)>(s: seq<Slot<T>>, g: nat, h: nat, item: T)
    requires 0 < |s| && Reachable(s) && (g, item) in Contents(s) && Home(g, |s|) == Home(h, |s|)
    ensures exists i: nat :: Met(s, h, item, i)
  {
    assert Live(g, item) in s;
    var i: nat :| i < |s| && s[i] == Live(g, item);
    forall j {:trigger s[j]} | 0 <= j < |s| && Before(h, j, i, |s|)
      ensures !s[j].Empty?
    {
      assert Before(s[i].hash, j, i, |s|);
    }
    assert Met(s, h, item, i);
  }

  // An item that probing does not meet before an empty slot is not met at all.
  lemma NotMet<T(!new)>(s: seq<Slot<T>>, h: nat, i: nat, item: T)
    requires i < |s| && s[i].Empty?
    requires forall j {:trigger s[j]} :: 0 <= j < |s| && Before(h, j, i, |s|) ==> s[j].Live? ==> s[j].data != item
    ensures forall k: nat :: !Met(s, h, item, k)
  {
    forall k: nat | k < |s|
      ensures !Met(s, h, item, k)
    {
      assert Before(h, k, i, |s|) || Before(h, i, k, |s|) || i == k;
    }
  }

  // The first place where probing for h meets the item.
  ghost predicate FirstMet<T(!new)>(s: seq<Slot<T>>, h: nat, item: T, i: nat)
  {
    && Met(s, h, item, i)
    && forall j {:trigger s[j]} :: 0 <= j < |s| && Before(h, j, i, |s|) ==> s[j].Live? ==> s[j].data != item
  }

  lemma FirstMetUnique<T(!new)>(s: seq<Slot<T>>, h: nat, item: T, i: nat, j: nat)
    requires FirstMet(s, h, item, i) && FirstMet(s, h, item, j)
    ensures i == j
  {
    assert Before(h, i, j, |s|) || Before(h, j, i, |s|) || i == j;
  }

  // Taking away the item that is met first takes away the one that was asked for, and no
  // other, exactly if it was added under the hash that was asked for.
  lemma RemovesAsked<T(!new)>(s: seq<Slot<T>>, h: nat, item: T, i: nat, same: (T, T) -> bool)
    requires FirstMet(s, h, item, i) && Unique(s, same) && Equivalence(same)
    ensures (h, item) in Contents(s) && Contents(s[i := Tombstone]) == Contents(s) - {(h, item)} <==> s[i].hash == h
  {
    RemoveContents(s, i, same);
    assert s[i] == Live(s[i].hash, item);
  }

  // An item that is nowhere met was not added under this hash.
  lemma NothingMet<T(!new)>(s: seq<Slot<T>>, h: nat, item: T)
    requires 0 < |s| && Reachable(s) && forall i: nat :: !Met(s, h, item, i)
    ensures (h, item) !in Contents(s)
  {
    if (h, item) in Contents(s) {
      MetFrom(s, h, h, item);
    }
  }

  // An item in a table of 8 under the hashes 0 and 8: asked to remove it under 8, probing
  // meets it under 0 first.
  lemma AnotherMetFirst(s: seq<Slot<int>>)
    requires s == [Live(0, 7), Live(8, 7), Empty, Empty, Empty, Empty, Empty, Empty]
    ensures FirstMet(s, 8, 7, 0) && Contents(s[0 := Tombstone]) == {(8 as nat, 7)} && (8, 7) in Contents(s)
  {
    var t := s[0 := Tombstone];
    assert s[1] == Live(8, 7) && t[1] == Live(8, 7);
  }

  lemma RemoveReachable<T(!new)>(s: seq<Slot<T>>, i: nat)
    requires Reachable(s) && i < |s| && s[i].Live?
    ensures Reachable(s[i := Tombstone])
  {
  }

  lemma RemoveContents<T(!new)>(s: seq<Slot<T>>, i: nat, same: (T, T) -> bool)
    requires i < |s| && s[i].Live? && Unique(s, same) && Equivalence(same)
    ensures Contents(s[i := Tombstone]) == Contents(s) - {(s[i].hash, s[i].data)}
  {
    var t := s[i := Tombstone];
    forall g: nat, d
      ensures (g, d) in Contents(t) <==> (g, d) in Contents(s) - {(s[i].hash, s[i].data)}
    {
      if Live(g, d) in s && (g, d) != (s[i].hash, s[i].data) {
        var k :| 0 <= k < |s| && s[k] == Live(g, d);
        assert t[k] == Live(g, d);
      }
      if Live(g, d) in t {
        var k :| 0 <= k < |t| && t[k] == Live(g, d);
        assert s[k] == t[k];
      }
    }
  }

  class HashTable<T(==,!new)> {
    var tableSize: nat
    var numEntries: nat
    var numDeadEntries: nat
    var pEntries: array<Slot<T>>
    const same: (T, T) -> bool

    ghost predicate Valid()
      reads this, pEntries
    {
      && tableSize == pEntries.Length && 0 < tableSize
      && numEntries == Lives(pEntries[..]) && numDeadEntries == Deads(pEntries[..])
      && (numEntries + numDeadEntries) * LOAD_DENOM <= tableSize * LOAD_NUMER
      && Reachable(pEntries[..]) && Unique(pEntries[..], same) && Equivalence(same)
    }

    ghost function Items(): set<(nat, T)>
      reads this, pEntries
    {
      Contents(pEntries[..])
    }

    // mzHashTableCreate (Hash.c:51-72), given the size rounded up.
    constructor (size: nat, same: (T, T) -> bool)
      requires 0 < size && Equivalence(same)
      ensures Valid() && fresh(pEntries) && Items() == {} && tableSize == size && numEntries == 0 && numDeadEntries == 0
      ensures this.same == same
    {
      tableSize, numEntries, numDeadEntries, this.same := size, 0, 0, same;
      pEntries := new Slot<T>[size](_ => Empty);
      new;
      NoneCounted(pEntries[..]);
    }

    // The slot where probing for an item stops: at a match, or at an empty slot
    // (Hash.c:190-211).
    method Probe(h: nat, item: T) returns (i: nat)
      requires Valid()
      ensures i < tableSize && Probed(pEntries[..], h, i)
      ensures Matches(pEntries[i], h, item, same) || pEntries[i].Empty?
      ensures pEntries[i].Empty? ==> forall j {:trigger pEntries[..][j]} :: 0 <= j < tableSize ==>
                !Matches(pEntries[..][j], h, item, same)
    {
      ghost var s := pEntries[..];
      ghost var e := SomeEmpty(s);
      i := Home(h, tableSize);
      while !pEntries[i].Empty?
        invariant i < tableSize && Probed(s, h, i)
        invariant forall j {:trigger s[j]} :: 0 <= j < |s| && Before(h, j, i, |s|) ==> !Matches(s[j], h, item, same)
        decreases Dist(i, e, |s|)
      {
        if Matches(pEntries[i], h, item, same) {
          return;
        }
        // A table of one slot is always empty: its edge case does not arise.
        assert tableSize > 1;
        i := Next(i, tableSize);
      }
      NotThere(s, h, i, item, same);
    }

    // Every entry of the table can be found under its own hash.
    lemma Found(h: nat, item: T, i: nat)
      requires Valid() && i < tableSize && Matches(pEntries[i], h, item, same)
      ensures Holds(Items(), same, h, item)
    {
      assert pEntries[..][i] == Live(h, pEntries[i].data);
      assert (h, pEntries[i].data) in Items();
    }

    // mzHashTableLookup (Hash.c:179-248).  The table is doubled when the new entry fills it
    // too far.
    method Lookup(h: nat, item: T, doAdd: bool) returns (r: Option<T>)
      requires Valid()
      modifies this, pEntries
      ensures Valid() && (pEntries == old(pEntries) || fresh(pEntries))
      ensures r.Some? <==> doAdd || old(Holds(Items(), same, h, item))
      ensures r.Some? ==> (h, r.value) in Items() && same(r.value, item)
      ensures if doAdd && !old(Holds(Items(), same, h, item)) then
                Items() == old(Items()) + {(h, item)} && numEntries == old(numEntries) + 1 && r == Some(item)
              else Items() == old(Items()) && numEntries == old(numEntries)
      ensures if doAdd && !old(Holds(Items(), same, h, item))
                && (old(numEntries + numDeadEntries) + 1) * 8 > old(tableSize) * 5
              then tableSize == 2 * old(tableSize) && numDeadEntries == 0
              else tableSize == old(tableSize) && numDeadEntries == old(numDeadEntries)
    {
      ghost var s := pEntries[..];
      var i := Probe(h, item);
      if !pEntries[i].Empty? {
        Found(h, item, i);
        assert s[i] == Live(h, pEntries[i].data);
        return Some(pEntries[i].data);
      }
      forall d | (h, d) in Items()
        ensures !same(d, item)
      {
        var k :| 0 <= k < |s| && s[k] == Live(h, d);
      }
      if !doAdd {
        return None;
      }
      CountsUpdate(s, i, Live(h, item));
      InsertReachable(s, h, i, item);
      InsertUnique(s, h, i, item, same);
      InsertContents(s, h, i, item);
      pEntries[i] := Live(h, item);
      numEntries := numEntries + 1;
      assert pEntries[..] == s[i := Live(h, item)];
      if (numEntries + numDeadEntries) * LOAD_DENOM > tableSize * LOAD_NUMER {
        Resize(tableSize * 2);
      }
      return Some(item);
    }

    // What resizing asks of the table: all of Valid but the load.
    ghost predicate Sound()
      reads this, pEntries
    {
      && tableSize == pEntries.Length && 0 < tableSize
      && numEntries == Lives(pEntries[..]) && numDeadEntries == Deads(pEntries[..])
      && Reachable(pEntries[..]) && Unique(pEntries[..], same) && Equivalence(same)
    }

    // resizeHash (Hash.c:137-172): put every entry into a table of another size, and leave
    // the tombstones behind.
    method Resize(newSize: nat)
      requires Sound() && numEntries * LOAD_DENOM <= newSize * LOAD_NUMER && 0 < newSize
      modifies this
      ensures Valid() && fresh(pEntries) && Items() == old(Items()) && numEntries == old(numEntries)
      ensures tableSize == newSize && numDeadEntries == 0
    {
      var bigger := new Slot<T>[newSize](_ => Empty);
      NoneCounted(bigger[..]);
      ghost var s := pEntries[..];
      var i := 0;
      assert Contents(bigger[..]) == Contents(s[..0]);
      assert s[..0] == [];
      while i < tableSize
        invariant 0 <= i <= tableSize && pEntries[..] == s && bigger.Length == newSize && fresh(bigger)
        invariant Moved(s, i, bigger[..], same)
        invariant tableSize == old(tableSize) && numEntries == old(numEntries) && pEntries == old(pEntries)
      {
        if pEntries[i].Live? {
          MoveEntry(bigger, s, i, pEntries[i].hash, pEntries[i].data);
        } else {
          MovedSkips(s, i, bigger[..], same);
        }
        i := i + 1;
      }
      assert s[..tableSize] == s;
      pEntries := bigger;
      tableSize := newSize;
      numDeadEntries := 0;
    }

    // Put one entry of the old table into the new one (Hash.c:151-162).
    method MoveEntry(bigger: array<Slot<T>>, ghost s: seq<Slot<T>>, ghost i: nat, h: nat, d: T)
      requires i < |s| && s[i] == Live(h, d) && Moved(s, i, bigger[..], same) && Unique(s, same) && Equivalence(same)
      requires Lives(s) < bigger.Length
      modifies bigger
      ensures Moved(s, i + 1, bigger[..], same)
    {
      ghost var t := bigger[..];
      LivesMore(s, i);
      LivesSplit(s, i + 1);
      ghost var e := SomeEmpty(t);
      var k: nat := Home(h, bigger.Length);
      while !bigger[k].Empty?
        invariant k < bigger.Length && Probed(t, h, k) && bigger[..] == t
        decreases Dist(k, e, |t|)
      {
        k := Next(k, bigger.Length);
      }
      MovedOne(s, i, t, same, k);
      bigger[k] := Live(h, d);
      assert bigger[..] == t[k := Live(h, d)];
    }

    // The probing of mzHashTableRemove (Hash.c:262-282): look for an item by identity.
    method ProbeItem(h: nat, item: T) returns (found: bool, i: nat)
      requires Valid()
      ensures found ==> FirstMet(pEntries[..], h, item, i)
      ensures !found ==> forall k: nat :: !Met(pEntries[..], h, item, k)
    {
      ghost var s := pEntries[..];
      ghost var e := SomeEmpty(s);
      i := Home(h, tableSize);
      while !pEntries[i].Empty?
        invariant i < tableSize
        invariant forall j {:trigger s[j]} :: 0 <= j < |s| && Before(h, j, i, |s|) ==>
                    !s[j].Empty? && (s[j].Live? ==> s[j].data != item)
        decreases Dist(i, e, |s|)
      {
        if pEntries[i].Live? && pEntries[i].data == item {
          return true, i;
        }
        assert tableSize > 1;
        i := Next(i, tableSize);
      }
      NotMet(s, h, i, item);
      found := false;
    }

    // mzHashTableRemove (Hash.c:255-285).  It looks for the item by identity and does not
    // compare hashes: what it removes is the item where probing from h meets it, under
    // whatever hash it was added.
    method Remove(h: nat, item: T) returns (found: bool, ghost at: nat)
      requires Valid()
      modifies this, pEntries
      ensures Valid() && pEntries == old(pEntries) && tableSize == old(tableSize)
      ensures found ==> FirstMet(old(pEntries[..]), h, item, at)
      ensures found ==> pEntries[..] == old(pEntries[..])[at := Tombstone]
                        && Items() == old(Items()) - {(old(pEntries[..])[at].hash, item)}
      ensures !found ==> (forall i: nat :: !Met(old(pEntries[..]), h, item, i)) && (h, item) !in old(Items())
                         && pEntries[..] == old(pEntries[..])
      ensures (found <==> (h, item) in old(Items())) && Items() == old(Items()) - {(h, item)} <==>
              (found ==> old(pEntries[..])[at].hash == h)
      ensures (exists g :: (g, item) in old(Items()) && Home(g, old(tableSize)) == Home(h, old(tableSize))) ==> found
      ensures (forall g :: (g, item) in old(Items()) ==> g == h) ==>
                (found <==> (h, item) in old(Items())) && Items() == old(Items()) - {(h, item)}
      ensures numEntries + numDeadEntries == old(numEntries + numDeadEntries)
      ensures numEntries == old(numEntries) - if found then 1 else 0
    {
      ghost var s := pEntries[..];
      var i;
      found, i := ProbeItem(h, item);
      at := i;
      if g :| (g, item) in Contents(s) && Home(g, |s|) == Home(h, |s|) {
        MetFrom(s, g, h, item);
      }
      if found {
        RemovesAsked(s, h, item, i, same);
        assert s[i] == Live(s[i].hash, item);
        Bury(i);
      } else {
        NothingMet(s, h, item);
      }
    }

    // Leave a tombstone in the place of an entry.
    method Bury(i: nat)
      requires Valid() && i < tableSize && pEntries[i].Live?
      modifies this, pEntries
      ensures Valid() && pEntries == old(pEntries) && tableSize == old(tableSize)
      ensures pEntries[..] == old(pEntries[..])[i := Tombstone]
      ensures Items() == old(Items()) - {(old(pEntries[i].hash), old(pEntries[i].data))}
      ensures (old(pEntries[i].hash), old(pEntries[i].data)) in old(Items())
      ensures numEntries == old(numEntries) - 1 && numDeadEntries == old(numDeadEntries) + 1
    {
      ghost var s := pEntries[..];
      assert s[i] == Live(s[i].hash, s[i].data);
      CountsUpdate(s, i, Tombstone);
      RemoveReachable(s, i);
      RemoveContents(s, i, same);
      pEntries[i] := Tombstone;
      numEntries := numEntries - 1;
      numDeadEntries := numDeadEntries + 1;
      assert pEntries[..] == s[i := Tombstone];
    }

    // mzHashTableClear (Hash.c:77-97).
    method Clear()
      requires Valid()
      modifies this, pEntries
      ensures Valid() && pEntries == old(pEntries) && tableSize == old(tableSize) && Items() == {}
              && numEntries == 0 && numDeadEntries == 0
    {
      var i := 0;
      while i < tableSize
        invariant 0 <= i <= tableSize == pEntries.Length && forall k :: 0 <= k < i ==> pEntries[k].Empty?
        invariant pEntries == old(pEntries) && tableSize == old(tableSize)
      {
        pEntries[i] := Empty;
        i := i + 1;
      }
      NoneCounted(pEntries[..]);
      numEntries, numDeadEntries := 0, 0;
    }
  }

  // The entries among the first i slots of s have been moved to t.
  ghost predicate Moved<T(!new)>(s: seq<Slot<T>>, i: nat, t: seq<Slot<T>>, same: (T, T) -> bool)
  {
    && i <= |s| && 0 < |t| && Reachable(t) && Unique(t, same)
    && Contents(t) == Contents(s[..i]) && Lives(t) == Lives(s[..i]) && Deads(t) == 0
  }

  lemma {:induction false} LivesMore<T>(s: seq<Slot<T>>, i: nat)
    requires i < |s|
    ensures Lives(s[..i + 1]) == Lives(s[..i]) + if s[i].Live? then 1 else 0
    decreases i
  {
    if i > 0 {
      LivesMore(s[1..], i - 1);
      assert s[1..][..i] == s[..i + 1][1..] && s[1..][..i - 1] == s[..i][1..];
    } else {
      assert s[..1][1..] == [];
    }
  }

  lemma {:induction false} LivesSplit<T>(s: seq<Slot<T>>, i: nat)
    requires i <= |s|
    ensures Lives(s[..i]) <= Lives(s)
    decreases i
  {
    if i > 0 {
      LivesSplit(s[1..], i - 1);
      assert s[1..][..i - 1] == s[..i][1..];
    }
  }

  lemma MovedSkips<T(!new)>(s: seq<Slot<T>>, i: nat, t: seq<Slot<T>>, same: (T, T) -> bool)
    requires Moved(s, i, t, same) && i < |s| && !s[i].Live?
    ensures Moved(s, i + 1, t, same)
  {
    LivesMore(s, i);
    assert s[..i + 1] == s[..i] + [s[i]];
    assert forall h: nat, d {:trigger Live(h, d)} :: Live(h, d) in s[..i + 1] <==> Live(h, d) in s[..i];
  }

  lemma MovedOne<T(!new)>(s: seq<Slot<T>>, i: nat, t: seq<Slot<T>>, same: (T, T) -> bool, k: nat)
    requires Moved(s, i, t, same) && i < |s| && s[i].Live? && Unique(s, same) && Equivalence(same)
    requires Probed(t, s[i].hash, k) && t[k].Empty?
    ensures Moved(s, i + 1, t[k := s[i]], same)
  {
    var h, d := s[i].hash, s[i].data;
    assert s[i] == Live(h, d);
    LivesMore(s, i);
    CountsUpdate(t, k, s[i]);
    InsertReachable(t, h, k, d);
    InsertContents(t, h, k, d);
    assert s[..i + 1] == s[..i] + [s[i]];
    forall j {:trigger t[j]} | 0 <= j < |t|
      ensures !Matches(t[j], h, d, same)
    {
      if t[j].Live? && t[j].hash == h {
        assert (h, t[j].data) in Contents(t);
        var m :| 0 <= m < |s[..i]| && s[..i][m] == Live(h, t[j].data);
        assert s[m] == Live(h, t[j].data);
      }
    }
    InsertUnique(t, h, k, d, same);
  }

  // A table made for n entries takes n of them without being resized.
  lemma HashSizeSuffices(n: nat, size: nat, entries: nat)
    requires HashSize(n) <= size && entries < n
    ensures (entries + 1) * 8 <= size * 5
  {
  }

  lemma HoldsStill<T(!new)>(c: set<(nat, T)>, c': set<(nat, T)>, same: (T, T) -> bool, items: seq<(nat, T)>)
    requires c <= c' && forall k :: 0 <= k < |items| ==> Holds(c, same, items[k].0, items[k].1)
    ensures forall k :: 0 <= k < |items| ==> Holds(c', same, items[k].0, items[k].1)
  {
  }

  // So adding them one after the other leaves the table its size.
  method AddAll<T(!new)>(table: HashTable<T>, items: seq<(nat, T)>, n: nat)
    requires table.Valid() && table.numDeadEntries == 0 && table.numEntries + |items| <= n
             && HashSize(n) <= table.tableSize
    modifies table, table.pEntries
    ensures table.Valid() && table.tableSize == old(table.tableSize)
    ensures forall k :: 0 <= k < |items| ==> Holds(table.Items(), table.same, items[k].0, items[k].1)
  {
    var i := 0;
    while i < |items|
      invariant 0 <= i <= |items| && table.Valid() && table.tableSize == old(table.tableSize)
      invariant table.pEntries == old(table.pEntries) || fresh(table.pEntries)
      invariant table.numDeadEntries == 0 && table.numEntries + |items| - i <= n
      invariant forall k :: 0 <= k < i ==> Holds(table.Items(), table.same, items[k].0, items[k].1)
    {
      HashSizeSuffices(n, table.tableSize, table.numEntries);
      ghost var before := table.Items();
      var r := table.Lookup(items[i].0, items[i].1, true);
      HoldsStill(before, table.Items(), table.same, items[..i]);
      i := i + 1;
    }
  }

  // The same on unbounded numbers: double p until it is no less than val.
  function RoundedUp(val: nat, p: nat): (r: nat)
    requires 0 < p
    ensures val <= r && p <= r
    decreases val - p
  {
    if val <= p then p else RoundedUp(val, 2 * p)
  }

  // roundUpPower2 (Hash.c:35-46).
  function RoundUpPower2(val: bv32): (r: bv32)
  {
    var a := val - 1;
    var b := a | (a >> 1);
    var c := b | (b >> 2);
    var d := c | (c >> 4);
    var e := d | (d >> 8);
    var f := e | (e >> 16);
    f + 1
  }

  predicate PowerOfTwo(p: bv32)
  {
    p != 0 && p & (p - 1) == 0
  }

  // The least power of two that is not less than val.
  lemma RoundUpIsLeast(val: bv32)
    requires 0 < val <= 0x8000_0000
    ensures var r := RoundUpPower2(val);
            val <= r && PowerOfTwo(r) && forall p: bv32 :: val <= p && PowerOfTwo(p) ==> r <= p
  {
  }

  // A run in which removing an item under one hash removes it under another.
  method RemovesAnother() returns (found: bool, table: HashTable<int>)
    ensures found && table.Valid() && table.Items() == {}
  {
    table := new HashTable<int>(8, (a: int, b: int) => a == b);
    var added := table.Lookup(0, 7, true);
    assert table.Items() == {(0, 7)};
    ghost var at;
    found, at := table.Remove(8, 7);
  }
}
