/** Iterating over a hash table while the entry just returned may be deleted. */
module TableIterator {
  import opened Bytes
  import opened HashTable

  /** All entries from bucket i on, in the order of the table. */
  ghost function Flatten<V>(chains: seq<Chain<V>>, i: nat): seq<Entry<V>>
    decreases |chains| - i
  {
    if i >= |chains| then [] else chains[i] + Flatten(chains, i + 1)
  }

  lemma {:induction false} FlattenTail<V>(a: seq<Chain<V>>, b: seq<Chain<V>>, i: nat)
    requires |a| == |b| && forall j :: i <= j < |a| ==> a[j] == b[j]
    ensures Flatten(a, i) == Flatten(b, i)
    decreases |a| - i
  {
    if i < |a| {
      FlattenTail(a, b, i + 1);
    }
  }

  ghost predicate DistinctKeys<V>(f: seq<Entry<V>>) {
    forall j, k :: 0 <= j < k < |f| ==> f[j].key != f[k].key
  }

  lemma DistinctAppend<V>(c: Chain<V>, g: seq<Entry<V>>)
    requires DistinctKeys(c) && DistinctKeys(g)
    requires forall j, k :: 0 <= j < |c| && 0 <= k < |g| ==> c[j].key != g[k].key
    ensures DistinctKeys(c + g)
  {
    var f := c + g;
    forall j, k | 0 <= j < k < |f| ensures f[j].key != f[k].key {
      assert f[j] == if j < |c| then c[j] else g[j - |c|];
      assert f[k] == if k < |c| then c[k] else g[k - |c|];
    }
  }

  /** What the order of the table visits: every key once. */
  lemma {:induction false} FlattenVisits<V>(chains: seq<Chain<V>>, mask: nat, keys: set<bytes>, i: nat)
    requires Structure(chains, mask, keys)
    ensures DistinctKeys(Flatten(chains, i))
    ensures forall e :: e in Flatten(chains, i) ==> e.key in keys && Bucket(e.key, mask) >= i
    ensures forall k :: k in keys && Bucket(k, mask) >= i ==> HasKey(Flatten(chains, i), k)
    decreases |chains| - i
  {
    if i < |chains| {
      FlattenVisits(chains, mask, keys, i + 1);
      var c, g := chains[i], Flatten(chains, i + 1);
      assert Keyed(c, i, mask) && Within(c, keys);
      forall j, k | 0 <= j < |c| && 0 <= k < |g| ensures c[j].key != g[k].key {
        assert g[k] in g;
      }
      DistinctAppend(c, g);
      forall k | k in keys && Bucket(k, mask) >= i ensures HasKey(c + g, k) {
        assert HasKey(chains[Bucket(k, mask)], k);
        HasKeyAppend(c, g, k);
      }
    }
  }

  lemma HasKeyAppend<V>(c: Chain<V>, g: Chain<V>, k: bytes)
    requires HasKey(c, k) || HasKey(g, k)
    ensures HasKey(c + g, k)
  {
    if HasKey(c, k) {
      var j :| 0 <= j < |c| && c[j].key == k;
      assert (c + g)[j].key == k;
    } else {
      var j :| 0 <= j < |g| && g[j].key == k;
      assert (c + g)[|c| + j].key == k;
    }
  }

  lemma SplitHead<V>(c: Chain<V>, k: nat, f: seq<Entry<V>>)
    requires k < |c|
    ensures c[k..] + f == [c[k]] + (c[k + 1..] + f)
  {
  }

  ghost function Members<V>(c: Chain<V>): set<Entry<V>> {
    set e | e in c
  }

  class DictIterator<V> {
    const ht: Dict<V>
    var index: int
    var entry: Entry?<V>
    var nextEntry: Entry?<V>

    ghost var k: nat   // position of nextEntry in its chain

    /** The entries still to be returned. */
    ghost function Pending(): seq<Entry<V>>
      requires index >= -1 && (entry != null ==> 0 <= index < |ht.chains| && k <= |ht.chains[index]|)
      reads this, ht
    {
      (if entry == null then [] else ht.chains[index][k..]) + Flatten(ht.chains, index + 1)
    }

    ghost predicate Valid()
      reads this, ht
    {
      && index >= -1 && |ht.chains| == ht.size
      && (entry != null ==>
            0 <= index < |ht.chains| && k <= |ht.chains[index]| && nextEntry == At(ht.chains[index], k))
    }

    /** The entry returned last is still in the table. */
    ghost predicate AtEntry()
      requires Valid()
      reads this, ht
    {
      entry != null && 0 < k && ht.chains[index][k - 1] == entry
    }

    /** dictGetIterator() */
    constructor (ht: Dict<V>)
      requires ht.Valid()
      ensures this.ht == ht && Valid() && Pending() == Flatten(ht.chains, 0)
    {
      this.ht := ht;
      index, entry, nextEntry, k := -1, null, null, 0;
    }

    /** Bucket b of the table is in order. */
    ghost predicate HeadKnown(b: int)
      reads this, ht, ht.table, if 0 <= b < |ht.chains| then Members(ht.chains[b]) else {}
    {
      && 0 <= b < |ht.chains| == ht.size == ht.table.Length
      && ht.table[b] == Head(ht.chains[b]) && Linked(ht.chains[b])
    }

    /** One turn of dictNext()'s loop, before its last test: entry becomes what is next in the table, if anything. */
    method Advance() returns (ghost rest: Chain<V>)
      requires Valid() && HeadKnown(if entry == null then index + 1 else index)
      modifies `index, `entry, `k
      ensures 0 <= index < |ht.chains| == ht.size && k <= |ht.chains[index]|
      ensures rest == ht.chains[index][k..] && entry == Head(rest)
      ensures entry != null ==> LinkAt(ht.chains[index], k)
      ensures rest + Flatten(ht.chains, index + 1) == old(Pending())
      ensures index == if old(entry) == null then old(index) + 1 else old(index)
    {
      if entry == null {
        index := index + 1;
        entry, k := ht.table[index], 0;
        assert ht.chains[index][0..] == ht.chains[index];
      } else {
        entry := nextEntry;
      }
      rest := ht.chains[index][k..];
    }

    /** The test itself: the entry is returned and what follows it is remembered. */
    method Take()
      requires 0 <= index < |ht.chains| == ht.size && k < |ht.chains[index]|
      requires entry == ht.chains[index][k] && LinkAt(ht.chains[index], k)
      modifies `nextEntry, `k
      ensures Valid() && AtEntry() && k == old(k) + 1
    {
      nextEntry, k := entry.next, k + 1;
    }

    /** One turn of dictNext()'s loop. */
    method Turn()
      requires Valid() && HeadKnown(if entry == null then index + 1 else index)
      modifies this
      ensures Valid() && index == (if old(entry) == null then old(index) + 1 else old(index))
      ensures if entry == null then Pending() == old(Pending())
              else old(Pending()) == [entry] + Pending() && AtEntry()
    {
      ghost var rest := Advance();
      if entry != null {
        SplitHead(ht.chains[index], k, Flatten(ht.chains, index + 1));
        Take();
      }
    }

    /** dictNext() */
    method Next() returns (de: Entry?<V>)
      requires ht.Valid() && Valid()
      modifies this
      ensures Valid()
      ensures if de == null then old(Pending()) == Pending() == []
              else old(Pending()) == [de] + Pending() && entry == de && AtEntry()
    {
      while true
        invariant Valid() && Pending() == old(Pending())
        decreases ht.size - index, entry != null
      {
        if entry == null && index + 1 >= ht.size {
          index := index + 1;
          return null;
        }
        ht.BucketAt(if entry == null then index + 1 else index);
        Turn();
        if entry != null {
          return entry;
        }
      }
    }
  }

  lemma WithoutTail<V>(c: Chain<V>, j: nat)
    requires j < |c|
    ensures Without(c, j)[j..] == c[j + 1..]
  {
  }

  /** Where the entry just returned is: the bucket of its key, in one place. */
  lemma EntryPosition<V>(chains: seq<Chain<V>>, mask: nat, keys: set<bytes>, index: nat, j: nat, i: nat)
    requires Structure(chains, mask, keys) && index < |chains| && j < |chains[index]|
    requires var h := Bucket(chains[index][j].key, mask);
             h < |chains| && i < |chains[h]| && chains[h][i].key == chains[index][j].key
    ensures Bucket(chains[index][j].key, mask) == index && i == j
  {
    assert Keyed(chains[index], index, mask);
  }

  /** The entries from the k-th one of a bucket on. */
  ghost function From<V>(chains: seq<Chain<V>>, index: nat, k: nat): seq<Entry<V>>
    requires index < |chains| && k <= |chains[index]|
  {
    chains[index][k..] + Flatten(chains, index + 1)
  }

  /** Taking out an entry leaves what comes after it, in its bucket and in the later ones. */
  lemma DeletionStays<V>(chains: seq<Chain<V>>, after: seq<Chain<V>>, mask: nat, keys: set<bytes>, index: nat, j: nat,
                         i: nat)
    requires Structure(chains, mask, keys) && index < |chains| && j < |chains[index]|
    requires var h := Bucket(chains[index][j].key, mask);
             && h < |chains| && i < |chains[h]| && chains[h][i].key == chains[index][j].key
             && after == Unlinked(chains, h, i)
    ensures |after| == |chains| && j <= |after[index]|
    ensures From(after, index, j) == From(chains, index, j + 1) && At(after[index], j) == At(chains[index], j + 1)
  {
    EntryPosition(chains, mask, keys, index, j, i);
    WithoutTail(chains[index], j);
    FlattenTail(chains, after, index + 1);
  }

  lemma AtEntryHasKey<V>(it: DictIterator<V>)
    requires it.ht.Valid() && it.Valid() && it.AtEntry()
    ensures it.entry.key in it.ht.m && it.ht.size > 0
  {
    var d := it.ht;
    assert Keyed(d.chains[it.index], it.index, d.sizemask) && Within(d.chains[it.index], d.m.Keys);
  }

  /** Deleting that entry leaves what comes after it, and the place of what is next. */
  method DeleteEntry<V>(d: Dict<V>, entry: Entry<V>, ghost index: nat, ghost j: nat)
    requires d.Valid() && d.size > 0 && entry.key in d.m
    requires index < |d.chains| && j < |d.chains[index]| && d.chains[index][j] == entry
    modifies d, d.table, d.nodes`next
    ensures d.Valid() && d.m == old(d.m) - {entry.key} && d.nodes <= old(d.nodes)
    ensures d.table == old(d.table) && |d.chains| == d.size == old(d.size) && j <= |d.chains[index]|
    ensures From(d.chains, index, j) == From(old(d.chains), index, j + 1)
    ensures At(d.chains[index], j) == At(old(d.chains)[index], j + 1)
  {
    ghost var chains, mask, keys := d.chains, d.sizemask, d.m.Keys;
    var ok, i := d.Delete(entry.key);
    DeletionStays(chains, d.chains, mask, keys, index, j, i);
  }

  lemma PendingFrom<V>(it: DictIterator<V>)
    requires it.Valid() && it.entry != null
    ensures it.Pending() == From(it.ht.chains, it.index, it.k)
  {
  }

  /** The caller deletes the entry that dictNext() just returned: the iteration goes on as if nothing had happened. */
  method DeleteReturned<V>(it: DictIterator<V>)
    requires it.ht.Valid() && it.Valid() && it.AtEntry()
    modifies it`k, it.ht, it.ht.table, it.ht.nodes`next
    ensures it.ht.Valid() && it.Valid() && it.Pending() == old(it.Pending()) && it.entry == old(it.entry)
    ensures it.ht.m == old(it.ht.m) - {old(it.entry).key} && it.ht.nodes <= old(it.ht.nodes)
    ensures it.ht.table == old(it.ht.table)
  {
    AtEntryHasKey(it);
    PendingFrom(it);
    it.k := it.k - 1;
    DeleteEntry(it.ht, it.entry, it.index, it.k);
    PendingFrom(it);
  }

  /** m without the entries that were seen and dropped. */
  ghost function Dropped<V>(m: map<bytes, V>, seen: seq<Entry<V>>, drop: bytes -> bool): map<bytes, V> {
    map k | k in m && !(drop(k) && HasKey(seen, k)) :: m[k]
  }

  lemma DropNext<V>(m: map<bytes, V>, seen: seq<Entry<V>>, e: Entry<V>, drop: bytes -> bool)
    ensures Dropped(m, seen + [e], drop) ==
            if drop(e.key) then Dropped(m, seen, drop) - {e.key} else Dropped(m, seen, drop)
  {
    forall k ensures HasKey(seen + [e], k) <==> HasKey(seen, k) || k == e.key {
      if k == e.key {
        assert (seen + [e])[|seen|].key == k;
      }
      if HasKey(seen, k) {
        HasKeyAppend(seen, [e], k);
      }
    }
  }

  lemma Visits<V>(d: Dict<V>)
    requires d.Valid()
    ensures var f := Flatten(d.chains, 0); DistinctKeys(f) && forall k :: k in d.m <==> HasKey(f, k)
  {
    if d.size > 0 {
      FlattenVisits(d.chains, d.sizemask, d.m.Keys, 0);
      forall k | HasKey(Flatten(d.chains, 0), k) ensures k in d.m {
        var f := Flatten(d.chains, 0);
        var i :| 0 <= i < |f| && f[i].key == k;
        assert f[i] in f;
      }
    }
  }

  /** A walk in progress: seen was returned, then de, and the chosen ones of seen are gone. */
  ghost predicate Visiting<V>(it: DictIterator<V>, de: Entry?<V>, seen: seq<Entry<V>>, all: seq<Entry<V>>,
                              m: map<bytes, V>, drop: bytes -> bool)
    reads it, it.ht
  {
    && it.Valid() && it.ht.m == Dropped(m, seen, drop)
    && if de == null then it.Pending() == [] && seen == all
       else seen + ([de] + it.Pending()) == all && it.entry == de && it.AtEntry()
  }

  method DeleteIf<V>(it: DictIterator<V>, yes: bool)
    requires it.ht.Valid() && it.Valid() && it.AtEntry()
    modifies it`k, it.ht, it.ht.table, it.ht.nodes`next
    ensures it.ht.Valid() && it.Valid() && it.Pending() == old(it.Pending()) && it.entry == old(it.entry)
    ensures it.ht.m == if yes then old(it.ht.m) - {old(it.entry).key} else old(it.ht.m)
    ensures it.ht.nodes <= old(it.ht.nodes) && it.ht.table == old(it.ht.table)
  {
    if yes {
      DeleteReturned(it);
    }
  }

  method VisitNext<V>(it: DictIterator<V>, de: Entry<V>, seen: seq<Entry<V>>, drop: bytes -> bool,
                      ghost all: seq<Entry<V>>, ghost m: map<bytes, V>) returns (next: Entry?<V>)
    requires it.ht.Valid() && Visiting(it, de, seen, all, m, drop)
    modifies it, it.ht, it.ht.table, it.ht.nodes`next
    ensures it.ht.Valid() && Visiting(it, next, seen + [de], all, m, drop)
    ensures it.ht.table == old(it.ht.table) && it.ht.nodes <= old(it.ht.nodes)
  {
    DropNext(m, seen, de, drop);
    Assoc(seen, [de], it.Pending());
    DeleteIf(it, drop(de.key));
    assert it.Pending() == [] ==> seen + [de] == all;
    next := it.Next();
  }

  method VisitFirst<V>(d: Dict<V>, ghost drop: bytes -> bool) returns (it: DictIterator<V>, de: Entry?<V>)
    requires d.Valid()
    ensures it.ht == d && fresh(it) && Visiting(it, de, [], Flatten(d.chains, 0), d.m, drop)
  {
    it := new DictIterator(d);
    DroppedNone(d.m, drop);
    de := it.Next();
    if de != null {
      NothingBefore([de] + it.Pending());
    }
  }

  lemma NothingBefore<T>(s: seq<T>)
    ensures [] + s == s
  {
  }

  lemma DroppedNone<V>(m: map<bytes, V>, drop: bytes -> bool)
    ensures Dropped(m, [], drop) == m
  {
  }

  lemma DroppedAll<V>(m: map<bytes, V>, all: seq<Entry<V>>, drop: bytes -> bool)
    requires forall k :: k in m <==> HasKey(all, k)
    ensures Dropped(m, all, drop) == map k | k in m && !drop(k) :: m[k]
  {
  }

  /**
   A walk over the whole table that deletes some of the entries as they are returned: every
   entry that was there at the start is returned once, and exactly the chosen ones are gone.
   */
  method VisitAll<V>(d: Dict<V>, drop: bytes -> bool) returns (seen: seq<Entry<V>>)
    requires d.Valid()
    modifies d, d.table, d.nodes`next
    ensures d.Valid() && seen == Flatten(old(d.chains), 0)
    ensures DistinctKeys(seen) && forall k :: k in old(d.m) <==> HasKey(seen, k)
    ensures d.m == map k | k in old(d.m) && !drop(k) :: old(d.m)[k]
  {
    ghost var all, m := Flatten(d.chains, 0), d.m;
    Visits(d);
    DroppedAll(m, all, drop);
    seen := [];
    var it, de := VisitFirst(d, drop);
    while de != null
      invariant it.ht == d && fresh(it) && d.Valid() && d.table == old(d.table) && d.nodes <= old(d.nodes)
      invariant Visiting(it, de, seen, all, m, drop)
      decreases |all| - |seen|, de != null
    {
      var was: Entry<V> := de;
      de := VisitNext(it, was, seen, drop, all, m);
      seen := seen + [was];
    }
  }
}
