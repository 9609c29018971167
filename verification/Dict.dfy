/** The chained hash table behind the subscription callbacks. */
module HashTable {
  import opened Bytes

  const DICT_HT_INITIAL_SIZE := 4
  const PORT_LONG_MAX := 0x7fff_ffff_ffff_ffff
  const UINT_MODULUS := 0x1_0000_0000

  // ----- Hashing -----

  /** Bernstein's hash, in 32-bit arithmetic. */
  function GenHash(s: bytes): (h: nat)
    ensures h < UINT_MODULUS
  {
    if s == [] then 5381 else (GenHash(s[..|s| - 1]) * 33 + s[|s| - 1]) % UINT_MODULUS
  }

  /** dictGenHashFunction() */
  method GenHashFunction(buf: bytes) returns (hash: nat)
    ensures hash == GenHash(buf)
  {
    hash := 5381;
    for i := 0 to |buf|
      invariant hash == GenHash(buf[..i])
    {
      assert buf[..i + 1][..i] == buf[..i];
      hash := (hash * 32 + hash + buf[i]) % UINT_MODULUS;
    }
    assert buf[..|buf|] == buf;
  }

  /** The bitwise and of two numbers. */
  function BitAnd(a: nat, b: nat): (r: nat)
    ensures r <= b
  {
    if a == 0 || b == 0 then 0 else 2 * BitAnd(a / 2, b / 2) + (a % 2) * (b % 2)
  }

  function Pow2(k: nat): nat {
    if k == 0 then 1 else 2 * Pow2(k - 1)
  }

  /** Masking with one less than a power of two is taking the remainder. */
  lemma {:induction false} MaskIsRemainder(a: nat, k: nat)
    ensures Pow2(k) > 0 && BitAnd(a, Pow2(k) - 1) == a % Pow2(k)
  {
    if k > 0 {
      var p := Pow2(k - 1);
      MaskIsRemainder(a / 2, k - 1);
      MaskTwice(a, p);
      assert Pow2(k) == 2 * p;
    }
  }

  /** With a mask of one more bit, the last bit is taken too. */
  lemma MaskTwice(a: nat, p: nat)
    requires p > 0 && BitAnd(a / 2, p - 1) == a / 2 % p
    ensures BitAnd(a, 2 * p - 1) == a % (2 * p)
  {
    RemainderOfHalf(a, p);
    var b := 2 * p - 1;
    assert b / 2 == p - 1 && b % 2 == 1;
    assert a != 0 ==> BitAnd(a, b) == 2 * BitAnd(a / 2, b / 2) + (a % 2) * (b % 2);
  }

  lemma RemainderOfHalf(a: nat, p: nat)
    requires p > 0
    ensures a % (2 * p) == 2 * (a / 2 % p) + a % 2
  {
    var q, r := a / 2 / p, a / 2 % p;
    assert a / 2 == p * q + r;
    assert a == (2 * p) * q + (2 * r + a % 2);
    DivModUnique(a, 2 * p, q, 2 * r + a % 2);
  }

  lemma DivModUnique(a: int, n: int, q: int, r: int)
    requires n > 0 && a == n * q + r && 0 <= r < n
    ensures a % n == r
  {
    var d := a / n - q;
    assert n * d == r - a % n;
    if d >= 1 {
      AtLeast(n, d);
      assert false;
    } else if d <= -1 {
      AtLeast(n, -d);
      assert false;
    }
  }

  lemma AtLeast(n: int, d: int)
    requires n > 0 && d >= 1
    ensures n * d >= n && n * -d <= -n
  {
    assert n * d == n * (d - 1) + n;
  }

  /** The bucket of a key in a table with the given mask. */
  function Bucket(key: bytes, mask: nat): (b: nat)
    ensures b <= mask
  {
    BitAnd(GenHash(key), mask)
  }

  predicate IsPow2(n: nat) {
    n == 1 || (n > 1 && n % 2 == 0 && IsPow2(n / 2))
  }

  lemma {:induction false} LogOf(n: nat) returns (k: nat)
    requires IsPow2(n)
    ensures Pow2(k) == n
  {
    k := 0;
    if n > 1 {
      k := LogOf(n / 2);
      k := k + 1;
    }
  }

  predicate TableSize(n: nat) {
    IsPow2(n) || n == PORT_LONG_MAX
  }

  /** _dictNextPower(): the least table size that is enough; sizes are powers of two up to the cap. */
  method NextPower(size: nat) returns (r: nat)
    ensures size >= PORT_LONG_MAX ==> r == PORT_LONG_MAX
    ensures size < PORT_LONG_MAX ==>
              && IsPow2(r) && r >= DICT_HT_INITIAL_SIZE && size <= r
              && (r > DICT_HT_INITIAL_SIZE ==> r < 2 * size)
  {
    if size >= PORT_LONG_MAX {
      return PORT_LONG_MAX;
    }
    r := DICT_HT_INITIAL_SIZE;
    assert IsPow2(2);
    while r < size
      invariant IsPow2(r) && r >= DICT_HT_INITIAL_SIZE
      invariant r > DICT_HT_INITIAL_SIZE ==> r < 2 * size
      decreases size - r
    {
      r := r * 2;
    }
  }

  // ----- Chains -----

  class Entry<V> {
    const key: bytes
    var val: V
    var next: Entry?<V>

    constructor (key: bytes, val: V, next: Entry?<V>)
      ensures this.key == key && this.val == val && this.next == next
    {
      this.key, this.val, this.next := key, val, next;
    }
  }

  type Chain<V> = seq<Entry<V>>
  type Table<V> = array<Entry?<V>>

  function At<V>(c: Chain<V>, i: nat): Entry?<V> {
    if i < |c| then c[i] else null
  }

  function Head<V>(c: Chain<V>): Entry?<V> {
    At(c, 0)
  }

  ghost predicate LinkAt<V>(c: Chain<V>, i: nat)
    requires i < |c|
    reads {c[i]}`next
  {
    c[i].next == At(c, i + 1)
  }

  /** The entries of c, linked through their next pointers. */
  ghost predicate Linked<V>(c: Chain<V>)
    reads c`next
  {
    forall i :: 0 <= i < |c| ==> LinkAt(c, i)
  }

  /** All keys of c belong into bucket b and there are no duplicates. */
  ghost predicate Keyed<V>(c: Chain<V>, b: nat, mask: nat) {
    && (forall i :: 0 <= i < |c| ==> Bucket(c[i].key, mask) == b)
    && (forall i, j :: 0 <= i < j < |c| ==> c[i].key != c[j].key)
  }

  ghost predicate HasKey<V>(c: Chain<V>, k: bytes) {
    exists i :: 0 <= i < |c| && c[i].key == k
  }

  ghost predicate Owned<V>(c: Chain<V>, nodes: set<Entry<V>>) {
    forall i :: 0 <= i < |c| ==> c[i] in nodes
  }

  ghost predicate Within<V>(c: Chain<V>, keys: set<bytes>) {
    forall i :: 0 <= i < |c| ==> c[i].key in keys
  }

  /** Each of the keys is in the chain of its bucket, once, and there are no others. */
  ghost predicate Structure<V>(chains: seq<Chain<V>>, mask: nat, keys: set<bytes>) {
    && |chains| == mask + 1
    && (forall b :: 0 <= b < |chains| ==> Keyed(chains[b], b, mask) && Within(chains[b], keys))
    && (forall k {:trigger HasKey(chains[Bucket(k, mask)], k)} :: k in keys ==> HasKey(chains[Bucket(k, mask)], k))
  }

  /** The table holds the heads of the chains, which are made of the given entries. */
  ghost predicate Links<V>(table: Table<V>, chains: seq<Chain<V>>, nodes: set<Entry<V>>)
    reads table, nodes`next
  {
    && |chains| == table.Length
    && forall b :: 0 <= b < |chains| ==> table[b] == Head(chains[b]) && Owned(chains[b], nodes) && Linked(chains[b])
  }

  /** The entries hold what m maps. */
  ghost predicate Holds<V>(nodes: set<Entry<V>>, m: map<bytes, V>)
    reads nodes`val
  {
    forall e :: e in nodes ==> e.key in m && m[e.key] == e.val
  }

  // ----- A new head -----

  ghost function Pushed<V>(chains: seq<Chain<V>>, h: nat, entry: Entry<V>): seq<Chain<V>>
    requires h < |chains|
  {
    chains[h := [entry] + chains[h]]
  }

  /** entry becomes the head of bucket h. */
  method PushFront<V>(table: Table<V>, ghost chains: seq<Chain<V>>, ghost nodes: set<Entry<V>>, entry: Entry<V>, h: nat)
    requires Links(table, chains, nodes) && h < table.Length
    requires forall b :: 0 <= b < |chains| ==> entry !in chains[b]
    modifies table, entry`next
    ensures Links(table, Pushed(chains, h, entry), nodes + {entry})
  {
    ghost var c := chains[h];
    entry.next := table[h];
    table[h] := entry;
    forall b | 0 <= b < |chains|
      ensures Linked(chains[b]) && Owned(chains[b], nodes + {entry}) && (b != h ==> table[b] == Head(chains[b]))
    {
      assert old(table[b] == Head(chains[b]) && Owned(chains[b], nodes) && Linked(chains[b]));
    }
    assert old(table[h] == Head(c));
    LinkedFront(entry, c);
  }

  lemma LinkedFront<V>(entry: Entry<V>, c: Chain<V>)
    requires Linked(c) && entry.next == Head(c)
    ensures Linked([entry] + c)
  {
    var d := [entry] + c;
    forall i | 0 <= i < |d| ensures LinkAt(d, i) {
      assert At(d, i + 1) == At(c, i);
      if i > 0 {
        assert LinkAt(c, i - 1);
      }
    }
  }

  lemma StructurePushed<V>(chains: seq<Chain<V>>, mask: nat, keys: set<bytes>, entry: Entry<V>)
    requires Structure(chains, mask, keys) && entry.key !in keys
    ensures Structure(Pushed(chains, Bucket(entry.key, mask), entry), mask, keys + {entry.key})
    ensures forall b :: 0 <= b < |chains| ==> entry !in chains[b]
  {
    var h := Bucket(entry.key, mask);
    var c := chains[h];
    var d := [entry] + c;
    assert Keyed(c, h, mask) && Within(c, keys);
    assert forall i :: 0 < i < |d| ==> d[i] == c[i - 1];
    forall k | k in keys + {entry.key} ensures HasKey(Pushed(chains, h, entry)[Bucket(k, mask)], k) {
      assert k in keys ==> HasKey(chains[Bucket(k, mask)], k);
      if k in keys && Bucket(k, mask) == h {
        var i :| 0 <= i < |c| && c[i].key == k;
        assert d[i + 1].key == k;
      } else if k !in keys {
        assert d[0].key == k;
      }
    }
    forall b | 0 <= b < |chains| ensures entry !in chains[b] {
      assert Within(chains[b], keys);
    }
  }

  // ----- An entry less -----

  function Without<V>(c: Chain<V>, i: nat): Chain<V>
    requires i < |c|
  {
    c[..i] + c[i + 1..]
  }

  ghost function Unlinked<V>(chains: seq<Chain<V>>, h: nat, i: nat): seq<Chain<V>>
    requires h < |chains| && i < |chains[h]|
  {
    chains[h := Without(chains[h], i)]
  }

  /** Entry i of bucket h leaves its chain. */
  method Unlink<V>(table: Table<V>, ghost chains: seq<Chain<V>>, ghost nodes: set<Entry<V>>, h: nat, ghost i: nat,
                   prev: Entry?<V>, de: Entry<V>)
    requires Links(table, chains, nodes) && h < |chains| && i < |chains[h]|
    requires de == chains[h][i] && prev == if i == 0 then null else chains[h][i - 1]
    requires forall j, k :: 0 <= j < k < |chains[h]| ==> chains[h][j] != chains[h][k]
    requires forall b :: 0 <= b < |chains| && b != h ==> prev !in chains[b]
    modifies table, (if prev == null then {} else {prev})`next
    ensures Links(table, Unlinked(chains, h, i), nodes)
  {
    ghost var c := chains[h];
    assert table[h] == Head(c) && Owned(c, nodes) && Linked(c);
    assert LinkAt(c, i);
    if prev != null {
      prev.next := de.next;
    } else {
      table[h] := de.next;
    }
    forall b | 0 <= b < |chains| && b != h
      ensures table[b] == Head(chains[b]) && Owned(chains[b], nodes) && Linked(chains[b])
    {
      assert old(table[b] == Head(chains[b]) && Owned(chains[b], nodes) && Linked(chains[b]));
      assert prev !in chains[b];
    }
    ghost var d := Without(c, i);
    forall j | 0 <= j < |d| ensures LinkAt(d, j) {
      assert old(LinkAt(c, if j < i then j else j + 1));
      assert At(d, j + 1) == At(c, if j + 1 < i then j + 1 else j + 2);
    }
  }

  lemma StructureUnlinked<V>(chains: seq<Chain<V>>, mask: nat, keys: set<bytes>, h: nat, i: nat)
    requires Structure(chains, mask, keys) && h < |chains| && i < |chains[h]|
    ensures Structure(Unlinked(chains, h, i), mask, keys - {chains[h][i].key})
    ensures forall b, j :: 0 <= b < |chains| && b != h && 0 <= j < |chains[h]| ==> chains[h][j] !in chains[b]
  {
    var c, key := chains[h], chains[h][i].key;
    var d := Without(c, i);
    var chains' := Unlinked(chains, h, i);
    assert Keyed(c, h, mask) && Within(c, keys);
    assert forall j :: 0 <= j < |d| ==> d[j] == c[if j < i then j else j + 1];
    forall b | 0 <= b < |chains| && b != h
      ensures Within(chains[b], keys - {key}) && forall j :: 0 <= j < |c| ==> c[j] !in chains[b]
    {
      assert Keyed(chains[b], b, mask) && Within(chains[b], keys);
    }
    forall k | k in keys - {key} ensures HasKey(chains'[Bucket(k, mask)], k) {
      assert HasKey(chains[Bucket(k, mask)], k);
      if Bucket(k, mask) == h {
        var j :| 0 <= j < |c| && c[j].key == k;
        assert d[if j < i then j else j - 1].key == k;
      }
    }
  }

  // ----- Searching -----

  /** The search loop of dictFind(), dictDelete() and _dictKeyIndex(). */
  method Search<V>(head: Entry?<V>, key: bytes, ghost c: Chain<V>)
      returns (prev: Entry?<V>, he: Entry?<V>, ghost i: nat)
    requires head == Head(c) && Linked(c)
    ensures i <= |c| && he == (if i < |c| then c[i] else null)
    ensures prev == if i == 0 then null else c[i - 1]
    ensures forall j :: 0 <= j < i ==> c[j].key != key
    ensures i < |c| ==> he.key == key
  {
    prev, he, i := null, head, 0;
    while he != null
      invariant i <= |c| && he == if i < |c| then c[i] else null
      invariant prev == if i == 0 then null else c[i - 1]
      invariant forall j :: 0 <= j < i ==> c[j].key != key
      decreases |c| - i
    {
      if he.key == key {
        return;
      }
      assert LinkAt(c, i);
      prev, he, i := he, he.next, i + 1;
    }
  }

  // ----- Rehashing -----

  ghost function ChainKeys<V>(c: Chain<V>): set<bytes> {
    set i | 0 <= i < |c| :: c[i].key
  }

  /** Keys that are pairwise distinct are as many as there are entries. */
  lemma {:induction false} CountKeys<V>(c: Chain<V>)
    requires forall i, j :: 0 <= i < j < |c| ==> c[i].key != c[j].key
    ensures |ChainKeys(c)| == |c|
  {
    if c != [] {
      CountKeys(c[1..]);
      assert ChainKeys(c) == {c[0].key} + ChainKeys(c[1..]) by {
        forall i | 0 <= i < |c| ensures c[i].key in {c[0].key} + ChainKeys(c[1..]) {
          assert i > 0 ==> c[i] == c[1..][i - 1];
        }
      }
    }
  }

  lemma KeysOfNext<V>(c: Chain<V>, i: nat)
    requires i < |c|
    ensures ChainKeys(c[..i + 1]) == ChainKeys(c[..i]) + {c[i].key}
  {
    var d := c[..i + 1];
    forall j | 0 <= j < |d| ensures d[j].key in ChainKeys(c[..i]) + {c[i].key} {
      assert j < i ==> d[j] == c[..i][j];
    }
    forall j | 0 <= j < i ensures c[..i][j].key in ChainKeys(d) {
      assert c[..i][j] == d[j];
    }
    assert d[i] == c[i];
  }

  /** The chains from bucket i on are as they should be. */
  ghost predicate LinkedFrom<V>(chains: seq<Chain<V>>, nodes: set<Entry<V>>, i: nat)
    reads nodes`next
  {
    forall b :: i <= b < |chains| ==> Owned(chains[b], nodes) && Linked(chains[b])
  }

  ghost predicate Apart<V>(chains: seq<Chain<V>>, i: nat, keys: set<bytes>) {
    forall b, j :: i <= b < |chains| && 0 <= j < |chains[b]| ==> chains[b][j].key !in keys
  }

  /** One entry goes to its bucket in another table, the rest of its old chain being c[1..]. */
  method MoveEntry<V>(table: Table<V>, mask: nat, ghost chains: seq<Chain<V>>, ghost keys: set<bytes>,
                      ghost nodes: set<Entry<V>>, he: Entry<V>, ghost c: Chain<V>,
                      ghost others: seq<Chain<V>>, ghost from: nat)
      returns (ghost chains': seq<Chain<V>>)
    requires Links(table, chains, nodes) && Structure(chains, mask, keys)
    requires Owned(c, nodes) && Linked(c) && c != [] && c[0] == he && he.key !in keys
    requires forall i, j :: 0 <= i < j < |c| ==> c[i].key != c[j].key
    requires LinkedFrom(others, nodes, from) && Apart(others, from, {he.key})
    modifies table, he`next
    ensures Links(table, chains', nodes) && Structure(chains', mask, keys + {he.key})
    ensures Linked(c[1..]) && LinkedFrom(others, nodes, from)
  {
    var h := Bucket(he.key, mask);
    ghost var rest := c[1..];
    StructurePushed(chains, mask, keys, he);
    chains' := Pushed(chains, h, he);
    assert nodes + {he} == nodes;
    forall i | 0 <= i < |rest| ensures rest[i] != he && LinkAt(rest, i) {
      assert rest[i] == c[i + 1] && LinkAt(c, i + 1);
      assert At(rest, i + 1) == At(c, i + 2);
    }
    assert forall b :: from <= b < |others| ==> he !in others[b] && Linked(others[b]);
    PushFront(table, chains, nodes, he, h);
  }

  /** The inner loop of dictExpand(): a whole chain goes to another table. */
  method MoveChain<V>(table: Table<V>, mask: nat, ghost chains: seq<Chain<V>>, ghost keys: set<bytes>,
                      ghost nodes: set<Entry<V>>, head: Entry?<V>, ghost c: Chain<V>, used: int,
                      ghost others: seq<Chain<V>>, ghost from: nat)
      returns (ghost chains': seq<Chain<V>>, left: int)
    requires Links(table, chains, nodes) && Structure(chains, mask, keys)
    requires Owned(c, nodes) && Linked(c) && head == Head(c) && ChainKeys(c) !! keys
    requires forall i, j :: 0 <= i < j < |c| ==> c[i].key != c[j].key
    requires LinkedFrom(others, nodes, from) && Apart(others, from, ChainKeys(c))
    modifies table, nodes`next
    ensures Links(table, chains', nodes) && Structure(chains', mask, keys + ChainKeys(c))
    ensures LinkedFrom(others, nodes, from)
    ensures left == used - |c|
  {
    var he := head;
    left := used;
    chains' := chains;
    ghost var i: nat := 0;
    ghost var done: set<bytes> := {};
    while he != null
      invariant i <= |c| && he == Head(c[i..]) && left == used - i
      invariant done == ChainKeys(c[..i])
      invariant Links(table, chains', nodes) && Structure(chains', mask, keys + done)
      invariant Linked(c[i..]) && LinkedFrom(others, nodes, from)
      decreases |c| - i
    {
      ghost var rest := c[i..];
      assert LinkAt(rest, 0) && he == c[i] && he.key in ChainKeys(c);
      assert rest[1..] == c[i + 1..] && At(rest, 1) == Head(rest[1..]);
      KeysOfNext(c, i);
      var nextHe := he.next;
      chains' := MoveEntry(table, mask, chains', keys + done, nodes, he, rest, others, from);
      assert keys + done + {he.key} == keys + (done + {he.key});
      done := done + {he.key};
      left := left - 1;
      he, i := nextHe, i + 1;
    }
    assert c[..i] == c;
  }

  /** Of all the keys, those not in moved are the ones from bucket i on. */
  ghost predicate Rest<V>(chains: seq<Chain<V>>, mask: nat, i: nat, moved: set<bytes>, all: set<bytes>) {
    && moved <= all
    && Apart(chains, i, moved)
    && forall k :: k in all - moved ==> Bucket(k, mask) >= i
  }

  lemma RestStep<V>(chains: seq<Chain<V>>, mask: nat, i: nat, moved: set<bytes>, all: set<bytes>)
    requires i < |chains| && Structure(chains, mask, all) && Rest(chains, mask, i, moved, all)
    ensures var own := ChainKeys(chains[i]);
            && own <= all - moved && |own| == |chains[i]|
            && Apart(chains, i + 1, own)
            && Rest(chains, mask, i + 1, moved + own, all)
  {
    var c, own := chains[i], ChainKeys(chains[i]);
    assert Keyed(c, i, mask) && Within(c, all);
    CountKeys(c);
    forall b, j | i + 1 <= b < |chains| && 0 <= j < |chains[b]| ensures chains[b][j].key !in own {
      assert Keyed(chains[b], b, mask);
    }
    forall k | k in all - (moved + own) ensures Bucket(k, mask) >= i + 1 {
      assert k in all - moved && HasKey(chains[Bucket(k, mask)], k);
    }
  }

  /** What moving the chain of bucket i will mean for the keys. */
  lemma BeforeMove<V>(chains: seq<Chain<V>>, mask: nat, i: nat, moved: set<bytes>, all: set<bytes>)
    requires i < |chains| && Structure(chains, mask, all) && Rest(chains, mask, i, moved, all)
    ensures var c, own := chains[i], ChainKeys(chains[i]);
            && own !! moved && Apart(chains, i + 1, own) && Rest(chains, mask, i + 1, moved + own, all)
            && |all - (moved + own)| == |all - moved| - |c|
            && forall j, k :: 0 <= j < k < |c| ==> c[j].key != c[k].key
  {
    var own := ChainKeys(chains[i]);
    RestStep(chains, mask, i, moved, all);
    assert Keyed(chains[i], i, mask);
    assert all - moved == (all - (moved + own)) + own;
  }

  /** When the buckets or the entries have run out, all keys have been moved. */
  lemma AllMoved<V>(chains: seq<Chain<V>>, mask: nat, i: nat, moved: set<bytes>, all: set<bytes>)
    requires i <= |chains| && (i == |chains| || |all - moved| == 0)
    requires if |chains| == 0 then all == {} else Structure(chains, mask, all) && Rest(chains, mask, i, moved, all)
    requires moved <= all
    ensures moved == all
  {
    if i == |chains| {
      forall k | k in all ensures k in moved {
        assert k in all - moved ==> Bucket(k, mask) >= i;
      }
    } else {
      assert all - moved == {};
    }
  }

  lemma EmptyStructure<V>(mask: nat)
    ensures Structure<V>(seq(mask + 1, _ => []), mask, {})
  {
  }

  /** The outer loop of dictExpand(), which stops as soon as no entries are left. */
  method MoveAll<V>(table: Table<V>, ghost chains: seq<Chain<V>>, ghost mask: nat, ghost keys: set<bytes>,
                    ghost nodes: set<Entry<V>>, used: int, ntable: Table<V>, nmask: nat)
      returns (ghost nch: seq<Chain<V>>, left: int)
    requires Links(table, chains, nodes) && used == |keys|
    requires if table.Length == 0 then keys == {} else Structure(chains, mask, keys)
    requires ntable != table && ntable.Length == nmask + 1 && forall b :: 0 <= b <= nmask ==> ntable[b] == null
    modifies ntable, nodes`next
    ensures Links(ntable, nch, nodes) && Structure(nch, nmask, keys)
    ensures left == 0
  {
    left := used;
    nch := seq(nmask + 1, _ => []);
    EmptyStructure<V>(nmask);
    ghost var moved: set<bytes> := {};
    var i: nat := 0;
    assert keys - moved == keys;
    while i < table.Length && left > 0
      invariant i <= table.Length && left == |keys - moved|
      invariant LinkedFrom(chains, nodes, i)
      invariant Links(ntable, nch, nodes) && Structure(nch, nmask, moved)
      invariant table.Length > 0 ==> Rest(chains, mask, i, moved, keys)
      invariant moved <= keys
    {
      ghost var own := ChainKeys(chains[i]);
      BeforeMove(chains, mask, i, moved, keys);
      assert table[i] == Head(chains[i]);
      nch, left := MoveChain(ntable, nmask, nch, moved, nodes, table[i], chains[i], left, chains, i + 1);
      moved := moved + own;
      i := i + 1;
    }
    AllMoved(chains, mask, i, moved, keys);
  }

  class Dict<V> {
    var table: Table<V>   // length 0 stands for NULL
    var size: nat
    var sizemask: nat
    var used: int

    ghost var chains: seq<Chain<V>>
    ghost var nodes: set<Entry<V>>
    ghost var m: map<bytes, V>
    ghost var entries: map<bytes, Entry<V>>   // the entry of each key

    /** No two entries have the same key. */
    ghost predicate Unique()
      reads `nodes, `entries
    {
      forall e :: e in nodes ==> e.key in entries && entries[e.key] == e
    }

    ghost predicate Sized()
      reads this
    {
      && size == table.Length && used == |m.Keys| && (used <= size || size == PORT_LONG_MAX)
      && if size == 0 then sizemask == 0 && m.Keys == {} else
           sizemask == size - 1 && TableSize(size) && Structure(chains, sizemask, m.Keys)
    }

    ghost predicate Valid()
      reads this, table, nodes
    {
      Sized() && Unique() && Links(table, chains, nodes) && Holds(nodes, m)
    }

    /** dictCreate() */
    constructor ()
      ensures Valid() && fresh(table) && nodes == {} && m == map[]
    {
      table := new Entry?<V>[0];
      size, sizemask, used := 0, 0, 0;
      chains, nodes, m, entries := [], {}, map[], map[];
    }

    /** Where a key is, if it is present. */
    lemma InBucket(key: bytes)
      requires Valid() && size > 0
      ensures var h := Bucket(key, sizemask);
              && h < size && Linked(chains[h]) && table[h] == Head(chains[h]) && Keyed(chains[h], h, sizemask)
              && (key in m <==> HasKey(chains[h], key))
              && forall i :: 0 <= i < |chains[h]| ==> chains[h][i] in nodes
    {
      var h := Bucket(key, sizemask);
      assert Keyed(chains[h], h, sizemask) && Within(chains[h], m.Keys) && Owned(chains[h], nodes);
      assert key in m ==> HasKey(chains[h], key);
    }

    /** Below the cap, the bucket of a key is its hash modulo the number of buckets: every bucket can be used. */
    lemma BucketIsRemainder(key: bytes)
      requires Valid() && 0 < size < PORT_LONG_MAX
      ensures Bucket(key, sizemask) == GenHash(key) % size
    {
      var k := LogOf(size);
      MaskIsRemainder(GenHash(key), k);
    }

    /** What bucket b holds. */
    lemma BucketAt(b: nat)
      requires Valid() && b < size
      ensures |chains| == size == table.Length && table[b] == Head(chains[b]) && Linked(chains[b])
    {
    }

    /** dictFind() */
    method Find(key: bytes) returns (de: Entry?<V>)
      requires Valid()
      ensures de == null <==> key !in m
      ensures de != null ==> de in nodes && de.key == key && de.val == m[key]
    {
      if size == 0 {
        return null;
      }
      var hash := GenHashFunction(key);
      var h := BitAnd(hash, sizemask);
      InBucket(key);
      var prev, he, i := Search(table[h], key, chains[h]);
      return he;
    }

    /** dictExpand(): every entry moves to a table with room for at least n of them. */
    method Expand(n: nat) returns (ok: bool)
      requires Valid() && n > 0
      modifies this, nodes`next
      ensures Valid() && m == old(m) && nodes == old(nodes)
      ensures ok == (old(used) <= n)
      ensures if ok then fresh(table) && (size == PORT_LONG_MAX || size >= n)
              else table == old(table) && size == old(size)
    {
      var realsize := NextPower(n);
      if used > n {
        return false;
      }
      var ntable := new Entry?<V>[realsize](_ => null);
      var count := used;
      ghost var nch;
      var left;
      nch, left := MoveAll(table, chains, sizemask, m.Keys, nodes, used, ntable, realsize - 1);
      assert left == 0;
      Install(ntable, realsize, count, nch);
      return true;
    }

    /** The end of dictExpand(): the new table replaces the old one. */
    method Install(ntable: Table<V>, realsize: nat, count: int, ghost nch: seq<Chain<V>>)
      requires realsize == ntable.Length > 0 && TableSize(realsize) && count == |m.Keys|
      requires count <= realsize || realsize == PORT_LONG_MAX
      requires Links(ntable, nch, nodes) && Holds(nodes, m) && Unique() && Structure(nch, realsize - 1, m.Keys)
      modifies `table, `size, `sizemask, `used, `chains
      ensures Valid() && table == ntable && size == realsize
    {
      table, size, sizemask, used := ntable, realsize, realsize - 1, count;
      chains := nch;
    }

    /** _dictExpandIfNeeded() */
    method ExpandIfNeeded() returns (ok: bool)
      requires Valid()
      modifies this, nodes`next
      ensures Valid() && m == old(m) && nodes == old(nodes)
      ensures ok && size > 0 && (used < size || size == PORT_LONG_MAX)
      ensures table == old(table) || fresh(table)
    {
      if size == 0 {
        ok := Expand(DICT_HT_INITIAL_SIZE);
        return;
      }
      if used == size {
        ok := Expand(size * 2);
        return;
      }
      return true;
    }

    /** _dictKeyIndex(): the bucket for a new key, -1 if it is present. */
    method KeyIndex(key: bytes) returns (index: int)
      requires Valid()
      modifies this, nodes`next
      ensures Valid() && m == old(m) && nodes == old(nodes) && size > 0 && (used < size || size == PORT_LONG_MAX)
      ensures table == old(table) || fresh(table)
      ensures index == if key in m then -1 else Bucket(key, sizemask)
    {
      var ok := ExpandIfNeeded();
      if !ok {
        return -1;
      }
      var hash := GenHashFunction(key);
      var h := BitAnd(hash, sizemask);
      InBucket(key);
      var prev, he, i := Search(table[h], key, chains[h]);
      return if he != null then -1 else h;
    }

    /** dictAdd() */
    method Add(key: bytes, val: V) returns (added: bool)
      requires Valid()
      modifies this, table, nodes`next
      ensures Valid() && added == (key !in old(m))
      ensures m == if added then old(m)[key := val] else old(m)
      ensures fresh(nodes - old(nodes)) && (table == old(table) || fresh(table))
      ensures old(nodes) <= nodes && |nodes| == |old(nodes)| + if added then 1 else 0
    {
      var index := KeyIndex(key);
      if index == -1 {
        return false;
      }
      var entry := new Entry(key, val, table[index]);
      Link(entry, index);
      return true;
    }

    /** The second half of dictAdd(): the new entry goes into its bucket and is counted. */
    method Link(entry: Entry<V>, index: nat)
      requires Valid() && size > 0 && index == Bucket(entry.key, sizemask) && entry.key !in m && entry !in nodes
      requires used < size || size == PORT_LONG_MAX
      modifies `used, `chains, `nodes, `m, `entries, table, entry`next
      ensures Valid() && m == old(m)[entry.key := entry.val] && nodes == old(nodes) + {entry}
    {
      StructurePushed(chains, sizemask, m.Keys, entry);
      PushFront(table, chains, nodes, entry, index);
      Account(entry, index);
    }

    /** The bookkeeping for a new entry. */
    method Account(entry: Entry<V>, ghost index: nat)
      requires Sized() && Unique() && Holds(nodes, m)
      requires index < |chains| && size > 0 && entry.key !in m && entry !in nodes
      requires used < size || size == PORT_LONG_MAX
      requires Structure(Pushed(chains, index, entry), sizemask, m.Keys + {entry.key})
      modifies `used, `chains, `nodes, `m, `entries
      ensures Sized() && Unique() && Holds(nodes, m)
      ensures m == old(m)[entry.key := entry.val] && nodes == old(nodes) + {entry}
      ensures chains == Pushed(old(chains), index, entry)
    {
      ghost var m' := m[entry.key := entry.val];
      assert m'.Keys == m.Keys + {entry.key};
      used := used + 1;
      chains, nodes, m := Pushed(chains, index, entry), nodes + {entry}, m';
      entries := entries[entry.key := entry];
    }

    /** dictReplace() */
    method Replace(key: bytes, val: V) returns (added: bool)
      requires Valid()
      modifies this, table, nodes
      ensures Valid() && added == (key !in old(m)) && m == old(m)[key := val]
      ensures fresh(nodes - old(nodes)) && (table == old(table) || fresh(table))
    {
      added := Add(key, val);
      if added {
        return;
      }
      var entry := Find(key);
      Overwrite(entry, val);
    }

    method Overwrite(entry: Entry<V>, val: V)
      requires Valid() && entry in nodes
      modifies `m, entry`val
      ensures Valid() && m == old(m)[entry.key := val]
    {
      assert m[entry.key := val].Keys == m.Keys;
      entry.val := val;
      m := m[entry.key := val];
    }

    /** dictDelete() */
    method Delete(key: bytes) returns (ok: bool, ghost i: nat)
      requires Valid()
      modifies `used, `chains, `nodes, `m, table, nodes`next
      ensures Valid() && ok == (key in old(m))
      ensures m == old(m) - {key} && nodes <= old(nodes)
      ensures ok ==> var h := Bucket(key, sizemask);
                && size > 0 && i < |old(chains)[h]| && old(chains)[h][i].key == key
                && chains == Unlinked(old(chains), h, i)
    {
      i := 0;
      if size == 0 {
        assert m - {key} == m;
        return false, i;
      }
      var hash := GenHashFunction(key);
      var h := BitAnd(hash, sizemask);
      InBucket(key);
      var prev, de;
      prev, de, i := Search(table[h], key, chains[h]);
      if de == null {
        assert m - {key} == m;
        return false, i;
      }
      Remove(h, prev, de, i);
      return true, i;
    }

    /** The second half of dictDelete(): the entry leaves its bucket and is not counted any more. */
    method Remove(h: nat, prev: Entry?<V>, de: Entry<V>, ghost i: nat)
      requires Valid() && h < size && i < |chains[h]| && de == chains[h][i]
      requires prev == if i == 0 then null else chains[h][i - 1]
      modifies `used, `chains, `nodes, `m, table, nodes`next
      ensures Valid() && m == old(m) - {de.key} && nodes == old(nodes) - {de}
      ensures chains == Unlinked(old(chains), h, i)
    {
      assert Keyed(chains[h], h, sizemask) && Within(chains[h], m.Keys) && Owned(chains[h], nodes);
      StructureUnlinked(chains, sizemask, m.Keys, h, i);
      Unlink(table, chains, nodes, h, i, prev, de);
      Discount(de, h, i);
    }

    /** The bookkeeping for an entry that is gone. */
    method Discount(de: Entry<V>, ghost h: nat, ghost i: nat)
      requires Sized() && Unique() && Holds(nodes, m) && h < |chains| && i < |chains[h]| && de == chains[h][i]
      requires Structure(Unlinked(chains, h, i), sizemask, m.Keys - {de.key}) && size > 0 && de in nodes
      modifies `used, `chains, `nodes, `m
      ensures Sized() && Unique() && Holds(nodes, m)
      ensures m == old(m) - {de.key} && nodes == old(nodes) - {de}
      ensures chains == Unlinked(old(chains), h, i)
    {
      ghost var m' := m - {de.key};
      assert m'.Keys == m.Keys - {de.key};
      used := used - 1;
      chains, nodes, m := Unlinked(chains, h, i), nodes - {de}, m';
    }
  }
}
