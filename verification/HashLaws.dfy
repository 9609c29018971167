/** The hash function of the table as one number. */
module HashLaws {
  import opened Bytes
  import opened HashTable

  function Pow33(n: nat): nat {
    if n == 0 then 1 else 33 * Pow33(n - 1)
  }

  /** The bytes as digits to base 33, the first one weighing most. */
  function Weighted(s: bytes): nat {
    if s == [] then 0 else s[0] * Pow33(|s| - 1) + Weighted(s[1..])
  }

  lemma {:induction false} WeightedNext(s: bytes, c: byte)
    ensures Weighted(s + [c]) == 33 * Weighted(s) + c
    decreases |s|
  {
    var t := s + [c];
    if s == [] {
      assert t[1..] == [] && Pow33(0) == 1;
    } else {
      assert t[0] == s[0] && t[1..] == s[1..] + [c];
      WeightedNext(s[1..], c);
      var p := Pow33(|s| - 1);
      assert Pow33(|s|) == 33 * p && s[0] * (33 * p) == 33 * (s[0] * p);
    }
  }

  lemma ReduceOnce(a: nat, c: nat)
    ensures (a % 0x1_0000_0000 * 33 + c) % 0x1_0000_0000 == (a * 33 + c) % 0x1_0000_0000
  {
    var m := 0x1_0000_0000;
    var q, r := a / m, a % m;
    var x := r * 33 + c;
    assert a * 33 + c == (q * 33 + x / m) * m + x % m;
    DivModUnique(a * 33 + c, m, q * 33 + x / m, x % m);
  }

  /** Reduced to 32 bits at every byte, the hash is that number reduced once. */
  lemma {:induction false} HashMeans(s: bytes)
    ensures GenHash(s) == (5381 * Pow33(|s|) + Weighted(s)) % 0x1_0000_0000
    decreases |s|
  {
    if s == [] {
      assert Pow33(0) == 1;
    } else {
      var before, c := s[..|s| - 1], s[|s| - 1];
      var a := 5381 * Pow33(|before|) + Weighted(before);
      HashMeans(before);
      ReduceOnce(a, c);
      assert s == before + [c];
      WeightedNext(before, c);
      assert Pow33(|s|) == 33 * Pow33(|before|);
    }
  }
}
