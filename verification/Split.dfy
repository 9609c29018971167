/** Splitting a byte string at a separator and joining the pieces again. */
module Splitting {
  import opened Bytes

  /** sep occurs in s at position i. */
  predicate OccursAt(s: bytes, sep: bytes, i: int) {
    0 <= i <= |s| - |sep| && s[i..i + |sep|] == sep
  }

  ghost predicate NoneBetween(s: bytes, sep: bytes, i: nat, n: int) {
    forall j :: i <= j < n ==> !OccursAt(s, sep, j)
  }

  /** The pieces of s from start on, of which [start..j] is known not to meet a separator. */
  function Tokens(s: bytes, sep: bytes, start: nat, j: nat): seq<bytes>
    requires sep != [] && start <= j && start <= |s|
    decreases |s| - j
  {
    if j > |s| - |sep| then [s[start..]]
    else if OccursAt(s, sep, j) then [s[start..j]] + Tokens(s, sep, j + |sep|, j + |sep|)
    else Tokens(s, sep, start, j + 1)
  }

  function Join(parts: seq<bytes>, sep: bytes): bytes {
    if parts == [] then []
    else parts[0] + if |parts| == 1 then [] else sep + Join(parts[1..], sep)
  }

  /** Whether sep occurs at a place depends only on the bytes there. */
  lemma OccursInside(a: bytes, s: bytes, b: bytes, sep: bytes, j: nat)
    requires j + |sep| <= |s|
    ensures OccursAt(s, sep, j) == OccursAt(a + s + b, sep, |a| + j)
  {
    assert (a + s + b)[|a| + j..|a| + j + |sep|] == s[j..j + |sep|];
  }

  // ----- Splitting and joining are inverse -----

  lemma JoinFirst(p: bytes, parts: seq<bytes>, sep: bytes)
    requires parts != []
    ensures Join([p] + parts, sep) == p + (sep + Join(parts, sep))
  {
    assert ([p] + parts)[1..] == parts;
  }

  lemma Cut(s: bytes, sep: bytes, start: nat, j: nat)
    requires start <= j && OccursAt(s, sep, j)
    ensures s[start..] == s[start..j] + (sep + s[j + |sep|..])
  {
  }

  /** Joining the tokens gives back the string. */
  lemma {:induction false} JoinTokens(s: bytes, sep: bytes, start: nat, j: nat)
    requires sep != [] && start <= j && start <= |s|
    ensures Tokens(s, sep, start, j) != [] && Join(Tokens(s, sep, start, j), sep) == s[start..]
    decreases |s| - j
  {
    if j > |s| - |sep| {
      assert s[start..] + [] == s[start..];
    } else if OccursAt(s, sep, j) {
      var i := j + |sep|;
      JoinTokens(s, sep, i, i);
      JoinFirst(s[start..j], Tokens(s, sep, i, i), sep);
      Cut(s, sep, start, j);
    } else {
      JoinTokens(s, sep, start, j + 1);
    }
  }

  /** sep does not occur in p, not even with its end in a separator that follows. */
  ghost predicate Clean(p: bytes, sep: bytes, last: bool) {
    if last then NoneBetween(p, sep, 0, |p| + 1) else NoneBetween(p + sep, sep, 0, |p|)
  }

  /** No token contains the separator. */
  lemma {:induction false} TokensAreClean(s: bytes, sep: bytes, start: nat, j: nat, k: nat)
    requires sep != [] && start <= j && start <= |s| && NoneBetween(s, sep, start, j)
    requires k < |Tokens(s, sep, start, j)|
    ensures var t := Tokens(s, sep, start, j); Clean(t[k], sep, k + 1 == |t|)
    decreases |s| - j
  {
    if j > |s| - |sep| {
      LastIsClean(s, sep, start);
    } else if OccursAt(s, sep, j) {
      var i := j + |sep|;
      JoinTokens(s, sep, i, i);
      if k == 0 {
        FirstIsClean(s, sep, start, j);
      } else {
        TokensAreClean(s, sep, i, i, k - 1);
      }
    } else {
      TokensAreClean(s, sep, start, j + 1, k);
    }
  }

  lemma LastIsClean(s: bytes, sep: bytes, start: nat)
    requires start <= |s| && NoneBetween(s, sep, start, |s| - |sep| + 1)
    ensures Clean(s[start..], sep, true)
  {
    var t := s[start..];
    assert s == s[..start] + t + [];
    forall i | 0 <= i < |t| + 1 ensures !OccursAt(t, sep, i) {
      if i + |sep| <= |t| {
        OccursInside(s[..start], t, [], sep, i);
      }
    }
  }

  lemma FirstIsClean(s: bytes, sep: bytes, start: nat, j: nat)
    requires start <= j && OccursAt(s, sep, j) && NoneBetween(s, sep, start, j)
    ensures Clean(s[start..j], sep, false)
  {
    var t := s[start..j];
    Cut(s, sep, 0, j);
    assert s == s[..start] + (t + sep) + s[j + |sep|..];
    forall i | 0 <= i < |t| ensures !OccursAt(t + sep, sep, i) {
      if i + |sep| <= |t + sep| {
        OccursInside(s[..start], t + sep, s[j + |sep|..], sep, i);
      }
    }
  }

  /** Pieces that join to a string and are clean are its tokens. */
  lemma {:induction false} TokensUnique(parts: seq<bytes>, sep: bytes, s: bytes, start: nat)
    requires sep != [] && parts != [] && start <= |s| && s[start..] == Join(parts, sep)
    requires forall k :: 0 <= k < |parts| ==> Clean(parts[k], sep, k + 1 == |parts|)
    ensures Tokens(s, sep, start, start) == parts
  {
    var p := parts[0];
    assert Clean(p, sep, 1 == |parts|);
    if |parts| == 1 {
      assert s[start..] == p + [] == p;
      LastToken(s, sep, start);
    } else {
      var tail := parts[1..];
      assert forall k :: 0 <= k < |tail| ==> tail[k] == parts[k + 1];
      JoinMore(parts, sep);
      FirstToken(s, p, sep, Join(tail, sep), start);
      TokensUnique(tail, sep, s, start + |p| + |sep|);
      assert parts == [p] + tail;
    }
  }

  lemma JoinMore(parts: seq<bytes>, sep: bytes)
    requires |parts| > 1
    ensures Join(parts, sep) == parts[0] + (sep + Join(parts[1..], sep))
  {
    Assoc(parts[0], sep, Join(parts[1..], sep));
  }

  lemma LastToken(s: bytes, sep: bytes, start: nat)
    requires sep != [] && start <= |s| && Clean(s[start..], sep, true)
    ensures Tokens(s, sep, start, start) == [s[start..]]
  {
    NoneInLast(s, sep, start);
    SkipClean(s, sep, start, start, |s| + 1);
  }

  lemma FirstToken(s: bytes, p: bytes, sep: bytes, rest: bytes, start: nat)
    requires sep != [] && start <= |s| && s[start..] == p + (sep + rest) && Clean(p, sep, false)
    ensures var i := start + |p| + |sep|;
            i <= |s| && s[i..] == rest && Tokens(s, sep, start, start) == [p] + Tokens(s, sep, i, i)
  {
    NoneInFirst(s, p, sep, rest, start);
    SkipClean(s, sep, start, start, start + |p|);
  }

  /** Positions without a separator do not matter. */
  lemma {:induction false} SkipClean(s: bytes, sep: bytes, start: nat, j: nat, n: nat)
    requires sep != [] && start <= j <= n && start <= |s| && NoneBetween(s, sep, j, n)
    ensures Tokens(s, sep, start, j) == if n > |s| then [s[start..]] else Tokens(s, sep, start, n)
    decreases n - j
  {
    if j < n && j <= |s| - |sep| {
      assert !OccursAt(s, sep, j);
      SkipClean(s, sep, start, j + 1, n);
    }
  }

  lemma NoneInLast(s: bytes, sep: bytes, start: nat)
    requires start <= |s| && Clean(s[start..], sep, true)
    ensures NoneBetween(s, sep, start, |s| + 1)
  {
    var t := s[start..];
    assert s == s[..start] + t + [];
    forall i | start <= i < |s| + 1 ensures !OccursAt(s, sep, i) {
      if i + |sep| <= |s| {
        OccursInside(s[..start], t, [], sep, i - start);
      }
    }
  }

  lemma NoneInFirst(s: bytes, p: bytes, sep: bytes, rest: bytes, start: nat)
    requires start <= |s| && s[start..] == p + (sep + rest) && Clean(p, sep, false)
    ensures NoneBetween(s, sep, start, start + |p|) && OccursAt(s, sep, start + |p|)
    ensures s[start..start + |p|] == p && s[start + |p| + |sep|..] == rest
  {
    assert s == s[..start] + (p + sep) + rest;
    forall i | start <= i <= start + |p| ensures OccursAt(s, sep, i) == OccursAt(p + sep, sep, i - start) {
      if i + |sep| <= start + |p + sep| {
        OccursInside(s[..start], p + sep, rest, sep, i - start);
      }
    }
  }

  // ----- The methods -----

  /** sdsjoinsds() */
  method JoinSds(argv: seq<bytes>, sep: bytes) returns (join: bytes)
    ensures join == Join(argv, sep)
  {
    join := [];
    var j := 0;
    while j < |argv|
      invariant 0 <= j <= |argv|
      invariant join + Join(argv[j..], sep) == Join(argv, sep)
    {
      assert argv[j..][1..] == argv[j + 1..];
      ghost var rest := Join(argv[j + 1..], sep);
      if j != |argv| - 1 {
        assert join + (argv[j] + (sep + rest)) == join + argv[j] + sep + rest;
        join := join + argv[j] + sep;
      } else {
        assert join + (argv[j] + []) == join + argv[j] + [];
        join := join + argv[j];
      }
      j := j + 1;
    }
  }

  /** Room for the next token and the final one, by s_realloc() if need be. */
  method MakeRoom(tokens: array<bytes>, elements: nat) returns (room: array<bytes>)
    requires elements < tokens.Length
    ensures elements + 2 <= room.Length && room[..elements] == tokens[..elements]
    ensures room == tokens || fresh(room)
  {
    room := tokens;
    var slots := tokens.Length;
    if slots < elements + 2 {
      slots := slots * 2;
      room := new bytes[slots](_ => []);
      forall i | 0 <= i < tokens.Length {
        room[i] := tokens[i];
      }
    }
  }

  method Store(tokens: array<bytes>, elements: nat, token: bytes) returns (n: nat)
    requires elements < tokens.Length
    modifies tokens
    ensures n == elements + 1 && tokens[..n] == old(tokens[..elements]) + [token]
  {
    tokens[elements] := token;
    n := elements + 1;
  }

  /** The tokens found so far and those still to be found. */
  ghost predicate Splits(all: seq<bytes>, found: seq<bytes>, s: bytes, sep: bytes, start: nat, j: nat)
    requires sep != [] && start <= j && start <= |s|
  {
    all == found + Tokens(s, sep, start, j)
  }

  lemma SplitsHere(all: seq<bytes>, found: seq<bytes>, s: bytes, sep: bytes, start: nat, j: nat)
    requires sep != [] && start <= j && OccursAt(s, sep, j) && Splits(all, found, s, sep, start, j)
    ensures Splits(all, found + [s[start..j]], s, sep, j + |sep|, j + |sep|)
  {
    Assoc(found, [s[start..j]], Tokens(s, sep, j + |sep|, j + |sep|));
  }

  lemma SplitsAfter(all: seq<bytes>, found: seq<bytes>, s: bytes, sep: bytes, start: nat, j: nat)
    requires sep != [] && start <= j && start <= |s| && !OccursAt(s, sep, j) && Splits(all, found, s, sep, start, j)
    ensures Splits(all, found, s, sep, start, j + 1)
    ensures j > |s| - |sep| ==> all == found + [s[start..]]
  {
  }

  /** sdssplitlen(); None stands for NULL. Every token is written inside the array. */
  method SplitLen(s: bytes, sep: bytes) returns (r: Option<seq<bytes>>)
    ensures r == if sep == [] then None else if s == [] then Some([]) else Some(Tokens(s, sep, 0, 0))
  {
    var len, seplen := |s|, |sep|;
    if seplen < 1 {
      return None;
    }
    var elements: nat, start: nat, j: nat := 0, 0, 0;
    var tokens := new bytes[5](_ => []);
    if len == 0 {
      return Some([]);
    }
    ghost var all := Tokens(s, sep, 0, 0);
    while j < len - (seplen - 1)
      invariant start <= j <= len
      invariant elements < tokens.Length && fresh(tokens)
      invariant Splits(all, tokens[..elements], s, sep, start, j)
    {
      tokens := MakeRoom(tokens, elements);
      if OccursAt(s, sep, j) {
        SplitsHere(all, tokens[..elements], s, sep, start, j);
        elements := Store(tokens, elements, s[start..j]);
        start := j + seplen;
        j := j + seplen - 1;
      } else {
        SplitsAfter(all, tokens[..elements], s, sep, start, j);
      }
      j := j + 1;
    }
    SplitsAfter(all, tokens[..elements], s, sep, start, j);
    elements := Store(tokens, elements, s[start..]);
    return Some(tokens[..elements]);
  }
}
