/** The hash table over whole runs: it answers like a map. */
module TableRuns {
  import opened Bytes
  import opened HashTable

  datatype Op<V> =
    | AddOp(key: bytes, val: V)
    | ReplaceOp(key: bytes, val: V)
    | DeleteOp(key: bytes)
    | FindOp(key: bytes)

  datatype Answer<V> = Did(yes: bool) | Found(val: Option<V>)

  /** What a plain map answers to one operation, and what it becomes. */
  function Respond<V>(m: map<bytes, V>, op: Op<V>): (Answer<V>, map<bytes, V>) {
    match op
    case AddOp(k, v) => (Did(k !in m), if k in m then m else m[k := v])
    case ReplaceOp(k, v) => (Did(k !in m), m[k := v])
    case DeleteOp(k) => (Did(k in m), m - {k})
    case FindOp(k) => (Found(if k in m then Some(m[k]) else None), m)
  }

  /** The same for a sequence of operations. */
  function Answers<V>(m: map<bytes, V>, ops: seq<Op<V>>): (seq<Answer<V>>, map<bytes, V>)
    decreases |ops|
  {
    if ops == [] then ([], m) else
    var before := Answers(m, ops[..|ops| - 1]);
    var last := Respond(before.1, ops[|ops| - 1]);
    (before.0 + [last.0], last.1)
  }

  method Apply<V>(d: Dict<V>, op: Op<V>) returns (a: Answer<V>)
    requires d.Valid()
    modifies d, d.table, d.nodes
    ensures d.Valid() && fresh(d.nodes - old(d.nodes)) && (d.table == old(d.table) || fresh(d.table))
    ensures a == Respond(old(d.m), op).0 && d.m == Respond(old(d.m), op).1
  {
    match op
    case AddOp(k, v) =>
      var added := d.Add(k, v);
      a := Did(added);
    case ReplaceOp(k, v) =>
      var added := d.Replace(k, v);
      a := Did(added);
    case DeleteOp(k) =>
      var found, _ := d.Delete(k);
      a := Did(found);
    case FindOp(k) =>
      var de := d.Find(k);
      a := Found(if de == null then None else Some(de.val));
  }

  /** Every sequence of operations on a new table gets the answers a map gives. */
  method Run<V>(ops: seq<Op<V>>) returns (answers: seq<Answer<V>>)
    ensures answers == Answers(map[], ops).0
  {
    var d := new Dict<V>();
    answers := [];
    for i := 0 to |ops|
      invariant fresh(d) && fresh(d.table) && fresh(d.nodes) && d.Valid()
      invariant answers == Answers(map[], ops[..i]).0 && d.m == Answers(map[], ops[..i]).1
    {
      assert ops[..i + 1][..i] == ops[..i];
      var a := Apply(d, ops[i]);
      answers := answers + [a];
    }
    assert ops[..|ops|] == ops;
  }
}
