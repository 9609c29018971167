/** Callbacks of the asynchronous API and the linked lists they wait in. */
module Callbacks {
  import opened Bytes

  /** redisCallback without its link; fn None is a NULL function pointer. */
  datatype Callback = Callback(fn: Option<int>, privdata: int)

  class Node {
    const cb: Callback
    var next: Node?

    constructor (cb: Callback)
      ensures this.cb == cb && next == null
    {
      this.cb, next := cb, null;
    }
  }

  ghost function CallbacksOf(nodes: seq<Node>): (s: seq<Callback>)
    ensures |s| == |nodes| && forall i :: 0 <= i < |s| ==> s[i] == nodes[i].cb
  {
    seq(|nodes|, i requires 0 <= i < |nodes| => nodes[i].cb)
  }

  /** redisCallbackList: head and tail pointers into a chain of nodes. */
  class CallbackList {
    var head: Node?
    var tail: Node?
    ghost var nodes: seq<Node>

    ghost predicate LinkAt(i: nat)
      requires i < |nodes|
      reads `nodes, {nodes[i]}`next
    {
      nodes[i].next == if i + 1 < |nodes| then nodes[i + 1] else null
    }

    ghost predicate Valid()
      reads this, nodes
    {
      && (if nodes == [] then head == null && tail == null else head == nodes[0] && tail == nodes[|nodes| - 1])
      && (forall i :: 0 <= i < |nodes| ==> LinkAt(i))
      && (forall i, j :: 0 <= i < j < |nodes| ==> nodes[i] != nodes[j])
    }

    ghost function Contents(): (s: seq<Callback>)
      reads `nodes
      ensures |s| == |nodes|
    {
      CallbacksOf(nodes)
    }

    constructor ()
      ensures Valid() && Contents() == [] && nodes == []
    {
      head, tail, nodes := null, null, [];
    }

    /** __redisPushCallback() */
    method Push(source: Callback)
      requires Valid()
      modifies this, nodes
      ensures Valid() && Contents() == old(Contents()) + [source]
      ensures forall n :: n in nodes ==> n in old(nodes) || fresh(n)
    {
      var cb := new Node(source);
      if head == null {
        head := cb;
      }
      if tail != null {
        tail.next := cb;
      }
      tail := cb;
      nodes := nodes + [cb];
      forall i | 0 <= i < |nodes| ensures LinkAt(i) {
        assert i < |nodes| - 2 ==> old(LinkAt(i));
      }
    }

    /** __redisShiftCallback(); None stands for REDIS_ERR. */
    method Shift() returns (target: Option<Callback>)
      requires Valid()
      modifies this
      ensures Valid() && forall n :: n in nodes ==> n in old(nodes)
      ensures if old(Contents()) == [] then target == None && Contents() == []
              else target == Some(old(Contents())[0]) && Contents() == old(Contents())[1..]
    {
      var cb := head;
      if cb != null {
        assert LinkAt(0);
        head := cb.next;
        if cb == tail {
          tail := null;
        }
        nodes := nodes[1..];
        forall i | 0 <= i < |nodes| ensures LinkAt(i) {
          assert old(LinkAt(i + 1));
        }
        return Some(cb.cb);
      }
      return None;
    }
  }
}
