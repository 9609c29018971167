/** Clients of the reader: a byte stream is fed in pieces and drained after each of them. */
module Feeding {
  import opened Bytes
  import opened Resp
  import opened Reader

  /** The objects spell out the replies, one by one. */
  ghost predicate AllRepresent(objs: seq<ReplyObject>, replies: seq<Reply>, closed: set<Slots>)
    reads closed
  {
    |objs| == |replies| && forall i :: 0 <= i < |objs| ==> Represents(objs[i], replies[i], closed)
  }

  lemma AllRepresentMore(objs: seq<ReplyObject>, replies: seq<Reply>, a: set<Slots>, b: set<Slots>)
    requires AllRepresent(objs, replies, a) && a <= b
    ensures AllRepresent(objs, replies, b)
  {
    forall i | 0 <= i < |objs| ensures Represents(objs[i], replies[i], b) {
      RepresentsMore(objs[i], replies[i], a, b);
    }
  }

  lemma OpenIsNotClosed(r: RedisReader)
    requires r.Valid()
    ensures forall i :: 0 <= i < |r.open| ==> r.open[i] !in r.closed
  {
    if r.ridx >= 0 {
      forall i | 0 <= i < |r.open| ensures r.open[i] !in r.closed {
        assert r.TaskOk(i);
      }
    }
  }

  /** One more reply; those taken before stay what they were. */
  method Next(r: RedisReader, ghost objs: seq<ReplyObject>, ghost got: seq<Reply>)
      returns (out: ReplyObject?, ghost v: Reply)
    requires r.Valid() && r.err.None? && AllRepresent(objs, got, r.closed)
    modifies r, r.rstack, r.open
    ensures r.Valid() && r.KeepsSlots() && AllRepresent(objs, got, r.closed)
    ensures match ParseReply(old(r.Unparsed()), 0)
            case Done(x, rest) =>
              r.err.None? && out != null && v == x && Represents(out, x, r.closed) && r.Unparsed() == rest
            case More => r.err.None? && out == null && r.Unparsed() == old(r.Unparsed())
            case Bad(e) => r.err == Some(e) && out == null
  {
    ghost var was := r.closed;
    OpenIsNotClosed(r);
    var ok;
    ok, out, v := r.GetReply();
    AllRepresentMore(objs, got, was, r.closed);
  }

  /** Of the bytes u, the replies got were taken out as the last of objs, after those of before. */
  ghost predicate Taking(r: RedisReader, u: bytes, objs: seq<ReplyObject>, before: seq<Reply>, got: seq<Reply>)
    reads r, r.rstack, r.open, r.closed
  {
    && r.Valid() && r.err.None? && AllRepresent(objs, before + got, r.closed)
    && Yields(u, got, r.Unparsed())
  }

  /** All there was in u was taken out. */
  ghost predicate TakenAll(r: RedisReader, u: bytes, objs: seq<ReplyObject>, before: seq<Reply>)
    reads r, r.rstack, r.open, r.closed
  {
    var t := ReadStream(u);
    && r.Valid() && AllRepresent(objs, before + t.replies, r.closed)
    && r.err == t.error && (r.err.None? ==> r.Unparsed() == t.leftover)
  }

  /** One more reply is taken out, if there is one. */
  method Take(r: RedisReader, taken: seq<ReplyObject>, ghost u: bytes, ghost before: seq<Reply>, ghost got: seq<Reply>)
      returns (objs: seq<ReplyObject>, more: bool, ghost got': seq<Reply>)
    requires Taking(r, u, taken, before, got)
    modifies r, r.rstack, r.open
    ensures r.KeepsSlots() && taken <= objs
    ensures more ==> Taking(r, u, objs, before, got') && |r.Unparsed()| < |old(r.Unparsed())|
    ensures !more ==> TakenAll(r, u, objs, before)
  {
    ghost var rest := r.Unparsed();
    YieldsStream(u, got, rest);
    var out, v := Next(r, taken, before + got);
    objs, more, got' := taken, out != null, got;
    if more {
      YieldsNext(u, got, rest);
      got' := got + [v];
      assert before + got' == (before + got) + [v];
      objs := taken + [out];
    } else {
      assert got + [] == got;
    }
  }

  /** Takes replies, after those taken before, until there are none left or the reader fails. */
  method Drain(r: RedisReader, taken: seq<ReplyObject>, ghost before: seq<Reply>) returns (objs: seq<ReplyObject>)
    requires r.Valid() && r.err.None? && AllRepresent(taken, before, r.closed)
    modifies r, r.rstack, r.open
    ensures r.KeepsSlots() && taken <= objs && TakenAll(r, old(r.Unparsed()), objs, before)
  {
    ghost var u, got := r.Unparsed(), [];
    objs := taken;
    assert before + got == before;
    var more := true;
    while more
      invariant r.KeepsSlots() && taken <= objs
      invariant if more then Taking(r, u, objs, before, got) else TakenAll(r, u, objs, before)
      decreases more, if more then |r.Unparsed()| else 0
    {
      assert forall a :: a in r.open ==> a in old(r.open) || fresh(a);
      assert forall i :: 0 <= i < |r.open| ==> r.open[i] in r.open;
      objs, more, got := Take(r, objs, u, before, got);
    }
  }

  /** The reader was fed the bytes of fed and gave out objs. */
  ghost predicate HasRead(r: RedisReader, fed: bytes, objs: seq<ReplyObject>)
    reads r, r.rstack, r.open, r.closed
  {
    var t := ReadStream(fed);
    && r.Valid() && r.err == t.error
    && AllRepresent(objs, t.replies, r.closed)
    && (r.err.None? ==> r.Unparsed() == t.leftover)
  }

  /** One more piece of the stream. */
  method FeedAndDrain(r: RedisReader, chunk: bytes, ghost fed: bytes, taken: seq<ReplyObject>)
      returns (objs: seq<ReplyObject>)
    requires HasRead(r, fed, taken)
    modifies r, r.rstack, r.open
    ensures HasRead(r, fed + chunk, objs) && r.KeepsSlots() && taken <= objs
  {
    StreamSplit(fed, chunk);
    var ok := r.Feed(chunk);
    if ok {
      objs := Drain(r, taken, ReadStream(fed).replies);
    } else {
      objs := taken;
      assert ReadStream(fed).replies + [] == ReadStream(fed).replies;
    }
  }

  /**
   However a stream is cut into pieces, the replies taken out while feeding them are those
   of the whole stream, and so is the error, if there is one.
   */
  method ReadAll(chunks: seq<bytes>)
      returns (objs: seq<ReplyObject>, err: Option<ProtocolError>, ghost slots: set<Slots>)
    ensures AllRepresent(objs, ReadStream(Concat(chunks)).replies, slots)
    ensures err == ReadStream(Concat(chunks)).error
  {
    var r := new RedisReader();
    objs := [];
    for k := 0 to |chunks|
      invariant fresh(r) && fresh(r.rstack) && fresh(r.open)
      invariant HasRead(r, Concat(chunks[..k]), objs)
    {
      ConcatAppend(chunks[..k], [chunks[k]]);
      assert chunks[..k + 1] == chunks[..k] + [chunks[k]];
      assert Concat([chunks[k]]) == chunks[k];
      ghost var was := r.open;
      objs := FeedAndDrain(r, chunks[k], Concat(chunks[..k]), objs);
      assert forall a :: a in r.open ==> a in was || fresh(a);
      assert forall i :: 0 <= i < |r.open| ==> r.open[i] in r.open;
    }
    assert chunks[..|chunks|] == chunks;
    return objs, r.err, r.closed;
  }
}
