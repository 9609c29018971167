/**
 The incremental reply reader: a compacting input buffer, a stack of nine read tasks and
 reply objects that are linked into their parent's slots while they are still growing.
 */
module Reader {
  import opened Bytes
  import opened Decimal
  import opened Resp
  import Strings = SdsStrings

  // ----- The stack machine against the grammar -----

  /** An array under construction: the announced count and the elements read so far. */
  datatype Frame = Frame(count: nat, done: seq<Reply>)

  /** What remains to be parsed once the innermost item has come out as p. */
  ghost function Finish(frames: seq<Frame>, p: Parse): Parse
    decreases |frames|
  {
    if frames == [] || !p.Done? then p
    else
      var f := frames[|frames| - 1];
      Finish(frames[..|frames| - 1], ParseElems(p.rest, f.count, f.done + [p.reply], |frames|))
  }

  /** Parsing goes on below the given frames; the current item's type may be known already. */
  ghost function Resume(frames: seq<Frame>, kind: Option<Kind>, s: bytes): Parse {
    Finish(frames, if kind.Some? then ParseItem(kind.value, s, |frames|) else ParseReply(s, |frames|))
  }

  /** Having consumed seen, the machine stands exactly where the grammar would. */
  ghost predicate Agrees(seen: bytes, frames: seq<Frame>, kind: Option<Kind>) {
    forall x {:trigger Resume(frames, kind, x)} :: Resume(frames, kind, x) == ParseReply(seen + x, 0)
  }

  /** The same, just after the current item has come out as r. */
  ghost predicate AgreesAfter(seen: bytes, frames: seq<Frame>, r: Reply) {
    forall x {:trigger Finish(frames, Done(r, x))} :: Finish(frames, Done(r, x)) == ParseReply(seen + x, 0)
  }

  lemma StartAgrees()
    ensures Agrees([], [], None)
  {
    forall x: bytes ensures Resume([], None, x) == ParseReply([] + x, 0) {
      assert [] + x == x;
    }
  }

  /** Consuming bytes that the grammar would consume keeps the two in step. */
  lemma StepAgrees(seen: bytes, a: seq<Frame>, k: Option<Kind>, step: bytes, b: seq<Frame>, l: Option<Kind>)
    requires Agrees(seen, a, k)
    requires forall x {:trigger Resume(b, l, x)} :: Resume(b, l, x) == Resume(a, k, step + x)
    ensures Agrees(seen + step, b, l)
  {
    forall x ensures Resume(b, l, x) == ParseReply(seen + step + x, 0) {
      Assoc(seen, step, x);
    }
  }

  lemma TypeByteAgrees(seen: bytes, frames: seq<Frame>, b: byte)
    requires Agrees(seen, frames, None) && KindOf(b).Some?
    ensures Agrees(seen + [b], frames, KindOf(b))
  {
    forall x ensures Resume(frames, KindOf(b), x) == Resume(frames, None, [b] + x) {
      assert ([b] + x)[0] == b && ([b] + x)[1..] == x;
    }
    StepAgrees(seen, frames, None, [b], frames, KindOf(b));
  }

  /** An item that is complete in itself is complete whatever follows it. */
  lemma ItemAgrees(seen: bytes, frames: seq<Frame>, kind: Kind, item: bytes, r: Reply)
    requires Agrees(seen, frames, Some(kind)) && ParseItem(kind, item, |frames|) == Done(r, [])
    ensures AgreesAfter(seen + item, frames, r)
  {
    forall x ensures Finish(frames, Done(r, x)) == ParseReply(seen + item + x, 0) {
      Assoc(seen, item, x);
      assert Resume(frames, Some(kind), item + x) == Finish(frames, Done(r, x)) by {
        ItemThen(kind, item, r, x, |frames|);
      }
    }
  }

  lemma ItemThen(kind: Kind, item: bytes, r: Reply, x: bytes, depth: nat)
    requires ParseItem(kind, item, depth) == Done(r, [])
    ensures ParseItem(kind, item + x, depth) == Done(r, x)
  {
    ItemStable(kind, item, x, depth);
    assert [] + x == x;
  }

  /** The header of a non-empty array opens a frame. */
  lemma PushAgrees(seen: bytes, frames: seq<Frame>, line: bytes)
    requires Agrees(seen, frames, Some(KArray)) && |frames| < MAX_DEPTH
    requires Crlf(line + CRLF) == |line| && LongLong(line) > 0
    ensures Agrees(seen + (line + CRLF), frames + [Frame(LongLong(line), [])], None)
  {
    var deeper := frames + [Frame(LongLong(line), [])];
    forall x ensures Resume(deeper, None, x) == Resume(frames, Some(KArray), line + CRLF + x) {
      PushThen(frames, line, x);
    }
    StepAgrees(seen, frames, Some(KArray), line + CRLF, deeper, None);
  }

  lemma PushThen(frames: seq<Frame>, line: bytes, x: bytes)
    requires |frames| < MAX_DEPTH && Crlf(line + CRLF) == |line| && LongLong(line) > 0
    ensures Resume(frames, Some(KArray), line + CRLF + x) ==
            Resume(frames + [Frame(LongLong(line), [])], None, x)
  {
    var deeper := frames + [Frame(LongLong(line), [])];
    assert deeper[..|frames|] == frames;
    ArrayThen(line, x, |frames|);
    NextElement(deeper, x);
  }

  lemma ArrayThen(line: bytes, x: bytes, depth: nat)
    requires depth < MAX_DEPTH && Crlf(line + CRLF) == |line| && LongLong(line) > 0
    ensures ParseItem(KArray, line + CRLF + x, depth) == ParseElems(x, LongLong(line), [], depth + 1)
  {
    var s := line + CRLF + x;
    CrlfUnique(line + CRLF, x, |line|);
    assert s[..|line|] == line && s[|line| + 2..] == x;
  }

  /** Going on with the next element is the same as parsing all that the frame still lacks. */
  lemma NextElement(frames: seq<Frame>, x: bytes)
    requires frames != [] && var f := frames[|frames| - 1]; |f.done| < f.count
    ensures var f := frames[|frames| - 1];
            Resume(frames, None, x) ==
            Finish(frames[..|frames| - 1], ParseElems(x, f.count, f.done, |frames|))
  {
  }

  /** A frame that is full becomes an item of the frame around it. */
  lemma PopAgrees(seen: bytes, frames: seq<Frame>, r: Reply)
    requires AgreesAfter(seen, frames, r)
    requires frames != [] && var f := frames[|frames| - 1]; |f.done| + 1 == f.count
    ensures var f := frames[|frames| - 1];
            AgreesAfter(seen, frames[..|frames| - 1], Arr(f.count, f.done + [r]))
  {
    var f := frames[|frames| - 1];
    forall x ensures Finish(frames[..|frames| - 1], Done(Arr(f.count, f.done + [r]), x)) == ParseReply(seen + x, 0) {
      assert Finish(frames, Done(r, x)) == ParseReply(seen + x, 0);
    }
  }

  /** A frame that is not full goes on with its next element. */
  lemma AdvanceAgrees(seen: bytes, frames: seq<Frame>, r: Reply)
    requires AgreesAfter(seen, frames, r)
    requires frames != [] && var f := frames[|frames| - 1]; |f.done| + 1 < f.count
    ensures var f := frames[|frames| - 1];
            Agrees(seen, frames[..|frames| - 1] + [Frame(f.count, f.done + [r])], None)
  {
    var f := frames[|frames| - 1];
    var next := frames[..|frames| - 1] + [Frame(f.count, f.done + [r])];
    assert next[..|frames| - 1] == frames[..|frames| - 1];
    forall x ensures Resume(next, None, x) == ParseReply(seen + x, 0) {
      assert Finish(frames, Done(r, x)) == ParseReply(seen + x, 0);
      NextElement(next, x);
    }
  }

  /** The bytes of an item, cut out of the input, are an item by themselves. */
  lemma LineAlone(s: bytes, i: nat, n: nat)
    requires i == Crlf(s) && i + 2 + n <= |s|
    ensures var item := s[..i + 2 + n]; Crlf(item) == i && item[..i] == s[..i] && item[i + 2..] == s[i + 2..i + 2 + n]
  {
    var item := s[..i + 2 + n];
    assert CrlfAt(item, i);
    assert forall j :: 0 <= j < i && CrlfAt(item, j) ==> CrlfAt(s, j);
    CrlfUnique(item, [], i);
  }

  lemma NilBulkAlone(s: bytes, i: nat, d: nat)
    requires i == Crlf(s) && i + 2 <= |s| && LongLong(s[..i]) < 0
    ensures ParseItem(KString, s[..i + 2], d) == Done(Nil, [])
  {
    LineAlone(s, i, 0);
  }

  lemma FullBulkAlone(s: bytes, i: nat, l: nat, d: nat)
    requires i == Crlf(s) && i + 2 + l + 2 <= |s| && l == LongLong(s[..i])
    ensures ParseItem(KString, s[..i + 2 + l + 2], d) == Done(Str(s[i + 2..i + 2 + l]), [])
  {
    LineAlone(s, i, l + 2);
    var item := s[..i + 2 + l + 2];
    assert item[i + 2..][..l] == s[i + 2..i + 2 + l];
  }

  lemma BulkIncomplete(s: bytes, i: nat, l: nat, d: nat)
    requires i == Crlf(s) && i + 2 <= |s| < i + 2 + l + 2 && l == LongLong(s[..i])
    ensures ParseItem(KString, s, d) == More
  {
  }

  lemma LineItemAlone(kind: Kind, s: bytes, i: nat, d: nat)
    requires i == Crlf(s) && i + 2 <= |s| && (kind.KError? || kind.KStatus? || kind.KInteger?)
    ensures ParseItem(kind, s[..i + 2], d) == Done(LineOf(kind, s[..i]), [])
  {
    LineAlone(s, i, 0);
  }

  lemma NoElementsAlone(s: bytes, i: nat, n: int, d: nat)
    requires i == Crlf(s) && i + 2 <= |s| && n == LongLong(s[..i]) && n <= 0 && d < MAX_DEPTH
    ensures ParseItem(KArray, s[..i + 2], d) == Done(if n == -1 then Nil else Arr(n, []), [])
  {
    LineAlone(s, i, 0);
  }

  lemma HeaderAgrees(seen: bytes, frames: seq<Frame>, s: bytes, i: nat)
    requires Agrees(seen, frames, Some(KArray)) && |frames| < MAX_DEPTH
    requires i == Crlf(s) && i + 2 <= |s| && LongLong(s[..i]) > 0
    ensures Agrees(seen + s[..i + 2], frames + [Frame(LongLong(s[..i]), [])], None)
  {
    HeaderLine(s, i);
    PushAgrees(seen, frames, s[..i]);
  }

  lemma HeaderLine(s: bytes, i: nat)
    requires i == Crlf(s) && i + 2 <= |s|
    ensures s[..i + 2] == s[..i] + CRLF && Crlf(s[..i] + CRLF) == |s[..i]|
  {
    LineAlone(s, i, 0);
    assert s[..i + 2] == s[..i] + [s[i], s[i + 1]];
  }

  /** What the reader does with a number line: the digits end at the CR. */
  lemma NumberOf(buf: bytes, p: nat, i: nat)
    requires p + i < |buf| && buf[p + i] == CR
    ensures CR in buf[p..] && LongLong(buf[p..]) == LongLong(buf[p..p + i])
  {
    assert buf[p..] == buf[p..p + i] + [CR] + buf[p + i + 1..];
    LongLongStops(buf[p..p + i], buf[p + i + 1..]);
    assert buf[p..][i] == CR;
  }

  /** Reading n bytes of the buffer moves them into seen. */
  lemma Consumed(buf: bytes, p: nat, n: nat, len: nat, seen: bytes)
    requires p + n <= len <= |buf|
    ensures seen + buf[p..p + n] + buf[p + n..len] == seen + buf[p..len]
    ensures buf[p..len][..n] == buf[p..p + n]
  {
    assert buf[p..len] == buf[p..p + n] + buf[p + n..len];
    Assoc(seen, buf[p..p + n], buf[p + n..len]);
  }

  /** The front of the unread part, found in the buffer. */
  lemma Front(buf: bytes, p: nat, n: nat, len: nat)
    requires p + n <= len <= |buf|
    ensures buf[p..len][..n] == buf[p..p + n] && (p + n < len ==> buf[p..len][n] == buf[p + n])
  {
  }

  /** A part of the unread bytes, found in the buffer. */
  lemma Inside(buf: bytes, p: nat, len: nat, i: nat, n: nat)
    requires p + i + n <= len <= |buf|
    ensures buf[p..len][i..i + n] == buf[p + i..p + i + n]
  {
    var a, b := buf[p..len][i..i + n], buf[p + i..p + i + n];
    forall k | 0 <= k < n ensures a[k] == b[k] {
    }
  }

  /** What appending does to the part from p on. */
  lemma Appended(buf: bytes, p: nat, len: nat, chunk: bytes)
    requires p <= len <= |buf|
    ensures var b := buf[..len] + chunk + [NUL];
            && |b| == len + |chunk| + 1 && b[len + |chunk|] == NUL
            && b[p..len + |chunk|] == buf[p..len] + chunk
  {
  }

  // ----- Reply objects -----

  /** redisReply; only the slots of an array change after creation. */
  class ReplyObject {
    const kind: ReplyKind
    const str: bytes
    const integer: int
    const elements: int
    const element: array?<ReplyObject?>

    constructor (kind: ReplyKind, str: bytes, integer: int, elements: int, element: array?<ReplyObject?>)
      ensures this.kind == kind && this.str == str && this.integer == integer
      ensures this.elements == elements && this.element == element
    {
      this.kind, this.str, this.integer := kind, str, integer;
      this.elements, this.element := elements, element;
    }
  }

  datatype ReplyKind = TString | TArray | TInteger | TNil | TStatus | TError

  type Slots = array<ReplyObject?>

  /** The object graph at o spells out the reply v; every slot it goes through is in closed. */
  ghost predicate Represents(o: ReplyObject, v: Reply, closed: set<Slots>)
    reads closed
    decreases v
  {
    match v
    case Str(text) => o.kind == TString && o.str == text
    case Status(text) => o.kind == TStatus && o.str == text
    case Error(text) => o.kind == TError && o.str == text
    case Integer(n) => o.kind == TInteger && o.integer == n
    case Nil => o.kind == TNil
    case Arr(count, elems) =>
      && o.kind == TArray && o.elements == count
      && (elems == [] ==> o.element == null)
      && (elems != [] ==>
        && o.element != null && o.element in closed && o.element.Length == |elems|
        && forall i :: 0 <= i < |elems| ==>
             o.element[i] != null && Represents(o.element[i], elems[i], closed))
  }

  lemma {:induction false} RepresentsMore(o: ReplyObject, v: Reply, a: set<Slots>, b: set<Slots>)
    requires Represents(o, v, a) && a <= b
    ensures Represents(o, v, b)
    decreases v
  {
    if v.Arr? && v.elems != [] {
      forall i | 0 <= i < |v.elems| ensures Represents(o.element[i], v.elems[i], b) {
        RepresentsMore(o.element[i], v.elems[i], a, b);
      }
    }
  }

  /** The first slots hold the given replies. */
  ghost predicate Holds(slots: Slots, done: seq<Reply>, closed: set<Slots>)
    reads slots, closed
  {
    && |done| <= slots.Length
    && forall j :: 0 <= j < |done| ==> slots[j] != null && Represents(slots[j], done[j], closed)
  }

  lemma HoldsMore(slots: Slots, done: seq<Reply>, a: set<Slots>, b: set<Slots>)
    requires Holds(slots, done, a) && a <= b
    ensures Holds(slots, done, b)
  {
    forall j | 0 <= j < |done| ensures Represents(slots[j], done[j], b) {
      RepresentsMore(slots[j], done[j], a, b);
    }
  }

  /** An array whose slots are all filled and closed spells out its elements. */
  lemma FullArray(o: ReplyObject, slots: Slots, done: seq<Reply>, closed: set<Slots>)
    requires o.kind == TArray && o.elements == slots.Length == |done| > 0 && o.element == slots
    requires slots in closed && Holds(slots, done, closed)
    ensures Represents(o, Arr(|done|, done), closed)
  {
  }

  // ----- The reader -----

  /** redisReadTask; parent is an index into the stack, -1 for none. */
  datatype ReadTask = ReadTask(kind: Option<Kind>, elements: int, idx: int, obj: ReplyObject?, parent: int)

  /** seekNewline(): looks at buf[p + len] too, the NUL that ends the string. */
  method SeekNewline(buf: bytes, p: nat, len: nat) returns (r: int)
    requires p + len < |buf| && buf[p + len] == NUL
    ensures r == Crlf(buf[p..p + len])
  {
    ghost var s := buf[p..p + len];
    var pos, last := 0, len - 1;
    while pos < last
      invariant 0 <= pos <= len
      invariant forall i :: 0 <= i < pos ==> !CrlfAt(s, i)
    {
      while pos < last && buf[p + pos] != CR
        invariant 0 <= pos <= last
        invariant forall i :: 0 <= i < pos ==> !CrlfAt(s, i)
      {
        assert s[pos] == buf[p + pos];
        pos := pos + 1;
      }
      assert s[pos] == buf[p + pos];
      if buf[p + pos] != CR {
        return -1;
      } else if buf[p + pos + 1] == LF {
        assert CrlfAt(s, pos);
        return pos;
      } else {
        pos := pos + 1;
      }
    }
    return -1;
  }

  const STACK_SIZE := 9
  const REDIS_READER_MAX_BUF := 1024 * 16

  class RedisReader {
    var err: Option<ProtocolError>
    var buf: bytes         // len bytes and a NUL; empty after an error
    var alloc: nat         // allocation behind buf
    var pos: nat
    var len: nat
    var maxbuf: nat
    const rstack: array<ReadTask>
    var ridx: int
    var reply: ReplyObject?

    ghost var seen: bytes          // bytes consumed since the last reply came out
    ghost var frames: seq<Frame>   // what the tasks below the current one have gathered
    ghost var open: seq<Slots>     // their slots
    ghost var closed: set<Slots>   // slots that are complete and will not change
    ghost var value: Reply         // what the last complete reply spells out

    /** Everything fed to the reader that has not come out as a reply. */
    ghost function Unparsed(): bytes
      requires pos <= len <= |buf|
      reads `seen, `buf, `pos, `len
    {
      seen + buf[pos..len]
    }

    /** The unread part of the input buffer. */
    function Unread(): bytes
      requires pos <= len <= |buf|
      reads `buf, `pos, `len
    {
      buf[pos..len]
    }

    ghost predicate BufferOk()
      reads `err, `buf, `alloc, `pos, `len
    {
      && (err.None? ==> |buf| == len + 1 && buf[len] == NUL && pos <= len <= alloc)
      && (err.Some? ==> buf == [] && pos == len == 0)
    }

    /** Task i has opened an array: the slots below its child's index are filled and closed. */
    ghost predicate TaskOk(i: int)
      requires 0 <= i < ridx < rstack.Length && |frames| == |open| == ridx
      reads `ridx, `frames, `open, `closed, rstack, open, closed
    {
      var t, child := rstack[i], rstack[i + 1];
      && t.kind == Some(KArray) && t.elements == frames[i].count
      && t.obj != null && t.obj.kind == TArray && t.obj.elements == t.elements
      && t.obj.element == open[i] && open[i].Length == t.elements
      && child.parent == i && 0 <= child.idx < t.elements && child.idx == |frames[i].done|
      && Holds(open[i], frames[i].done, closed)
      && (forall j :: child.idx < j < open[i].Length ==> open[i][j] == null)
      && (i < ridx - 1 ==> open[i][child.idx] == child.obj)
      && open[i] !in closed
    }

    /** The stack of tasks, except for the slot of the current item. */
    ghost predicate StackOk()
      reads `ridx, `frames, `open, `closed, rstack, open, closed
    {
      && rstack.Length == STACK_SIZE && 0 <= ridx <= MAX_DEPTH
      && |frames| == |open| == ridx
      && rstack[0].parent == -1
      && (forall i :: 0 <= i < ridx ==> TaskOk(i))
      && (forall i, j :: 0 <= i < j < ridx ==> open[i] != open[j])
    }

    /** The slot that the current item will fill. */
    ghost function CurrentSlot(): ReplyObject?
      requires StackOk()
      reads `ridx, `frames, `open, `closed, rstack, open, closed
    {
      if ridx == 0 then null else
        assert TaskOk(ridx - 1);
        open[ridx - 1][rstack[ridx].idx]
    }

    /** In the middle of a reply. */
    ghost predicate Working()
      reads `ridx, `frames, `open, `closed, `reply, `seen, rstack, open, closed
    {
      && StackOk()
      && CurrentSlot() == null
      && reply == (if ridx == 0 then null else rstack[0].obj)
      && Agrees(seen, frames, rstack[ridx].kind)
    }

    /** In the middle of a reply, between two calls. */
    ghost predicate Paused()
      reads `ridx, `frames, `open, `closed, `reply, `seen, rstack, open, closed
    {
      Working() && !(ridx == MAX_DEPTH && rstack[ridx].kind == Some(KArray))
    }

    /** The current item is the object o, which spells out r and is in its slot. */
    ghost predicate Attached(o: ReplyObject, r: Reply)
      reads `ridx, `frames, `open, `closed, `reply, `seen, rstack, open, closed
    {
      && StackOk()
      && (ridx > 0 ==> CurrentSlot() == o)
      && reply == (if ridx == 0 then o else rstack[0].obj)
      && Represents(o, r, closed)
      && AgreesAfter(seen, frames, r)
    }

    /** The whole reply is there, waiting to be handed out. */
    ghost predicate Complete()
      reads `ridx, `frames, `open, `closed, `reply, `seen, `value, closed
    {
      && ridx == -1 && frames == [] && open == [] && rstack.Length == STACK_SIZE
      && reply != null && Represents(reply, value, closed)
      && AgreesAfter(seen, [], value)
    }

    /** Between replies. */
    ghost predicate Idle()
      reads `ridx, `frames, `open, `reply, `seen
    {
      ridx == -1 && reply == null && seen == [] && frames == [] && open == [] && rstack.Length == STACK_SIZE
    }

    ghost predicate Valid()
      reads this, rstack, open, closed
    {
      BufferOk() && (Idle() || (err.None? && Paused()))
    }

    constructor ()
      ensures Valid() && fresh(rstack) && fresh(open)
      ensures err.None? && Unparsed() == [] && closed == {}
    {
      err, buf, alloc, pos, len, maxbuf := None, [NUL], 0, 0, 0, REDIS_READER_MAX_BUF;
      rstack := new ReadTask[STACK_SIZE](_ => ReadTask(None, 0, 0, null, -1));
      ridx, reply := -1, null;
      seen, frames, open, closed, value := [], [], [], {}, Nil;
    }

    /** redisReaderFeed() */
    method Feed(chunk: bytes) returns (ok: bool)
      requires Valid()
      modifies `buf, `alloc, `pos, `len
      ensures Valid() && ok == err.None?
      ensures ok ==> Unparsed() == old(Unparsed()) + chunk
    {
      if err.Some? {
        return false;
      }
      Append(chunk);
      return true;
    }

    /** The buffer takes the chunk; an empty one that is too large is replaced first. */
    method Append(chunk: bytes)
      requires BufferOk() && err.None?
      modifies `buf, `alloc, `pos, `len
      ensures BufferOk() && Unparsed() == old(Unparsed()) + chunk
    {
      if |chunk| >= 1 {
        if len == 0 && maxbuf != 0 && alloc - len > maxbuf {
          buf, alloc := [NUL], 0;
          pos := 0;
        }
        if alloc - len < |chunk| {
          alloc := Strings.GrownSize(len, |chunk|);
        }
        Appended(buf, pos, len, chunk);
        Assoc(seen, buf[pos..len], chunk);
        buf := buf[..len] + chunk + [NUL];
        len := len + |chunk|;
      }
    }

    /** The array around the current item is full: its slots are closed, and it spells out its elements. */
    ghost method Close(o: ReplyObject, r: Reply) returns (o': ReplyObject, r': Reply)
      requires Attached(o, r) && ridx > 0
      requires rstack[ridx].idx == rstack[ridx - 1].elements - 1
      modifies `closed
      ensures closed == old(closed) + {open[ridx - 1]} && forall i :: 0 <= i < ridx - 1 ==> TaskOk(i)
      ensures o' == rstack[ridx - 1].obj && Represents(o', r', closed) && AgreesAfter(seen, frames[..ridx - 1], r')
    {
      var top := ridx - 1;
      assert TaskOk(top);
      var f, slots := frames[top], open[top];
      PopAgrees(seen, frames, r);
      o', r' := rstack[top].obj, Arr(f.count, f.done + [r]);
      closed := closed + {slots};
      HoldsMore(slots, f.done, old(closed), closed);
      RepresentsMore(o, r, old(closed), closed);
      FullArray(o', slots, f.done + [r], closed);
      forall i | 0 <= i < top ensures TaskOk(i) {
        assert old(TaskOk(i));
        HoldsMore(open[i], frames[i].done, old(closed), closed);
      }
    }

    /** The top task leaves the stack. */
    method Drop()
      requires rstack.Length == STACK_SIZE && 0 < ridx <= MAX_DEPTH && |frames| == |open| == ridx
      requires rstack[0].parent == -1 && forall i :: 0 <= i < ridx - 1 ==> TaskOk(i)
      requires forall i, j :: 0 <= i < j < ridx ==> open[i] != open[j]
      modifies `ridx, `frames, `open
      ensures ridx == old(ridx) - 1 && frames == old(frames)[..ridx] && open == old(open)[..ridx]
      ensures StackOk() && (ridx > 0 ==> CurrentSlot() == rstack[ridx].obj)
    {
      ridx := ridx - 1;
      frames, open := frames[..ridx], open[..ridx];
      forall i | 0 <= i < ridx ensures TaskOk(i) {
        assert old(TaskOk(i));
      }
      ghost var top := ridx - 1;
      assert top >= 0 ==> old(TaskOk(top));
    }

    /** ... and it becomes the current item itself. */
    method Pop(ghost o: ReplyObject, ghost r: Reply) returns (ghost o': ReplyObject, ghost r': Reply)
      requires Attached(o, r) && ridx > 0
      requires rstack[ridx].idx == rstack[ridx - 1].elements - 1
      modifies `ridx, `frames, `open, `closed
      ensures ridx == old(ridx) - 1 && Attached(o', r')
      ensures open == old(open)[..ridx] && old(closed) <= closed
      ensures forall a :: a in closed ==> a in old(closed) || a in old(open)
    {
      o', r' := Close(o, r);
      Drop();
    }

    /** moveToNextTask() */
    method MoveToNextTask(ghost o: ReplyObject, ghost r: Reply)
      requires Attached(o, r)
      modifies `ridx, `frames, `open, `closed, `value, rstack
      ensures Complete() || (Working() && rstack[ridx].kind.None?)
      ensures open <= old(open) && old(closed) <= closed
      ensures forall a :: a in closed ==> a in old(closed) || a in old(open)
    {
      ghost var o', r' := o, r;
      while ridx >= 0
        invariant Attached(o', r')
        invariant open <= old(open) && old(closed) <= closed
        invariant forall a :: a in closed ==> a in old(closed) || a in old(open)
        decreases ridx
      {
        if ridx == 0 {
          ridx := ridx - 1;
          value := r';
          return;
        }
        assert TaskOk(ridx - 1);
        if rstack[ridx].idx == rstack[ridx - 1].elements - 1 {
          o', r' := Pop(o', r');
        } else {
          Advance(o', r');
          return;
        }
      }
    }

    /** The array around the current item has a slot for another one. */
    method Advance(ghost o: ReplyObject, ghost r: Reply)
      requires Attached(o, r) && ridx > 0
      requires rstack[ridx].idx < rstack[ridx - 1].elements - 1
      modifies `frames, rstack
      ensures Working() && rstack[ridx].kind.None?
    {
      ghost var top := ridx - 1;
      assert TaskOk(top);
      AdvanceAgrees(seen, frames, r);
      var cur := rstack[ridx];
      rstack[ridx] := cur.(kind := None, elements := -1, idx := cur.idx + 1);
      frames := frames[..top] + [Frame(frames[top].count, frames[top].done + [r])];
      forall i | 0 <= i < ridx ensures TaskOk(i) {
        assert old(TaskOk(i));
      }
    }

    /** Slots in use are old ones or new ones; closed slots stay closed. */
    twostate predicate KeepsSlots()
      reads `open, `closed
    {
      && old(closed) <= closed
      && (forall a :: a in open ==> a in old(open) || fresh(a))
      && (forall a :: a in closed ==> a in old(closed) || a in old(open) || fresh(a))
    }

    /** The common end of create*Object(): the new object goes into its parent's slot. */
    method Attach(o: ReplyObject)
      requires StackOk() && CurrentSlot() == null
      modifies if ridx == 0 then {} else {open[ridx - 1]}
      ensures StackOk() && (ridx > 0 ==> CurrentSlot() == o)
    {
      var cur := rstack[ridx];
      if ridx > 0 {
        assert TaskOk(ridx - 1);
      }
      if cur.parent >= 0 {
        var slots := rstack[cur.parent].obj.element;
        slots[cur.idx] := o;
        forall i | 0 <= i < ridx ensures TaskOk(i) {
          assert old(TaskOk(i));
          assert forall j :: 0 <= j < ridx ==> old(TaskOk(j));
        }
      }
    }

    /** A finished object is attached and the machine moves on. */
    method Deliver(o: ReplyObject, ghost r: Reply, ghost item: bytes)
      requires Working() && rstack[ridx].kind.Some?
      requires ParseItem(rstack[ridx].kind.value, item, |frames|) == Done(r, [])
      requires Represents(o, r, {})
      modifies `ridx, `frames, `open, `closed, `value, `reply, `seen, rstack, open
      ensures Working() || Complete()
      ensures KeepsSlots() && seen == old(seen) + item
    {
      ItemAgrees(seen, frames, rstack[ridx].kind.value, item, r);
      Attach(o);
      if ridx == 0 {
        reply := o;
      }
      seen := seen + item;
      RepresentsMore(o, r, {}, closed);
      MoveToNextTask(o, r);
    }

    /** The item found at the front of the buffer is consumed and delivered. */
    method Consume(o: ReplyObject, n: nat, ghost r: Reply)
      requires BufferOk() && err.None? && Working() && rstack[ridx].kind.Some?
      requires 0 < n <= |Unread()|
      requires ParseItem(rstack[ridx].kind.value, Unread()[..n], |frames|) == Done(r, [])
      requires Represents(o, r, {})
      modifies `pos, `ridx, `frames, `open, `closed, `value, `reply, `seen, rstack, open
      ensures BufferOk() && KeepsSlots() && Unparsed() == old(Unparsed())
      ensures (Working() || Complete()) && |Unread()| < old(|Unread()|)
    {
      ghost var item := Unread()[..n];
      Consumed(buf, pos, n, len, seen);
      pos := pos + n;
      Deliver(o, r, item);
    }

    /** The line that processLineItem() finds, as an object; null when it is not there yet. */
    method ReadLineItem(kind: Kind, ghost d: nat) returns (o: ReplyObject?, n: nat, ghost r: Reply)
      requires BufferOk() && err.None? && (kind.KError? || kind.KStatus? || kind.KInteger?)
      ensures o == null ==> ParseItem(kind, Unread(), d) == More
      ensures o != null ==>
                && 0 < n <= |Unread()| && Represents(o, r, {})
                && ParseItem(kind, Unread()[..n], d) == Done(r, [])
    {
      ghost var s := Unread();
      var i := SeekNewline(buf, pos, len - pos);
      r := Nil;
      if i < 0 {
        return null, 0, r;
      }
      n := i + 2;
      LineItemAlone(kind, s, i, d);
      r := LineOf(kind, s[..i]);
      o := MakeLineObject(kind, i);
    }

    /** The object for a line of i bytes. */
    method MakeLineObject(kind: Kind, i: nat) returns (o: ReplyObject)
      requires BufferOk() && err.None? && (kind.KError? || kind.KStatus? || kind.KInteger?)
      requires i + 2 <= |Unread()| && i == Crlf(Unread())
      ensures Represents(o, LineOf(kind, Unread()[..i]), {})
    {
      Front(buf, pos, i, len);
      if kind == KInteger {
        NumberOf(buf, pos, i);
        var v := ReadLongLong(buf, pos);
        o := new ReplyObject(TInteger, [], v, 0, null);
      } else {
        o := new ReplyObject(if kind == KError then TError else TStatus, buf[pos..pos + i], 0, 0, null);
      }
    }

    /** processLineItem() */
    method ProcessLineItem() returns (ok: bool)
      requires BufferOk() && err.None? && Working()
      requires rstack[ridx].kind in {Some(KError), Some(KStatus), Some(KInteger)}
      modifies `pos, `ridx, `frames, `open, `closed, `value, `reply, `seen, rstack, open
      ensures BufferOk() && KeepsSlots() && Unparsed() == old(Unparsed())
      ensures ok ==> (Working() || Complete()) && |Unread()| < old(|Unread()|)
      ensures !ok ==> Working() && Resume(frames, rstack[ridx].kind, Unread()) == More
    {
      var o, n, r := ReadLineItem(rstack[ridx].kind.value, |frames|);
      if o == null {
        return false;
      }
      Consume(o, n, r);
      return true;
    }

    /** The number on the next line of the buffer; i is where the line ends, -1 if it does not yet. */
    method ReadNumber() returns (i: int, v: int)
      requires BufferOk() && err.None?
      ensures i == Crlf(Unread())
      ensures i >= 0 ==> v == LongLong(Unread()[..i])
    {
      v := 0;
      i := SeekNewline(buf, pos, len - pos);
      if i >= 0 {
        Front(buf, pos, i, len);
        NumberOf(buf, pos, i);
        v := ReadLongLong(buf, pos);
      }
    }

    /** The bulk string that processBulkItem() finds, as an object; null when it is not all there. */
    method ReadBulkItem(ghost d: nat) returns (o: ReplyObject?, n: nat, ghost r: Reply)
      requires BufferOk() && err.None?
      ensures o == null ==> ParseItem(KString, Unread(), d) == More
      ensures o != null ==>
                && 0 < n <= |Unread()| && Represents(o, r, {})
                && ParseItem(KString, Unread()[..n], d) == Done(r, [])
    {
      ghost var s := Unread();
      var i, l := ReadNumber();
      r := Nil;
      if i < 0 {
        return null, 0, r;
      }
      if l < 0 {
        NilBulkAlone(s, i, d);
        o := new ReplyObject(TNil, [], 0, 0, null);
        return o, i + 2, r;
      }
      n := i + 2 + l + 2;
      if pos + n > len {
        BulkIncomplete(s, i, l, d);
        return null, 0, r;
      }
      FullBulkAlone(s, i, l, d);
      r := Str(s[i + 2..i + 2 + l]);
      o := MakeBulkObject(i + 2, l);
    }

    /** The object for the l unread bytes from the i-th on. */
    method MakeBulkObject(i: nat, l: nat) returns (o: ReplyObject)
      requires BufferOk() && i + l <= |Unread()|
      ensures Represents(o, Str(Unread()[i..i + l]), {})
    {
      Inside(buf, pos, len, i, l);
      o := new ReplyObject(TString, buf[pos + i..pos + i + l], 0, 0, null);
    }

    /** processBulkItem() */
    method ProcessBulkItem() returns (ok: bool)
      requires BufferOk() && err.None? && Working()
      requires rstack[ridx].kind == Some(KString)
      modifies `pos, `ridx, `frames, `open, `closed, `value, `reply, `seen, rstack, open
      ensures BufferOk() && KeepsSlots() && Unparsed() == old(Unparsed())
      ensures ok ==> (Working() || Complete()) && |Unread()| < old(|Unread()|)
      ensures !ok ==> Working() && Resume(frames, rstack[ridx].kind, Unread()) == More
    {
      var o, n, r := ReadBulkItem(|frames|);
      if o == null {
        return false;
      }
      Consume(o, n, r);
      return true;
    }

    /** An array with empty slots that the reader does not know yet. */
    ghost predicate NewArray(o: ReplyObject, slots: Slots)
      reads `open, `closed, slots
    {
      && o.kind == TArray && o.elements == slots.Length > 0 && o.element == slots
      && slots !in open && slots !in closed
      && forall j :: 0 <= j < slots.Length ==> slots[j] == null
    }

    /** n bytes of the buffer are consumed. */
    method Skip(n: nat)
      requires BufferOk() && err.None? && 0 < n <= |Unread()|
      modifies `pos, `seen
      ensures BufferOk() && Unparsed() == old(Unparsed()) && |Unread()| < old(|Unread()|)
      ensures seen == old(seen) + old(Unread()[..n])
    {
      Consumed(buf, pos, n, len, seen);
      seen := seen + Unread()[..n];
      pos := pos + n;
    }

    /** A task for the first element of the array o, which is in its place, goes on the stack. */
    method PushTask(o: ReplyObject, slots: Slots)
      requires StackOk() && ridx < MAX_DEPTH && rstack[ridx].kind == Some(KArray)
      requires (ridx > 0 ==> CurrentSlot() == o) && reply == (if ridx == 0 then o else rstack[0].obj)
      requires NewArray(o, slots)
      requires Agrees(seen, frames + [Frame(slots.Length, [])], None)
      modifies `ridx, `frames, `open, rstack
      ensures Working() && open == old(open) + [slots]
    {
      var cur := rstack[ridx];
      rstack[ridx] := cur.(elements := slots.Length, obj := o);
      ridx := ridx + 1;
      rstack[ridx] := ReadTask(None, -1, 0, null, ridx - 1);
      frames, open := frames + [Frame(slots.Length, [])], open + [slots];
      forall k | 0 <= k < ridx ensures TaskOk(k) {
        if k < ridx - 1 {
          assert old(TaskOk(k));
        }
      }
    }

    /** The array o is attached and its elements are up next. */
    method PushArray(o: ReplyObject, slots: Slots)
      requires StackOk() && CurrentSlot() == null && reply == (if ridx == 0 then null else rstack[0].obj)
      requires ridx < MAX_DEPTH && rstack[ridx].kind == Some(KArray)
      requires NewArray(o, slots)
      requires Agrees(seen, frames + [Frame(slots.Length, [])], None)
      modifies `ridx, `frames, `open, `reply, rstack, open
      ensures Working() && open == old(open) + [slots]
    {
      Attach(o);
      if ridx == 0 {
        reply := o;
      }
      PushTask(o, slots);
    }

    /** A non-empty array: its header line is consumed. */
    method Push(o: ReplyObject, slots: Slots, i: nat)
      requires BufferOk() && err.None? && Working()
      requires rstack[ridx].kind == Some(KArray) && ridx < MAX_DEPTH
      requires i == Crlf(Unread()) && LongLong(Unread()[..i]) == slots.Length > 0
      requires NewArray(o, slots)
      modifies `pos, `ridx, `frames, `open, `reply, `seen, rstack, open
      ensures BufferOk() && Working() && open == old(open) + [slots]
      ensures Unparsed() == old(Unparsed()) && |Unread()| < old(|Unread()|)
    {
      HeaderAgrees(seen, frames, Unread(), i);
      Skip(i + 2);
      PushArray(o, slots);
    }

    /** __redisReaderSetError() */
    method SetError(e: ProtocolError)
      requires rstack.Length == STACK_SIZE
      modifies this
      ensures err == Some(e) && Idle() && BufferOk() && closed == old(closed)
    {
      reply := null;
      buf, pos, len := [], 0, 0;
      ridx := -1;
      err := Some(e);
      seen, frames, open := [], [], [];
    }

    /** A nil or empty array is finished with its header line. */
    method FinishArray(i: nat, n: int)
      requires BufferOk() && err.None? && Working()
      requires rstack[ridx].kind == Some(KArray) && ridx < MAX_DEPTH
      requires i == Crlf(Unread()) && n == LongLong(Unread()[..i]) && n <= 0
      modifies `pos, `ridx, `frames, `open, `closed, `value, `reply, `seen, rstack, open
      ensures BufferOk() && KeepsSlots() && Unparsed() == old(Unparsed())
      ensures (Working() || Complete()) && |Unread()| < old(|Unread()|)
    {
      NoElementsAlone(Unread(), i, n, |frames|);
      var o := new ReplyObject(if n == -1 then TNil else TArray, [], 0, if n == -1 then 0 else n, null);
      Consume(o, i + 2, if n == -1 then Nil else Arr(n, []));
    }

    /** The header line of an array is there. */
    method ProcessArrayHeader(i: nat, n: int)
      requires BufferOk() && err.None? && Working()
      requires rstack[ridx].kind == Some(KArray) && ridx < MAX_DEPTH
      requires i == Crlf(Unread()) && n == LongLong(Unread()[..i])
      modifies `pos, `ridx, `frames, `open, `closed, `value, `reply, `seen, rstack, open
      ensures BufferOk() && KeepsSlots() && Unparsed() == old(Unparsed())
      ensures (Working() || Complete()) && |Unread()| < old(|Unread()|)
    {
      if n <= 0 {
        FinishArray(i, n);
      } else {
        var slots := new ReplyObject?[n](_ => null);
        var o := new ReplyObject(TArray, [], 0, n, slots);
        Push(o, slots, i);
      }
    }

    /** processMultiBulkItem() */
    method ProcessMultiBulkItem() returns (ok: bool)
      requires BufferOk() && err.None? && Working()
      requires rstack[ridx].kind == Some(KArray)
      modifies this, rstack, open
      ensures BufferOk() && KeepsSlots()
      ensures err.None? ==> Unparsed() == old(Unparsed())
      ensures ok ==> err.None? && (Working() || Complete()) && |Unread()| < old(|Unread()|)
      ensures !ok && err.None? ==> Working() && Resume(frames, rstack[ridx].kind, Unread()) == More
      ensures err.Some? ==> !ok && Idle() && ParseReply(old(Unparsed()), 0) == Bad(err.value)
    {
      if ridx == 8 {
        assert Resume(frames, Some(KArray), Unread()) == Bad(TooDeep);
        SetError(TooDeep);
        return false;
      }
      var i, n := ReadNumber();
      if i < 0 {
        return false;
      }
      ProcessArrayHeader(i, n);
      return true;
    }

    /** The type byte of the current item, the first part of processItem(). */
    method ReadType() returns (ok: bool)
      requires BufferOk() && err.None? && Working() && rstack[ridx].kind.None?
      modifies this, rstack
      ensures BufferOk() && open <= old(open) && closed == old(closed)
      ensures err.None? ==> Working() && Unparsed() == old(Unparsed())
      ensures ok ==> err.None? && rstack[ridx].kind.Some? && |Unread()| < old(|Unread()|)
      ensures !ok && err.None? ==> Resume(frames, rstack[ridx].kind, Unread()) == More
      ensures err.Some? ==> !ok && Idle() && ParseReply(old(Unparsed()), 0) == Bad(err.value)
    {
      if len - pos < 1 {
        return false;
      }
      var b := buf[pos];
      assert Unread()[0] == b && Unread()[..1] == [b];
      if KindOf(b).None? {
        assert Resume(frames, None, Unread()) == Bad(BadTypeByte(b));
        SetError(BadTypeByte(b));
        return false;
      }
      TypeByteAgrees(seen, frames, b);
      Skip(1);
      rstack[ridx] := rstack[ridx].(kind := KindOf(b));
      forall i | 0 <= i < ridx ensures TaskOk(i) {
        assert old(TaskOk(i));
      }
      return true;
    }

    /** Where processItem() leaves the reader, u being unparsed and left unread before it. */
    ghost predicate Stepped(ok: bool, u: bytes, left: nat)
      reads this, rstack, open, closed
    {
      && BufferOk()
      && (err.None? ==> Unparsed() == u)
      && (ok ==> err.None? && (Working() || Complete()) && |Unread()| < left)
      && (!ok && err.None? ==> Working() && Resume(frames, rstack[ridx].kind, Unread()) == More)
      && (err.Some? ==> !ok && Idle() && ParseReply(u, 0) == Bad(err.value))
    }

    /** The typed part of processItem(). */
    method ProcessTypedItem() returns (ok: bool)
      requires BufferOk() && err.None? && Working() && rstack[ridx].kind.Some?
      modifies this, rstack, open
      ensures KeepsSlots() && Stepped(ok, old(Unparsed()), old(|Unread()|))
    {
      match rstack[ridx].kind.value
      case KString => ok := ProcessBulkItem();
      case KArray => ok := ProcessMultiBulkItem();
      case _ => ok := ProcessLineItem();
    }

    /** processItem() */
    method ProcessItem() returns (ok: bool)
      requires BufferOk() && err.None? && Working()
      modifies this, rstack, open
      ensures KeepsSlots() && Stepped(ok, old(Unparsed()), old(|Unread()|))
    {
      if rstack[ridx].kind.None? {
        ok := ReadType();
        if !ok {
          return;
        }
      }
      ok := ProcessTypedItem();
    }

    /** The end of redisReaderGetReply(): at least 1k of consumed bytes is dropped from the buffer. */
    method Compact()
      requires BufferOk() && err.None?
      modifies `buf, `pos, `len
      ensures BufferOk() && Unparsed() == old(Unparsed()) && Unread() == old(Unread())
    {
      if pos >= 1024 {
        Strings.RangeDrops(buf[..len], pos);
        ghost var unread := Unread();
        buf := Strings.RangeOf(buf[..len], pos, -1) + [NUL];
        pos, len := 0, |buf| - 1;
        assert buf[0..len] == unread;
      }
    }

    /** The loop of redisReaderGetReply(). */
    method ProcessItems()
      requires BufferOk() && err.None? && Working()
      modifies this, rstack, open
      ensures BufferOk() && KeepsSlots()
      ensures err.None? ==> Unparsed() == old(Unparsed())
      ensures match ParseReply(old(Unparsed()), 0)
              case Done(r, rest) => err.None? && Complete() && value == r && Unread() == rest
              case More => err.None? && Paused()
              case Bad(e) => err == Some(e) && Idle()
    {
      ghost var u := Unparsed();
      var ok := true;
      while ridx >= 0 && ok
        invariant BufferOk() && KeepsSlots() && err.None? && Unparsed() == u
        invariant Working() || Complete()
        invariant !ok ==> Working() && Resume(frames, rstack[ridx].kind, Unread()) == More
        decreases ok, |Unread()|
      {
        assert forall a :: a in open ==> a in old(open) || fresh(a);
        assert forall i :: 0 <= i < |open| ==> open[i] in open;
        ok := ProcessItem();
        if err.Some? {
          return;
        }
      }
      assert u == seen + Unread();
      if ok {
        assert Finish([], Done(value, Unread())) == Done(value, Unread());
      } else {
        assert Agrees(seen, frames, rstack[ridx].kind);
      }
    }

    lemma NothingToRead()
      requires Valid() && err.None? && len == 0
      ensures ParseReply(Unparsed(), 0) == More
    {
      assert Unread() == [] && Unparsed() == seen + Unread();
      if !Idle() {
        assert Agrees(seen, frames, rstack[ridx].kind);
        assert Resume(frames, rstack[ridx].kind, Unread()) == More;
      }
    }

    /** The first task of a reply is put on the empty stack. */
    method Start()
      requires Idle()
      modifies `ridx, rstack
      ensures Working() && open == old(open)
    {
      rstack[0] := ReadTask(None, -1, -1, null, -1);
      ridx := 0;
      StartAgrees();
    }

    /** A complete reply is handed out and forgotten. */
    method Emit() returns (out: ReplyObject, ghost v: Reply)
      requires Complete() && BufferOk()
      modifies `reply, `seen
      ensures Idle() && BufferOk() && out == old(reply) && v == value && Unparsed() == Unread()
    {
      out, v := reply, value;
      reply, seen := null, [];
      assert [] + Unread() == Unread();
    }

    /** redisReaderGetReply(): the next reply of the grammar, whatever was fed in whichever pieces. */
    method GetReply() returns (ok: bool, out: ReplyObject?, ghost v: Reply)
      requires Valid()
      modifies this, rstack, open
      ensures Valid() && KeepsSlots() && ok == err.None?
      ensures old(err).Some? ==> err == old(err) && out == null
      ensures old(err).None? ==>
                match ParseReply(old(Unparsed()), 0)
                case Done(r, rest) => ok && out != null && v == r && Represents(out, r, closed) && Unparsed() == rest
                case More => ok && out == null && Unparsed() == old(Unparsed())
                case Bad(e) => err == Some(e) && out == null
    {
      v, out := Nil, null;
      if err.Some? {
        return false, null, v;
      }
      if len == 0 {
        NothingToRead();
        return true, null, v;
      }
      Continue();
      ok := err.None?;
      if ok {
        out, v := Conclude();
      }
    }

    /** The middle of redisReaderGetReply(): the loop, on a stack that is not empty. */
    method Continue()
      requires Valid() && err.None?
      modifies this, rstack, open
      ensures BufferOk() && KeepsSlots()
      ensures err.None? ==> Unparsed() == old(Unparsed())
      ensures match ParseReply(old(Unparsed()), 0)
              case Done(r, rest) => err.None? && Complete() && value == r && Unread() == rest
              case More => err.None? && Paused()
              case Bad(e) => err == Some(e) && Idle()
    {
      if ridx == -1 {
        Start();
      }
      assert forall i :: 0 <= i < |open| ==> open[i] in open;
      ProcessItems();
    }

    /** The end of redisReaderGetReply() when there was no error. */
    method Conclude() returns (out: ReplyObject?, ghost v: Reply)
      requires BufferOk() && err.None? && (Complete() || Paused())
      modifies `buf, `pos, `len, `reply, `seen
      ensures Valid()
      ensures if old(ridx) == -1 then out == old(reply) != null && v == value && Unparsed() == old(Unread())
              else out == null && Unparsed() == old(Unparsed())
    {
      Compact();
      v, out := Nil, null;
      if ridx == -1 {
        out, v := Emit();
      }
    }
  }
}
