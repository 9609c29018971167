/**
 The asynchronous protocol as functions of its state: commands, replies and teardown, with
 user callbacks that may issue commands, disconnect or free the context while they run.
 Every part of the state carries the history of what went into it and what came out.
 */
module Async {
  import opened Bytes
  import opened Resp
  import opened Callbacks

  const UNSUBSCRIBE: bytes := [117, 110, 115, 117, 98, 115, 99, 114, 105, 98, 101]

  /** Names and commands for patterns start with a p: tolower(text[0]) == 'p'. */
  predicate IsPattern(text: bytes) {
    text != [] && ToLower(text[0]) == 112
  }

  // ----- Users -----

  datatype CommandKind = Subscribe(pattern: bool) | Unsubscribe | Monitor | Regular

  /** A command as __redisAsyncCommand() sees it: its kind, the arguments after the first, and its bytes. */
  datatype Command = Command(kind: CommandKind, names: seq<bytes>, wire: bytes)

  /** What user code may do with the context from inside a callback. */
  datatype Action =
    | Issue(cmd: Command, cb: Callback)
    | RequestDisconnect
    | RequestFree

  /** One invocation of a callback; reply None stands for NULL. */
  datatype Run = Run(cb: Callback, reply: Option<Reply>)

  /**
   The user's side of a run: what each invocation of a callback does, in the order of the
   invocations, and in what order the two hash tables list their keys at teardown.
   */
  datatype Env = Env(acts: seq<seq<Action>>, channels: seq<bytes>, patterns: seq<bytes>)

  function ActsOf(env: Env, n: nat): seq<Action> {
    if n < |env.acts| then env.acts[n] else []
  }

  // ----- The state -----

  /** A list of callbacks: all that were put in, those taken out and what for, and those waiting. */
  datatype Queue = Queue(pushed: seq<Callback>, taken: seq<Run>, waiting: seq<Callback>)

  /**
   The reader: all bytes received, the replies it gave out, and the bytes it holds, see
   RedisReader.Unparsed(). The variable cb of redisProcessCallbacks() is last: the callback of
   the reply before in the same call, none at its start.
   */
  datatype Input = Input(received: bytes, got: seq<Reply>, unread: bytes, last: Callback)

  /** The output buffer: all commands appended, the bytes written and those buffered. */
  datatype Output = Output(appended: seq<bytes>, sent: bytes, obuf: bytes)

  datatype SubEvent = Registered(pattern: bool, name: bytes, cb: Callback) | Dropped(pattern: bool, name: bytes)

  /** The two dictionaries, and all registrations and unsubscriptions so far. */
  datatype Subs = Subs(log: seq<SubEvent>, channels: map<bytes, Callback>, patterns: map<bytes, Callback>)

  /** What commands change. */
  datatype Work = Work(
    subscribed: bool,
    monitoring: bool,
    plain: bool,               // no subscribe and no monitor command was accepted
    replies: Queue,
    invalid: Queue,
    subs: Subs,
    output: Output,
    accepted: seq<Callback>)   // callbacks of the regular commands accepted outside subscriptions

  /** REDIS_DISCONNECTING and REDIS_FREEING: once set they stay. */
  datatype Wishes = Wishes(disconnecting: bool, freeing: bool)

  /** The assertions of the source that a run can fail, in the order of their lines. */
  datatype Assertion =
    | PendingAtDisconnect   // replies are outstanding when a clean disconnect is carried out
    | BadMessage            // a pub/sub message lacks a kind, a name or a count
    | NotSubscribed         // a reply that nobody asked for, outside subscriptions and monitoring

  datatype Life = Life(
    connected: bool,
    err: bool,                 // c->err != 0
    teardowns: nat,            // how often __redisAsyncFree() was entered
    frees: nat,                // how often it released the context
    failed: Option<Assertion>,
    impossible: bool)          // the environment fits no run

  datatype State = State(
    life: Life,
    wishes: Wishes,
    inCallback: bool,
    work: Work,
    input: Input,
    runs: seq<Run>)            // all invocations of callbacks

  const NO_CALLBACK := Callback(None, 0)
  const EMPTY := Queue([], [], [])
  const INIT := State(Life(false, false, 0, 0, None, false), Wishes(false, false), false,
                      Work(false, false, true, EMPTY, EMPTY, Subs([], map[], map[]), Output([], [], []), []),
                      Input([], [], [], NO_CALLBACK), [])

  predicate Refusing(w: Wishes) {
    w.disconnecting || w.freeing
  }

  predicate Over(l: Life) {
    l.frees > 0 || l.failed.Some? || l.impossible
  }

  function Push(q: Queue, cb: Callback): Queue {
    q.(pushed := q.pushed + [cb], waiting := q.waiting + [cb])
  }

  function Shift(q: Queue, reply: Option<Reply>): Queue
    requires q.waiting != []
  {
    q.(taken := q.taken + [Run(q.waiting[0], reply)], waiting := q.waiting[1..])
  }

  // ----- Commands -----

  /** dictReplace() for every name. */
  function Register<T>(m: map<bytes, T>, names: seq<bytes>, v: T): map<bytes, T>
    decreases |names|
  {
    if names == [] then m else Register(m, names[..|names| - 1], v)[names[|names| - 1] := v]
  }

  function Registrations(pattern: bool, names: seq<bytes>, cb: Callback): seq<SubEvent>
    decreases |names|
  {
    if names == [] then []
    else Registrations(pattern, names[..|names| - 1], cb) + [Registered(pattern, names[|names| - 1], cb)]
  }

  function SubscribeTo(u: Subs, pattern: bool, names: seq<bytes>, cb: Callback): Subs {
    Subs(u.log + Registrations(pattern, names, cb),
         if pattern then u.channels else Register(u.channels, names, cb),
         if pattern then Register(u.patterns, names, cb) else u.patterns)
  }

  /** The callback of a command goes where its replies will find it. */
  function Enlist(w: Work, kind: CommandKind, names: seq<bytes>, cb: Callback): Work {
    match kind
    case Subscribe(pattern) => w.(subscribed := true, plain := false, subs := SubscribeTo(w.subs, pattern, names, cb))
    case Unsubscribe => w
    case Monitor => w.(monitoring := true, plain := false, replies := Push(w.replies, cb))
    case Regular =>
      if w.subscribed then w.(invalid := Push(w.invalid, cb))
      else w.(replies := Push(w.replies, cb), accepted := w.accepted + [cb])
  }

  function AppendCommand(o: Output, wire: bytes): Output {
    o.(appended := o.appended + [wire], obuf := o.obuf + wire)
  }

  /** A command that is not refused outright; only an unsubscription outside subscriptions still is. */
  function Submit(w: Work, cmd: Command, cb: Callback): Work {
    if cmd.kind.Unsubscribe? && !w.subscribed then w
    else
      var v := Enlist(w, cmd.kind, cmd.names, cb);
      v.(output := AppendCommand(v.output, cmd.wire))
  }

  /** __redisAsyncCommand() */
  function AsyncCommand(s: State, cmd: Command, cb: Callback): State {
    if Refusing(s.wishes) then s else s.(work := Submit(s.work, cmd, cb))
  }

  // ----- Callbacks -----

  /** What user code does from inside a callback: disconnecting and freeing are only noted down there. */
  function Act(s: State, a: Action): State {
    match a
    case Issue(cmd, cb) => AsyncCommand(s, cmd, cb)
    case RequestDisconnect => s.(wishes := s.wishes.(disconnecting := true))
    case RequestFree => s.(wishes := s.wishes.(freeing := true))
  }

  function Acts(s: State, acts: seq<Action>): State
    decreases |acts|
  {
    if acts == [] then s else Act(Acts(s, acts[..|acts| - 1]), acts[|acts| - 1])
  }

  function Enter(s: State, cb: Callback, reply: Option<Reply>): State {
    s.(inCallback := true, runs := s.runs + [Run(cb, reply)])
  }

  /** __redisRunCallback() */
  function RunCallback(env: Env, s: State, cb: Callback, reply: Option<Reply>): State {
    if cb.fn.None? then s
    else Acts(Enter(s, cb, reply), ActsOf(env, |s.runs|)).(inCallback := false)
  }

  /** What user code cannot touch or take back; and while commands are refused, it can do nothing but wish. */
  ghost predicate Keeps(s: State, t: State) {
    && t.life == s.life && t.input == s.input
    && (s.wishes.disconnecting ==> t.wishes.disconnecting) && (s.wishes.freeing ==> t.wishes.freeing)
    && (Refusing(s.wishes) ==> t.work == s.work)
  }

  lemma {:induction false} ActsKeep(s: State, acts: seq<Action>)
    ensures var t := Acts(s, acts); Keeps(s, t) && t.inCallback == s.inCallback && t.runs == s.runs
    decreases |acts|
  {
    if acts != [] {
      ActsKeep(s, acts[..|acts| - 1]);
    }
  }

  /** The invocations that running cb amounts to. */
  function Invocation(cb: Callback, reply: Option<Reply>): seq<Run> {
    if cb.fn.Some? then [Run(cb, reply)] else []
  }

  /**
   Whatever a callback does, it is one invocation and takes nothing off the lists; while
   commands are refused it changes nothing but the two requests.
   */
  lemma CallbackKeeps(env: Env, s: State, cb: Callback, reply: Option<Reply>)
    requires !s.inCallback
    ensures var t := RunCallback(env, s, cb, reply);
            Keeps(s, t) && !t.inCallback && t.runs == s.runs + Invocation(cb, reply)
  {
    if cb.fn.Some? {
      ActsKeep(Enter(s, cb, reply), ActsOf(env, |s.runs|));
    }
  }

  // ----- Teardown -----

  datatype Lane = Replies | Invalid

  function LaneOf(w: Work, lane: Lane): Queue {
    if lane.Replies? then w.replies else w.invalid
  }

  function ShiftLane(w: Work, lane: Lane, reply: Option<Reply>): Work
    requires LaneOf(w, lane).waiting != []
  {
    if lane.Replies? then w.(replies := Shift(w.replies, reply)) else w.(invalid := Shift(w.invalid, reply))
  }

  /** Teardown is under way: no command is accepted any more and no callback is running. */
  ghost predicate Quiet(s: State) {
    Refusing(s.wishes) && !s.inCallback
  }

  /** Runs the waiting callbacks of a list with a NULL reply. */
  function Drain(env: Env, s: State, lane: Lane): (t: State)
    requires Quiet(s)
    ensures Quiet(t)
    decreases |LaneOf(s.work, lane).waiting|
  {
    if LaneOf(s.work, lane).waiting == [] then s
    else
      var cb := LaneOf(s.work, lane).waiting[0];
      var u := s.(work := ShiftLane(s.work, lane, None));
      CallbackKeeps(env, u, cb, None);
      Drain(env, RunCallback(env, u, cb, None), lane)
  }

  /** Runs the callbacks of a dictionary with a NULL reply, in the order of keys. */
  function DrainTable(env: Env, s: State, m: map<bytes, Callback>, keys: seq<bytes>): (t: State)
    requires Quiet(s) && forall k :: k in keys ==> k in m
    ensures Quiet(t)
    decreases |keys|
  {
    if keys == [] then s
    else
      CallbackKeeps(env, s, m[keys[0]], None);
      DrainTable(env, RunCallback(env, s, m[keys[0]], None), m, keys[1..])
  }

  /** keys lists every key of m once: an order in which a hash table holding m may list its entries. */
  predicate Lists(m: map<bytes, Callback>, keys: seq<bytes>) {
    && m.Keys == (set k | k in keys)
    && (forall i, j :: 0 <= i < j < |keys| ==> keys[i] != keys[j])
  }

  /** Runs everything that is still pending. */
  function RunPending(env: Env, s: State): (t: State)
    requires Quiet(s) && Lists(s.work.subs.channels, env.channels) && Lists(s.work.subs.patterns, env.patterns)
    ensures Quiet(t)
  {
    var t := Drain(env, Drain(env, s, Replies), Invalid);
    DrainTable(env, DrainTable(env, t, s.work.subs.channels, env.channels), s.work.subs.patterns, env.patterns)
  }

  /** __redisAsyncFree(); an environment that names no order of the dictionaries belongs to no run. */
  function Teardown(env: Env, s: State): (t: State)
    requires Quiet(s)
    ensures !t.inCallback && Over(t.life)
  {
    if !Lists(s.work.subs.channels, env.channels) || !Lists(s.work.subs.patterns, env.patterns) then
      s.(life := s.life.(impossible := true))
    else
      var t := RunPending(env, s.(life := s.life.(teardowns := s.life.teardowns + 1)));
      t.(life := t.life.(frees := t.life.frees + 1))
  }

  /** __redisAsyncDisconnect() */
  function DisconnectNow(env: Env, s: State): (t: State)
    requires !s.inCallback && (s.life.err || Refusing(s.wishes))
    ensures !t.inCallback && Over(t.life)
  {
    if s.life.err then Teardown(env, s.(wishes := s.wishes.(disconnecting := true)))
    else if s.work.replies.waiting != [] then s.(life := s.life.(failed := Some(PendingAtDisconnect)))
    else Teardown(env, s)
  }

  function Fail(env: Env, s: State): (t: State)
    requires !s.inCallback
    ensures !t.inCallback && Over(t.life)
  {
    DisconnectNow(env, s.(life := s.life.(err := true)))
  }

  // ----- Replies -----

  /** Where a reply goes: to a callback; nowhere, which ends the connection; or into a failing assertion. */
  datatype Route = To(work: Work, cb: Callback) | Nowhere | Broken(why: Assertion)

  function DropName(u: Subs, pattern: bool, name: bytes): Subs {
    Subs(u.log + [Dropped(pattern, name)],
         if pattern then u.channels else u.channels - {name},
         if pattern then u.patterns - {name} else u.patterns)
  }

  function Table(u: Subs, pattern: bool): map<bytes, Callback> {
    if pattern then u.patterns else u.channels
  }

  predicate IsUnsubscribe(text: bytes) {
    Lower(CString(if IsPattern(text) then text[1..] else text)) == UNSUBSCRIBE
  }

  /** A pub/sub message; cb is the callback of the reply before, which a message for an unknown name falls back on. */
  function RouteMessage(w: Work, elems: seq<Reply>, cb: Callback): Route {
    if |elems| < 2 || !elems[0].Str? || !elems[1].Str? then Broken(BadMessage)
    else
      var text, name := elems[0].text, elems[1].text;
      var p := IsPattern(text);
      var table := Table(w.subs, p);
      if name !in table then To(w, cb)
      else if !IsUnsubscribe(text) then To(w, table[name])
      else if |elems| < 3 || !elems[2].Integer? then Broken(BadMessage)
      else To(w.(subs := DropName(w.subs, p, name), subscribed := elems[2].n != 0), table[name])
  }

  function RouteReply(w: Work, reply: Reply, cb: Callback): Route {
    if w.replies.waiting != [] then To(ShiftLane(w, Replies, Some(reply)), w.replies.waiting[0])
    else if reply.Error? then Nowhere
    else if w.subscribed then
      if reply.Arr? then RouteMessage(w, reply.elems, cb)
      else if w.invalid.waiting == [] then To(w, cb)
      else To(ShiftLane(w, Invalid, Some(reply)), w.invalid.waiting[0])
    else if w.monitoring then To(w, cb)
    else Broken(NotSubscribed)
  }

  /** New bytes arrive, or none, and redisProcessCallbacks() is about to be called. */
  function Feed(i: Input, chunk: bytes): Input {
    Input(i.received + chunk, i.got, i.unread + chunk, NO_CALLBACK)
  }

  /** A reply is taken out; cb is the callback it goes to. */
  function Receive(i: Input, reply: Reply, rest: bytes, cb: Callback): Input {
    Input(i.received, i.got + [reply], rest, cb)
  }

  /** redisProcessCallbacks() from one reply on. */
  function Process(env: Env, s: State): (t: State)
    requires !s.inCallback
    ensures !t.inCallback && (Over(t.life) || t.life.teardowns == s.life.teardowns)
    ensures !s.wishes.freeing ==> Over(t.life) || !t.wishes.freeing
    decreases |s.input.unread|
  {
    match ParseReply(s.input.unread, 0)
    case Bad(_) => Fail(env, s)
    case More =>
      if s.wishes.disconnecting && s.work.output.obuf == [] then DisconnectNow(env, s)
      else if s.work.monitoring then s.(work := s.work.(replies := Push(s.work.replies, s.input.last)))
      else s
    case Done(reply, rest) =>
      match RouteReply(s.work, reply, s.input.last)
      case Broken(why) => s.(life := s.life.(failed := Some(why)))
      case Nowhere => Fail(env, s.(input := Receive(s.input, reply, rest, s.input.last)))
      case To(w, cb) =>
        var u := s.(work := w, input := Receive(s.input, reply, rest, cb));
        CallbackKeeps(env, u, cb, Some(reply));
        var t := RunCallback(env, u, cb, Some(reply));
        if cb.fn.Some? && t.wishes.freeing then Teardown(env, t) else Process(env, t)
  }

  // ----- Events -----

  /** What the first event on a new socket finds out about it. */
  datatype Socket = Ready | InProgress | Unreachable

  /** What read() gives; no bytes are the end of the stream. */
  datatype Arrival = Arrived(chunk: bytes) | NothingYet | ReadError

  /** What write() says. */
  datatype Departure = Wrote(n: nat) | NotNow | WriteError

  datatype Event =
    | Call(cmd: Command, cb: Callback)
    | Disconnect
    | Free
    | Readable(socket: Socket, arrival: Arrival)
    | Writable(socket: Socket, departure: Departure)
    | Preparing(socket: Socket)      // redisAsyncHandleWritePrep(): a write is about to be started elsewhere
    | Completed(written: int)        // redisAsyncHandleWriteComplete(): it took that many bytes

  /** __redisAsyncHandleConnect() */
  function Connect(env: Env, s: State, socket: Socket): (t: State)
    requires !s.inCallback
    ensures !t.inCallback && (Over(t.life) || t.life.teardowns == s.life.teardowns)
    ensures !s.wishes.freeing ==> Over(t.life) || !t.wishes.freeing
  {
    if s.life.connected then s
    else match socket
      case Ready => s.(life := s.life.(connected := true))
      case InProgress => s.(life := s.life.(err := true))
      case Unreachable => Fail(env, s)
  }

  /** The bytes that a read brings without an error. */
  function Given(arrival: Arrival): bytes {
    if arrival.Arrived? then arrival.chunk else []
  }

  /** redisBufferRead() reports an error: there was one before, or read() failed or found the end of the stream. */
  predicate ReadFails(err: bool, arrival: Arrival) {
    err || arrival.ReadError? || arrival == Arrived([])
  }

  /** redisBufferRead() and redisProcessCallbacks() */
  function Read(env: Env, s: State, arrival: Arrival): (t: State)
    requires !s.inCallback
    ensures !t.inCallback && (Over(t.life) || t.life.teardowns == s.life.teardowns)
    ensures !s.wishes.freeing ==> Over(t.life) || !t.wishes.freeing
  {
    if ReadFails(s.life.err, arrival) then Fail(env, s)
    else Process(env, s.(input := Feed(s.input, Given(arrival))))
  }

  /** n bytes leave the buffer: redisBufferWrite() after write(), or redisBufferWriteDone(). */
  function Written(o: Output, n: nat): Output {
    if n >= |o.obuf| then o.(sent := o.sent + o.obuf, obuf := [])
    else o.(sent := o.sent + o.obuf[..n], obuf := o.obuf[n..])
  }

  /** redisBufferWrite(); after an error the connection is given up. */
  function Write(env: Env, s: State, departure: Departure): (t: State)
    requires !s.inCallback
    ensures !t.inCallback && (Over(t.life) || t.life.teardowns == s.life.teardowns)
    ensures !s.wishes.freeing ==> Over(t.life) || !t.wishes.freeing
  {
    if s.life.err || (s.work.output.obuf != [] && departure.WriteError?) then Fail(env, s)
    else if departure.Wrote? then s.(work := s.work.(output := Written(s.work.output, departure.n)))
    else s
  }

  /** redisBufferWriteDone(), which looks at no error. */
  function WriteDone(s: State, written: int): State {
    if written > 0 then s.(work := s.work.(output := Written(s.work.output, written))) else s
  }

  function Handle(env: Env, s: State, e: Event): (t: State)
    requires !s.inCallback
    ensures !t.inCallback && (Over(t.life) || t.life.teardowns == s.life.teardowns)
    ensures !s.wishes.freeing ==> Over(t.life) || !t.wishes.freeing
  {
    match e
    case Call(cmd, cb) => AsyncCommand(s, cmd, cb)
    case Disconnect =>
      var t := s.(wishes := s.wishes.(disconnecting := true));
      if s.work.replies.waiting == [] then DisconnectNow(env, t) else t
    case Free => Teardown(env, s.(wishes := s.wishes.(freeing := true)))
    case Readable(socket, arrival) =>
      var t := Connect(env, s, socket);
      if !Over(t.life) && t.life.connected then Read(env, t, arrival) else t
    case Writable(socket, departure) =>
      var t := Connect(env, s, socket);
      if !Over(t.life) && t.life.connected then Write(env, t, departure) else t
    case Preparing(socket) => Connect(env, s, socket)
    case Completed(written) => WriteDone(s, written)
  }

  /** A whole run: events arrive until the context is gone. */
  function Session(env: Env, events: seq<Event>): (t: State)
    ensures !t.inCallback && (Over(t.life) || (t.life.teardowns == 0 && !t.wishes.freeing))
    decreases |events|
  {
    if events == [] then INIT
    else
      var s := Session(env, events[..|events| - 1]);
      if Over(s.life) then s else Handle(env, s, events[|events| - 1])
  }
}
