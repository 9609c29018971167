/** Runs of the asynchronous API in which its code does not do what its comments say. */
module AsyncCounterexamples {
  import opened Bytes
  import opened Resp
  import opened Callbacks
  import opened Async
  import opened AsyncRuns
  import opened AsyncTheorems
  import opened AsyncFailures

  /** A context connects, issues a command, writes it, and asks for a disconnect. */
  function AskingToDisconnect(cmd: Command, cb: Callback): seq<Event> {
    [Writable(Ready, NotNow), Call(cmd, cb), Writable(Ready, Wrote(|cmd.wire|)), Disconnect]
  }

  const CONNECTED := INIT.(life := INIT.life.(connected := true))

  lemma Connected(env: Env)
    ensures Session(env, [Writable(Ready, NotNow)]) == CONNECTED
  {
    SessionNext(env, [], Writable(Ready, NotNow));
    assert [] + [Writable(Ready, NotNow)] == [Writable(Ready, NotNow)];
  }

  lemma Issued(env: Env, cmd: Command, cb: Callback)
    ensures Session(env, [Writable(Ready, NotNow), Call(cmd, cb)]) == CONNECTED.(work := Submit(INIT.work, cmd, cb))
  {
    Connected(env);
    SessionNext(env, [Writable(Ready, NotNow)], Call(cmd, cb));
    assert [Writable(Ready, NotNow)] + [Call(cmd, cb)] == [Writable(Ready, NotNow), Call(cmd, cb)];
  }

  lemma Asked(env: Env, cmd: Command, cb: Callback)
    ensures var w := Submit(INIT.work, cmd, cb);
            var s := CONNECTED.(work := w.(output := Written(w.output, |cmd.wire|)), wishes := Wishes(true, false));
            Session(env, AskingToDisconnect(cmd, cb)) == if w.replies.waiting == [] then DisconnectNow(env, s) else s
  {
    Issued(env, cmd, cb);
    var two := [Writable(Ready, NotNow), Call(cmd, cb)];
    SessionNext(env, two, Writable(Ready, Wrote(|cmd.wire|)));
    SessionNext(env, two + [Writable(Ready, Wrote(|cmd.wire|))], Disconnect);
    assert two + [Writable(Ready, Wrote(|cmd.wire|))] + [Disconnect] == AskingToDisconnect(cmd, cb);
  }

  /**
   The documentation has redisAsyncDisconnect() flush the output and wait for the remaining
   replies. It does not: with every command whose callback waits for a reply, a disconnect
   asked for before the reply has come ends in the failing assertion as soon as a read brings
   nothing, or less than a reply. With the other commands the context does not live to see the
   read, see DisconnectAtOnce.
   */
  lemma DisconnectDoesNotWait(env: Env, cmd: Command, cb: Callback, arrival: Arrival)
    requires !arrival.ReadError? && arrival != Arrived([]) && ParseReply(Given(arrival), 0).More?
    ensures var t := Session(env, AskingToDisconnect(cmd, cb) + [Readable(Ready, arrival)]);
            t.life.failed == Some(PendingAtDisconnect) <==> cmd.kind.Regular? || cmd.kind.Monitor?
  {
    Asked(env, cmd, cb);
    var events := AskingToDisconnect(cmd, cb);
    var s := Session(env, events);
    SessionNext(env, events, Readable(Ready, arrival));
    if cmd.kind.Regular? || cmd.kind.Monitor? {
      assert [] + Given(arrival) == Given(arrival);
    } else {
      var w := Submit(INIT.work, cmd, cb);
      TeardownLife(env, CONNECTED.(work := w.(output := Written(w.output, |cmd.wire|)), wishes := Wishes(true, false)));
    }
  }

  /** A subscription to one channel. */
  function Subscription(name: bytes, wire: bytes): Command {
    Command(Subscribe(false), [name], wire)
  }

  /** A context connects, subscribes to a channel, and issues a command before it hears from the server. */
  function Subscribing(name: bytes, wire: bytes, listener: Callback): seq<Event> {
    [Writable(Ready, NotNow), Call(Subscription(name, wire), listener)]
  }

  lemma Subscribed(env: Env, name: bytes, wire: bytes, listener: Callback)
    ensures var s := Session(env, Subscribing(name, wire, listener));
            && s == CONNECTED.(work := Submit(INIT.work, Subscription(name, wire), listener))
            && s.work.subscribed && s.work.replies == s.work.invalid == EMPTY
            && s.work.subs.channels == map[name := listener] && s.work.subs.patterns == map[]
  {
    Issued(env, Subscription(name, wire), listener);
    assert Register(map[], [name][..0], listener) == map[];
  }

  /** The wire form of a short reply, read back. */
  lemma ReadBack(r: Reply, x: bytes)
    requires Sendable(r) && DepthAtMost(r, MAX_DEPTH)
    ensures ParseReply(Wire(r) + x, 0) == Done(r, x)
  {
    WireRoundTrip(r, x, 0);
  }

  lemma MessagesBack(a: Reply, b: Reply)
    requires Sendable(a) && Sendable(b) && DepthAtMost(a, MAX_DEPTH) && DepthAtMost(b, MAX_DEPTH)
    ensures ParseReply(Wire(a) + Wire(b), 0) == Done(a, Wire(b)) && ParseReply(Wire(b), 0) == Done(b, [])
  {
    ReadBack(a, Wire(b));
    ReadBack(b, []);
    assert Wire(b) + [] == Wire(b);
  }

  /** A read brings a chunk to an empty reader. */
  function Fed(s: State, chunk: bytes): State {
    s.(input := Input(s.input.received + chunk, s.input.got, chunk, NO_CALLBACK))
  }

  lemma ReadIsProcessed(env: Env, s: State, chunk: bytes)
    requires Idle(s) && s.life.connected && !s.life.err && s.input.unread == [] && chunk != []
    ensures Handle(env, s, Readable(Ready, Arrived(chunk))) == Process(env, Fed(s, chunk))
  {
    assert [] + chunk == chunk;
  }

  /** A reply is delivered and the callback does nothing. */
  lemma ReplyTaken(env: Env, s: State, reply: Reply, rest: bytes, w: Work, cb: Callback)
    requires env.acts == [] && Idle(s) && !s.life.err && !s.wishes.freeing && cb.fn.Some?
    requires ParseReply(s.input.unread, 0) == Done(reply, rest) && NextRoute(s) == To(w, cb)
    ensures var t := Delivered(env, s);
            && Process(env, s) == Process(env, t)
            && t == s.(work := w, input := Receive(s.input, reply, rest, cb), runs := s.runs + [Run(cb, Some(reply))])
  {
  }

  lemma NothingMore(env: Env, s: State)
    requires !s.inCallback && s.input.unread == [] && !s.wishes.disconnecting && !s.work.monitoring
    ensures Process(env, s) == s
  {
  }

  lemma ErrorFails(env: Env, s: State, text: bytes)
    requires Idle(s) && s.work.replies.waiting == [] && ParseReply(s.input.unread, 0) == Done(Error(text), [])
    ensures Process(env, s) == Fail(env, s.(input := Receive(s.input, Error(text), [], s.input.last)))
  {
  }

  lemma ErrorRead(text: bytes)
    requires Crlf(text) < 0
    ensures Wire(Error(text)) != [] && ParseReply(Wire(Error(text)), 0) == Done(Error(text), [])
  {
    ReadBack(Error(text), []);
    assert Wire(Error(text)) + [] == Wire(Error(text));
  }

  /** A read that brings an error reply and nothing else, while no regular callback waits. */
  lemma ErrorArrives(env: Env, s: State, chunk: bytes, text: bytes)
    requires Idle(s) && s.life.connected && !s.life.err && s.work.replies.waiting == [] && Orderly(env, s.work.subs)
    requires s.input.unread == [] && ParseReply(chunk, 0) == Done(Error(text), [])
    ensures var t := Handle(env, s, Readable(Ready, Arrived(chunk)));
            && t.life.frees == s.life.frees + 1 && t.runs == s.runs + Pending(env, s.work)
            && t.input.got == s.input.got + [Error(text)] && t.work.invalid.pushed == s.work.invalid.pushed
  {
    ReadIsProcessed(env, s, chunk);
    var u := Fed(s, chunk);
    ErrorFails(env, u, text);
    FailRuns(env, u.(input := Receive(u.input, Error(text), [], NO_CALLBACK)));
  }

  lemma InvalidQueued(env: Env, name: bytes, sub: bytes, listener: Callback, cmd: Command, cb: Callback)
    requires cmd.kind.Regular?
    ensures var s := Session(env, Subscribing(name, sub, listener) + [Call(cmd, cb)]); var w := s.work;
            && Idle(s) && s.life == CONNECTED.life && s.wishes == INIT.wishes && s.input == INIT.input && s.runs == []
            && w.subscribed && !w.monitoring && w.replies == EMPTY && w.invalid == Queue([cb], [], [cb])
            && w.subs.channels == map[name := listener] && w.subs.patterns == map[]
  {
    Subscribed(env, name, sub, listener);
    SessionNext(env, Subscribing(name, sub, listener), Call(cmd, cb));
  }

  /**
   The comment on commands issued while subscribed has their error replies passed to their
   callbacks. They are not: in this run the server answers such a command with an error, and
   its callback is invoked with NULL, once, while the connection is torn down.
   */
  lemma InvalidCommandLost(acts: seq<seq<Action>>, name: bytes, sub: bytes, listener: Callback, cmd: Command,
                           cb: Callback, text: bytes)
    requires cmd.kind.Regular? && Crlf(text) < 0
    ensures var env := Env(acts, [name], []);
            var read := Readable(Ready, Arrived(Wire(Error(text))));
            var t := Session(env, Subscribing(name, sub, listener) + [Call(cmd, cb)] + [read]);
            && t.work.invalid.pushed == [cb] && t.input.got == [Error(text)] && t.life.frees == 1
            && t.runs == Invocation(cb, None) + Invocation(listener, None)
  {
    var env, events := Env(acts, [name], []), Subscribing(name, sub, listener) + [Call(cmd, cb)];
    var chunk := Wire(Error(text));
    InvalidQueued(env, name, sub, listener, cmd, cb);
    SessionNext(env, events, Readable(Ready, Arrived(chunk)));
    ErrorRead(text);
    var s := Session(env, events);
    PendingAre(env, s.work, cb, name, listener);
    ErrorArrives(env, s, chunk, text);
  }

  lemma PendingAre(env: Env, w: Work, cb: Callback, name: bytes, listener: Callback)
    requires w.replies.waiting == [] && w.invalid.waiting == [cb]
    requires w.subs.channels == map[name := listener] && w.subs.patterns == map[]
    requires env.channels == [name] && env.patterns == []
    ensures Orderly(env, w.subs) && Pending(env, w) == Invocation(cb, None) + Invocation(listener, None)
  {
    assert NullRuns([cb]) == [Run(cb, None)] && NullRuns([cb])[1..] == [];
    assert NullRuns(Values(w.subs.channels, [name])) == [Run(listener, None)];
    assert [Run(listener, None)][1..] == [];
  }

  lemma ListenerIs(env: Env, w: Work, name: bytes, listener: Callback)
    requires w.replies.waiting == [] == w.invalid.waiting
    requires w.subs.channels == map[name := listener] && w.subs.patterns == map[]
    requires env.channels == [name] && env.patterns == []
    ensures Orderly(env, w.subs) && Pending(env, w) == Invocation(listener, None)
  {
    assert NullRuns(Values(w.subs.channels, [name])) == [Run(listener, None)];
    assert [Run(listener, None)][1..] == [];
  }

  /** A disconnect right after a subscription: the command is never sent, and its callback is invoked with NULL. */
  lemma UnsentIsLost(acts: seq<seq<Action>>, name: bytes, sub: bytes, listener: Callback)
    ensures var t := Session(Env(acts, [name], []), Subscribing(name, sub, listener) + [Disconnect]);
            && t.life.frees == 1 && t.work.output == Output([sub], [], sub) && t.runs == Invocation(listener, None)
  {
    var env, events := Env(acts, [name], []), Subscribing(name, sub, listener);
    Subscribed(env, name, sub, listener);
    var s := Session(env, events);
    SessionNext(env, events, Disconnect);
    ListenerIs(env, s.work, name, listener);
    DisconnectAtOnce(env, s);
    assert [] + sub == sub;
  }

  /** The last reply that a disconnect waits for. */
  lemma ReplyEnds(env: Env, s: State, chunk: bytes, a: Reply, cb: Callback)
    requires env.acts == [] && Disconnecting(s) && s.life.connected && s.input.unread == [] && cb.fn.Some?
    requires s.work.replies.waiting == [cb] && s.work.output.obuf == [] && Orderly(env, s.work.subs)
    requires chunk != [] && ParseReply(chunk, 0) == Done(a, [])
    ensures var t := Handle(env, s, Readable(Ready, Arrived(chunk)));
            var w := ShiftLane(s.work, Replies, Some(a));
            && t.life == s.life.(teardowns := s.life.teardowns + 1, frees := s.life.frees + 1)
            && t.runs == s.runs + [Run(cb, Some(a))] + Pending(env, w) && t.work.output == s.work.output
  {
    ReadIsProcessed(env, s, chunk);
    ReplyTaken(env, Fed(s, chunk), a, [], ShiftLane(s.work, Replies, Some(a)), cb);
    TeardownRuns(env, Delivered(env, Fed(s, chunk)));
  }

  lemma LastReplyCutsOff(env: Env, s: State, chunk: bytes, a: Reply, cb: Callback, name: bytes, listener: Callback)
    requires env.acts == [] && Disconnecting(s) && s.life.connected && s.input.unread == [] && cb.fn.Some?
    requires s.work.replies.waiting == [cb] && s.work.invalid.waiting == [] && s.work.output.obuf == []
    requires s.work.subs.channels == map[name := listener] && s.work.subs.patterns == map[]
    requires env.channels == [name] && env.patterns == []
    requires chunk != [] && ParseReply(chunk, 0) == Done(a, [])
    ensures var t := Handle(env, s, Readable(Ready, Arrived(chunk)));
            && t.life.frees == s.life.frees + 1 && !t.life.err && t.work.output == s.work.output
            && t.runs == s.runs + [Run(cb, Some(a))] + Invocation(listener, None)
  {
    ListenerIs(env, ShiftLane(s.work, Replies, Some(a)), name, listener);
    ReplyEnds(env, s, chunk, a, cb);
  }

  /** A context connects, issues a command and subscribes, writes both, and asks for a disconnect. */
  function LeavingEarly(cmd: Command, cb: Callback, name: bytes, sub: bytes, listener: Callback): seq<Event> {
    [Writable(Ready, NotNow), Call(cmd, cb), Call(Subscription(name, sub), listener),
     Writable(Ready, Wrote(|cmd.wire + sub|)), Disconnect]
  }

  lemma LeftEarly(env: Env, cmd: Command, cb: Callback, name: bytes, sub: bytes, listener: Callback)
    requires cmd.kind.Regular?
    ensures var s := Session(env, LeavingEarly(cmd, cb, name, sub, listener)); var w := s.work;
            && s.life == CONNECTED.life && s.wishes == Wishes(true, false) && Idle(s) && s.input == INIT.input
            && s.runs == [] && w.replies == Queue([cb], [], [cb]) && w.invalid == EMPTY && !w.monitoring
            && w.output == Output([cmd.wire, sub], cmd.wire + sub, [])
            && w.subs.channels == map[name := listener] && w.subs.patterns == map[]
  {
    var one, two := [Writable(Ready, NotNow), Call(cmd, cb)], Call(Subscription(name, sub), listener);
    var three := Writable(Ready, Wrote(|cmd.wire + sub|));
    Issued(env, cmd, cb);
    SessionNext(env, one, two);
    assert Register(map[], [name][..0], listener) == map[];
    assert [] + cmd.wire + sub == cmd.wire + sub;
    SessionNext(env, one + [two], three);
    SessionNext(env, one + [two] + [three], Disconnect);
    assert one + [two] + [three] + [Disconnect] == LeavingEarly(cmd, cb, name, sub, listener);
  }

  /**
   A disconnect asked for while a reply is outstanding waits for that one, and not for the
   confirmation of a subscription, although that was sent: its callback is invoked with NULL.
   */
  lemma SubscriptionIsCutOff(name: bytes, sub: bytes, listener: Callback, cmd: Command, cb: Callback, a: Reply)
    requires cmd.kind.Regular? && cb.fn.Some? && Sendable(a) && DepthAtMost(a, MAX_DEPTH)
    ensures var read := Readable(Ready, Arrived(Wire(a)));
            var t := Session(Env([], [name], []), LeavingEarly(cmd, cb, name, sub, listener) + [read]);
            && t.life.frees == 1 && !t.life.err && t.work.output.sent == cmd.wire + sub
            && t.runs == [Run(cb, Some(a))] + Invocation(listener, None)
  {
    var env, events, chunk := Env([], [name], []), LeavingEarly(cmd, cb, name, sub, listener), Wire(a);
    LeftEarly(env, cmd, cb, name, sub, listener);
    SessionNext(env, events, Readable(Ready, Arrived(chunk)));
    ReadBack(a, []);
    assert chunk + [] == chunk;
    LastReplyCutsOff(env, Session(env, events), chunk, a, cb, name, listener);
  }

  /** A monitor command joins the list of replies, also while subscribed. */
  lemma MonitorQueued(env: Env, name: bytes, sub: bytes, listener: Callback, cmd: Command, cb: Callback,
                      monitor: Command, watcher: Callback)
    requires cmd.kind.Regular? && monitor.kind.Monitor?
    ensures var s := Session(env, Subscribing(name, sub, listener) + [Call(cmd, cb)] + [Call(monitor, watcher)]);
            var w := s.work;
            && Idle(s) && s.life.connected && !s.life.err && s.wishes == Wishes(false, false)
            && s.input == INIT.input && s.runs == [] && w.monitoring
            && w.replies == Queue([watcher], [], [watcher]) && w.invalid == Queue([cb], [], [cb])
  {
    var events := Subscribing(name, sub, listener) + [Call(cmd, cb)];
    Subscribed(env, name, sub, listener);
    SessionNext(env, Subscribing(name, sub, listener), Call(cmd, cb));
    SessionNext(env, events, Call(monitor, watcher));
  }

  /** A read that brings one reply, for a callback that does nothing, while monitoring. */
  lemma ReplyArrives(env: Env, s: State, chunk: bytes, reply: Reply, cb: Callback)
    requires env.acts == [] && Idle(s) && s.life.connected && !s.life.err && s.wishes == Wishes(false, false)
    requires cb.fn.Some? && s.work.monitoring && s.work.replies.waiting == [cb] && s.input.unread == []
    requires chunk != [] && ParseReply(chunk, 0) == Done(reply, [])
    ensures var t := Handle(env, s, Readable(Ready, Arrived(chunk)));
            && !Over(t.life) && t.runs == s.runs + [Run(cb, Some(reply))] && t.work.invalid == s.work.invalid
            && t.input.got == s.input.got + [reply]
  {
    ReadIsProcessed(env, s, chunk);
    var u := Fed(s, chunk);
    ReplyTaken(env, u, reply, [], ShiftLane(u.work, Replies, Some(reply)), cb);
  }

  /**
   The error reply to a command issued while subscribed need not end the connection either: in
   this run a monitor command was issued after it, whose callback is taken for the error, and
   that of the command goes on waiting.
   */
  lemma InvalidCommandOvertaken(name: bytes, sub: bytes, listener: Callback, cmd: Command, cb: Callback,
                                monitor: Command, watcher: Callback, text: bytes)
    requires cmd.kind.Regular? && monitor.kind.Monitor? && watcher.fn.Some? && Crlf(text) < 0
    ensures var read := Readable(Ready, Arrived(Wire(Error(text))));
            var t := Session(Env([], [], []),
                             Subscribing(name, sub, listener) + [Call(cmd, cb)] + [Call(monitor, watcher)] + [read]);
            && !Over(t.life) && t.input.got == [Error(text)] && t.work.invalid == Queue([cb], [], [cb])
            && t.runs == [Run(watcher, Some(Error(text)))]
  {
    var env, chunk := Env([], [], []), Wire(Error(text));
    var events := Subscribing(name, sub, listener) + [Call(cmd, cb)] + [Call(monitor, watcher)];
    MonitorQueued(env, name, sub, listener, cmd, cb, monitor, watcher);
    SessionNext(env, events, Readable(Ready, Arrived(chunk)));
    ErrorRead(text);
    ReplyArrives(env, Session(env, events), chunk, Error(text), watcher);
  }

  /** The same lists when the monitor command was issued first. */
  lemma MonitorFirst(env: Env, name: bytes, sub: bytes, listener: Callback, cmd: Command, cb: Callback,
                     monitor: Command, watcher: Callback)
    requires cmd.kind.Regular? && monitor.kind.Monitor?
    ensures var s := Session(env, Subscribing(name, sub, listener) + [Call(monitor, watcher)] + [Call(cmd, cb)]);
            var w := s.work;
            && Idle(s) && s.life.connected && !s.life.err && s.wishes == Wishes(false, false)
            && s.input == INIT.input && s.runs == [] && w.monitoring && w.subscribed
            && w.replies == Queue([watcher], [], [watcher]) && w.invalid == Queue([cb], [], [cb])
  {
    var events := Subscribing(name, sub, listener) + [Call(monitor, watcher)];
    Subscribed(env, name, sub, listener);
    SessionNext(env, Subscribing(name, sub, listener), Call(monitor, watcher));
    SessionNext(env, events, Call(cmd, cb));
  }

  /** A read in monitor mode that brings a reply for the list of replies and one for the list of invalid commands. */
  lemma ReplyPutsBack(env: Env, s: State, chunk: bytes, mid: bytes, a: Reply, b: Reply, watcher: Callback, cb: Callback)
    requires env.acts == [] && Idle(s) && s.life.connected && !s.life.err && s.wishes == Wishes(false, false)
    requires watcher.fn.Some? && cb.fn.Some? && s.work.monitoring && s.work.subscribed && s.input.unread == []
    requires s.work.replies.waiting == [watcher] && s.work.invalid.waiting == [cb] && !b.Error? && !b.Arr?
    requires ParseReply(chunk, 0) == Done(a, mid) && ParseReply(mid, 0) == Done(b, [])
    ensures var t := Handle(env, s, Readable(Ready, Arrived(chunk)));
            && Idle(t) && t.life == s.life && t.wishes == s.wishes && t.work.monitoring
            && t.work.replies.waiting == [cb] && t.work.invalid.waiting == [] && t.input.unread == []
            && t.runs == s.runs + [Run(watcher, Some(a)), Run(cb, Some(b))]
  {
    ReadIsProcessed(env, s, chunk);
    var u := Fed(s, chunk);
    ReplyTaken(env, u, a, mid, ShiftLane(u.work, Replies, Some(a)), watcher);
    var v := Delivered(env, u);
    ReplyTaken(env, v, b, [], ShiftLane(v.work, Invalid, Some(b)), cb);
  }

  /**
   And such a callback can be given the error: in this run it is put back after it was given
   another reply, because a monitor command was issued, and the error of the command, the third
   reply to three commands, finds it in the list of replies.
   */
  lemma InvalidCommandAnswered(name: bytes, sub: bytes, listener: Callback, monitor: Command, watcher: Callback,
                               cmd: Command, cb: Callback, a: Reply, b: bytes, text: bytes)
    requires cmd.kind.Regular? && monitor.kind.Monitor? && watcher.fn.Some? && cb.fn.Some?
    requires Sendable(a) && DepthAtMost(a, MAX_DEPTH) && Crlf(b) < 0 && Crlf(text) < 0
    ensures var one := Readable(Ready, Arrived(Wire(a) + Wire(Status(b))));
            var two := Readable(Ready, Arrived(Wire(Error(text))));
            var t := Session(Env([], [], []), Subscribing(name, sub, listener) + [Call(monitor, watcher)]
                                              + [Call(cmd, cb)] + [one] + [two]);
            && !Over(t.life)
            && t.runs == [Run(watcher, Some(a)), Run(cb, Some(Status(b))), Run(cb, Some(Error(text)))]
  {
    var env, chunk := Env([], [], []), Wire(a) + Wire(Status(b));
    var events := Subscribing(name, sub, listener) + [Call(monitor, watcher)] + [Call(cmd, cb)];
    var one := Readable(Ready, Arrived(chunk));
    MonitorFirst(env, name, sub, listener, cmd, cb, monitor, watcher);
    SessionNext(env, events, one);
    MessagesBack(a, Status(b));
    ReplyPutsBack(env, Session(env, events), chunk, Wire(Status(b)), a, Status(b), watcher, cb);
    SessionNext(env, events + [one], Readable(Ready, Arrived(Wire(Error(text)))));
    ErrorRead(text);
    ReplyArrives(env, Session(env, events + [one]), Wire(Error(text)), Error(text), cb);
  }

  const MESSAGE: bytes := [109, 101, 115, 115, 97, 103, 101]

  /** What a server sends to the subscribers of a channel. */
  function Message(name: bytes, text: bytes): Reply {
    Arr(3, [Str(MESSAGE), Str(name), Str(text)])
  }

  /** Two messages arrive in one read, the first for a channel that is subscribed, the second for one that is not. */
  lemma MessagesArrive(env: Env, s: State, chunk: bytes, mid: bytes, a: Reply, b: Reply, listener: Callback)
    requires env.acts == [] && Idle(s) && s.life.connected && !s.life.err && s.wishes == Wishes(false, false)
    requires listener.fn.Some? && !s.work.monitoring && s.input.unread == []
    requires ParseReply(chunk, 0) == Done(a, mid) && ParseReply(mid, 0) == Done(b, [])
    requires RouteReply(s.work, a, NO_CALLBACK) == To(s.work, listener) == RouteReply(s.work, b, listener)
    ensures var t := Handle(env, s, Readable(Ready, Arrived(chunk)));
            && t.work == s.work && !Over(t.life) && t.runs == s.runs + [Run(listener, Some(a)), Run(listener, Some(b))]
  {
    ReadIsProcessed(env, s, chunk);
    var u := Fed(s, chunk);
    ReplyTaken(env, u, a, mid, u.work, listener);
    var v := Delivered(env, u);
    ReplyTaken(env, v, b, [], v.work, listener);
    NothingMore(env, Delivered(env, v));
  }

  /** A message that no regular callback is waiting before, and that ends no subscription. */
  lemma MessageGoes(w: Work, name: bytes, text: bytes, last: Callback)
    requires w.subscribed && w.replies.waiting == []
    ensures var m := w.subs.channels;
            RouteReply(w, Message(name, text), last) == To(w, if name in m then m[name] else last)
  {
    assert Lower(CString(MESSAGE))[0] == ToLower(109) != UNSUBSCRIBE[0] by {
      assert IndexOf(MESSAGE, NUL) > 0;
    }
  }

  lemma MessagesGo(w: Work, name: bytes, other: bytes, listener: Callback, one: bytes, two: bytes)
    requires w.subscribed && w.replies.waiting == [] && w.subs.channels == map[name := listener] && name != other
    ensures RouteReply(w, Message(name, one), NO_CALLBACK) == To(w, listener)
    ensures RouteReply(w, Message(other, two), listener) == To(w, listener)
  {
    MessageGoes(w, name, one, NO_CALLBACK);
    MessageGoes(w, other, two, listener);
  }

  /** Two messages can be sent, one after the other. */
  lemma MessagesSent(name: bytes, other: bytes, one: bytes, two: bytes)
    ensures var a, b := Message(name, one), Message(other, two);
            ParseReply(Wire(a) + Wire(b), 0) == Done(a, Wire(b)) && ParseReply(Wire(b), 0) == Done(b, [])
  {
    MessagesBack(Message(name, one), Message(other, two));
  }

  /**
   A message for a channel without a subscriber is taken to the one of the message before: in
   this run two messages arrive in one read, and the listener of the first is invoked with
   both.
   */
  lemma StaleMessage(name: bytes, other: bytes, sub: bytes, listener: Callback, one: bytes, two: bytes)
    requires name != other && listener.fn.Some?
    ensures var a, b := Message(name, one), Message(other, two);
            var read := Readable(Ready, Arrived(Wire(a) + Wire(b)));
            var t := Session(Env([], [], []), Subscribing(name, sub, listener) + [read]);
            && t.work.subs.channels == map[name := listener] && !Over(t.life)
            && t.runs == [Run(listener, Some(a)), Run(listener, Some(b))]
  {
    var env, events := Env([], [], []), Subscribing(name, sub, listener);
    var a, b := Message(name, one), Message(other, two);
    Subscribed(env, name, sub, listener);
    var s := Session(env, events);
    SessionNext(env, events, Readable(Ready, Arrived(Wire(a) + Wire(b))));
    MessagesSent(name, other, one, two);
    MessagesGo(s.work, name, other, listener, one, two);
    MessagesArrive(env, s, Wire(a) + Wire(b), Wire(b), a, b, listener);
  }

  lemma StatusAndMessage(env: Env, s: State, chunk: bytes, mid: bytes, b: bytes, other: bytes, text: bytes,
                         cb: Callback)
    requires env.acts == [] && Idle(s) && s.life.connected && !s.life.err && s.wishes == Wishes(false, false)
    requires s.work.subscribed && !s.work.monitoring && s.input.unread == [] && other !in s.work.subs.channels
    requires s.work.replies.waiting == [] && s.work.invalid.waiting == [cb] && cb.fn.Some?
    requires ParseReply(chunk, 0) == Done(Status(b), mid) && ParseReply(mid, 0) == Done(Message(other, text), [])
    ensures var t := Handle(env, s, Readable(Ready, Arrived(chunk)));
            !Over(t.life) && t.runs == s.runs + [Run(cb, Some(Status(b))), Run(cb, Some(Message(other, text)))]
  {
    var a, m := Status(b), Message(other, text);
    ReadIsProcessed(env, s, chunk);
    var u := Fed(s, chunk);
    ReplyTaken(env, u, a, mid, ShiftLane(u.work, Invalid, Some(a)), cb);
    var v := Delivered(env, u);
    MessageGoes(v.work, other, text, cb);
    ReplyTaken(env, v, m, [], v.work, cb);
    NothingMore(env, Delivered(env, v));
  }

  /**
   That can also be the callback of a command issued while subscribed: in this run a status
   reply is taken to it, and then a message for a channel that nobody subscribed to.
   */
  lemma InvalidCommandGetsMessage(name: bytes, other: bytes, sub: bytes, listener: Callback, cmd: Command,
                                  cb: Callback, b: bytes, text: bytes)
    requires name != other && cmd.kind.Regular? && cb.fn.Some? && Crlf(b) < 0
    ensures var m := Message(other, text);
            var read := Readable(Ready, Arrived(Wire(Status(b)) + Wire(m)));
            var t := Session(Env([], [], []), Subscribing(name, sub, listener) + [Call(cmd, cb)] + [read]);
            !Over(t.life) && t.runs == [Run(cb, Some(Status(b))), Run(cb, Some(m))]
  {
    var env, events := Env([], [], []), Subscribing(name, sub, listener) + [Call(cmd, cb)];
    var a, m := Status(b), Message(other, text);
    InvalidQueued(env, name, sub, listener, cmd, cb);
    var s, chunk := Session(env, events), Wire(a) + Wire(m);
    SessionNext(env, events, Readable(Ready, Arrived(chunk)));
    MessagesBack(a, m);
    StatusAndMessage(env, s, chunk, Wire(m), b, other, text, cb);
  }

  /** A context connects, issues a monitor command, and is read from when nothing is there yet. */
  function WatchingEarly(monitor: Command, watcher: Callback): seq<Event> {
    [Writable(Ready, NotNow), Call(monitor, watcher), Readable(Ready, NothingYet)]
  }

  lemma WatchedEarly(env: Env, monitor: Command, watcher: Callback)
    requires monitor.kind.Monitor?
    ensures var s := Session(env, WatchingEarly(monitor, watcher));
            && Idle(s) && s.life == CONNECTED.life && s.wishes == INIT.wishes && s.input == INIT.input && s.runs == []
            && s.work.monitoring && s.work.replies.waiting == [watcher, NO_CALLBACK]
  {
    Issued(env, monitor, watcher);
    var events := [Writable(Ready, NotNow), Call(monitor, watcher)];
    SessionNext(env, events, Readable(Ready, NothingYet));
    assert events + [Readable(Ready, NothingYet)] == WatchingEarly(monitor, watcher);
  }

  /**
   Monitor mode puts back whatever callback was taken last, also if none was: in this run the
   monitor callback is given one reply, the empty callback that a read without replies put into
   the list takes the next, and from then on the monitor callback waits nowhere.
   */
  lemma WatcherIsLost(monitor: Command, watcher: Callback, a: Reply, b: Reply)
    requires monitor.kind.Monitor? && watcher.fn.Some?
    requires Sendable(a) && Sendable(b) && DepthAtMost(a, MAX_DEPTH) && DepthAtMost(b, MAX_DEPTH)
    ensures var read := Readable(Ready, Arrived(Wire(a) + Wire(b)));
            var t := Session(Env([], [], []), WatchingEarly(monitor, watcher) + [read]);
            && !Over(t.life) && t.input.got == [a, b] && t.runs == [Run(watcher, Some(a))]
            && t.work.replies.waiting == [NO_CALLBACK]
  {
    var env, events, chunk := Env([], [], []), WatchingEarly(monitor, watcher), Wire(a) + Wire(b);
    WatchedEarly(env, monitor, watcher);
    SessionNext(env, events, Readable(Ready, Arrived(chunk)));
    MessagesBack(a, b);
    WatcherTaken(env, Session(env, events), chunk, Wire(b), a, b, watcher);
  }

  lemma WatcherTaken(env: Env, s: State, chunk: bytes, mid: bytes, a: Reply, b: Reply, watcher: Callback)
    requires env.acts == [] && Idle(s) && s.life.connected && !s.life.err && s.wishes == Wishes(false, false)
    requires s.work.monitoring && s.work.replies.waiting == [watcher, NO_CALLBACK] && watcher.fn.Some?
    requires s.input.unread == [] && ParseReply(chunk, 0) == Done(a, mid) && ParseReply(mid, 0) == Done(b, [])
    ensures var t := Handle(env, s, Readable(Ready, Arrived(chunk)));
            && !Over(t.life) && t.input.got == s.input.got + [a, b] && t.runs == s.runs + [Run(watcher, Some(a))]
            && t.work.replies.waiting == [NO_CALLBACK]
  {
    ReadIsProcessed(env, s, chunk);
    var u := Fed(s, chunk);
    ReplyTaken(env, u, a, mid, ShiftLane(u.work, Replies, Some(a)), watcher);
    EmptyTakes(env, Delivered(env, u), b);
  }

  lemma EmptyTakes(env: Env, v: State, b: Reply)
    requires Idle(v) && !v.life.err && v.wishes == Wishes(false, false) && v.work.monitoring
    requires v.work.replies.waiting == [NO_CALLBACK] && ParseReply(v.input.unread, 0) == Done(b, [])
    ensures var t := Process(env, v);
            && t.life == v.life && t.runs == v.runs && t.work.replies.waiting == [NO_CALLBACK]
            && t.input.got == v.input.got + [b]
  {
  }
}
