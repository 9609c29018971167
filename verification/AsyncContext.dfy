/**
 redisAsyncContext as the object that its methods change, together with the context below
 it. The ghost fields carry the histories of module Async; every method is proved to take
 the whole state where the function of the same name there takes it.
 */
module AsyncContexts {
  import opened Bytes
  import opened Resp
  import opened Callbacks
  import Async
  import AsyncRuns
  import Commands
  import Format
  import Strings = SdsStrings

  // ----- Users -----

  datatype UserAction =
    | Issue(argv: seq<bytes>, cb: Callback)
    | RequestDisconnect
    | RequestFree

  /** Commands have an argument at least; __redisAsyncCommand() asserts it. */
  type Deed = a: UserAction | a.Issue? ==> a.argv != [] witness RequestFree

  /** The user's side of a run, see Async.Env. */
  datatype User = User(acts: seq<seq<Deed>>, channels: seq<bytes>, patterns: seq<bytes>)

  ghost function Meant(a: Deed): Async.Action {
    match a
    case Issue(argv, cb) => Async.Issue(Commands.CommandOf(argv), cb)
    case RequestDisconnect => Async.RequestDisconnect
    case RequestFree => Async.RequestFree
  }

  ghost function AllMeant(acts: seq<Deed>): (r: seq<Async.Action>)
    ensures |r| == |acts| && forall i :: 0 <= i < |r| ==> r[i] == Meant(acts[i])
  {
    seq(|acts|, i requires 0 <= i < |acts| => Meant(acts[i]))
  }

  ghost function EnvOf(user: User): Async.Env {
    Async.Env(seq(|user.acts|, i requires 0 <= i < |user.acts| => AllMeant(user.acts[i])), user.channels, user.patterns)
  }

  function ActsOf(user: User, n: nat): (acts: seq<Deed>)
    ensures AllMeant(acts) == Async.ActsOf(EnvOf(user), n)
  {
    if n < |user.acts| then user.acts[n] else []
  }

  /** Events with what user code does spelled out in argument vectors. */
  datatype Happening =
    | Doing(a: Deed)
    | SocketReadable(socket: Async.Socket, arrival: Async.Arrival)
    | SocketWritable(socket: Async.Socket, departure: Async.Departure)
    | WritePrepared(socket: Async.Socket)
    | WriteCompleted(written: int)

  ghost function EventOf(h: Happening): Async.Event {
    match h
    case Doing(Issue(argv, cb)) => Async.Call(Commands.CommandOf(argv), cb)
    case Doing(RequestDisconnect) => Async.Disconnect
    case Doing(RequestFree) => Async.Free
    case SocketReadable(socket, arrival) => Async.Readable(socket, arrival)
    case SocketWritable(socket, departure) => Async.Writable(socket, departure)
    case WritePrepared(socket) => Async.Preparing(socket)
    case WriteCompleted(written) => Async.Completed(written)
  }

  ghost function EventsOf(hs: seq<Happening>): (r: seq<Async.Event>)
    ensures |r| == |hs| && forall i :: 0 <= i < |r| ==> r[i] == EventOf(hs[i])
  {
    seq(|hs|, i requires 0 <= i < |hs| => EventOf(hs[i]))
  }

  // ----- Where a reply goes -----

  datatype Verdict = Answering(cb: Callback) | Unexpected | Failing(why: Async.Assertion)

  ghost predicate Agrees(verdict: Verdict, route: Async.Route) {
    match route
    case To(_, cb) => verdict == Answering(cb)
    case Nowhere => verdict.Unexpected?
    case Broken(why) => verdict == Failing(why)
  }

  ghost function Settled(env: Async.Env, s: Async.State, verdict: Verdict, reply: Reply, rest: bytes)
    : (r: (Async.State, Option<Callback>))
    requires !s.inCallback
    ensures r.1.Some? ==> !r.0.inCallback
  {
    match verdict
    case Failing(why) => (s.(life := s.life.(failed := Some(why))), None)
    case Unexpected => (Async.Fail(env, s.(input := Async.Receive(s.input, reply, rest, s.input.last))), None)
    case Answering(cb) =>
      var u := s.(input := Async.Receive(s.input, reply, rest, cb));
      Async.CallbackKeeps(env, u, cb, Some(reply));
      var t := Async.RunCallback(env, u, cb, Some(reply));
      if cb.fn.Some? && t.wishes.freeing then (Async.Teardown(env, t), None) else (t, Some(cb))
  }

  // ----- The context -----

  class AsyncContext {
    var connected: bool
    var disconnecting: bool
    var freeing: bool
    var inCallback: bool
    var subscribed: bool
    var monitoring: bool
    var err: bool
    var obuf: bytes
    var unread: bytes                   // see RedisReader.Unparsed()
    var replies: seq<Callback>          // see CallbackList
    var invalid: seq<Callback>
    var channels: map<bytes, Callback>  // see HashTable.Dict
    var patterns: map<bytes, Callback>
    var calls: nat                      // invocations so far, by which an environment tells them apart
    var over: bool                      // the context is gone

    ghost var life: Async.Life
    ghost var work: Async.Work
    ghost var input: Async.Input
    ghost var runs: seq<Async.Run>

    ghost function State(): Async.State
      reads this
    {
      Async.State(life, Async.Wishes(disconnecting, freeing), inCallback, work, input, runs)
    }

    ghost predicate LifeMatches()
      reads this
    {
      && connected == life.connected && err == life.err && over == Async.Over(life)
      && unread == input.unread && calls == |runs|
    }

    ghost predicate WorkMatches()
      reads this
    {
      && subscribed == work.subscribed && monitoring == work.monitoring && obuf == work.output.obuf
      && replies == work.replies.waiting && invalid == work.invalid.waiting
      && channels == work.subs.channels && patterns == work.subs.patterns
    }

    ghost predicate Valid()
      reads this
    {
      LifeMatches() && WorkMatches()
    }

    constructor ()
      ensures Valid() && State() == Async.INIT
    {
      connected, disconnecting, freeing, inCallback := false, false, false, false;
      subscribed, monitoring, err, over := false, false, false, false;
      obuf, unread, replies, invalid, channels, patterns, calls := [], [], [], [], map[], map[], 0;
      life, work, input, runs := Async.INIT.life, Async.INIT.work, Async.INIT.input, Async.INIT.runs;
    }

    // ----- Commands -----

    /** dictReplace() of every argument that is still to be found at p. */
    static method Register(m: map<bytes, Callback>, at: bytes, cb: Callback, ghost names: seq<bytes>)
      returns (r: map<bytes, Callback>)
      requires Commands.Left(at, names, 0)
      ensures r == Async.Register(m, names, cb)
    {
      r := m;
      ghost var k := 0;
      var name, p := Commands.NextName(at, names, k);
      while name.Some?
        invariant 0 <= k <= |names| && r == Async.Register(m, names[..k], cb)
        invariant Commands.Found(name, p, names, k)
        decreases |names| - k
      {
        r := r[name.value := cb];
        RegisterNext(m, names, k, cb);
        k := k + 1;
        name, p := Commands.NextName(p, names, k);
      }
      assert names[..k] == names;
    }

    static lemma RegisterNext(m: map<bytes, Callback>, names: seq<bytes>, k: nat, cb: Callback)
      requires k < |names|
      ensures Async.Register(m, names[..k + 1], cb) == Async.Register(m, names[..k], cb)[names[k] := cb]
    {
      assert names[..k + 1][..k] == names[..k];
    }

    /** Where the callback of a command goes. */
    method Enlist(kind: Async.CommandKind, rest: bytes, cb: Callback, ghost names: seq<bytes>)
      requires WorkMatches() && Commands.Left(rest, names, 0)
      modifies `work, `channels, `patterns, `subscribed, `monitoring, `replies, `invalid
      ensures WorkMatches() && work == Async.Enlist(old(work), kind, names, cb)
    {
      match kind {
        case Subscribe(pattern) =>
          subscribed := true;
          if pattern {
            patterns := Register(patterns, rest, cb, names);
          } else {
            channels := Register(channels, rest, cb, names);
          }
          work := Async.Enlist(work, kind, names, cb);
        case Unsubscribe =>
        case Monitor =>
          monitoring, replies := true, replies + [cb];
          work := Async.Enlist(work, kind, names, cb);
        case Regular =>
          if subscribed {
            invalid := invalid + [cb];
          } else {
            replies := replies + [cb];
          }
          work := Async.Enlist(work, kind, names, cb);
      }
    }

    /** A command that is not refused outright. */
    method Submit(cmd: bytes, cb: Callback, ghost argv: seq<bytes>) returns (ok: bool)
      requires WorkMatches() && argv != [] && cmd == Format.Encode(argv)
      modifies `work, `channels, `patterns, `subscribed, `monitoring, `replies, `invalid, `obuf
      ensures WorkMatches() && work == Async.Submit(old(work), Commands.CommandOf(argv), cb)
      ensures ok <==> !(Commands.CommandOf(argv).kind.Unsubscribe? && !old(subscribed))
    {
      var kind, rest := Commands.Inspect(cmd, argv);
      if kind.Unsubscribe? && !subscribed {
        return false;
      }
      Enlist(kind, rest, cb, argv[1..]);
      obuf := obuf + cmd;
      work := work.(output := Async.AppendCommand(work.output, cmd));
      return true;
    }

    /** __redisAsyncCommand() on the command that the argument vector argv was formatted to. */
    method AsyncCommand(cmd: bytes, cb: Callback, ghost argv: seq<bytes>) returns (ok: bool)
      requires Valid() && argv != [] && cmd == Format.Encode(argv)
      modifies `work, `channels, `patterns, `subscribed, `monitoring, `replies, `invalid, `obuf
      ensures Valid() && State() == Async.AsyncCommand(old(State()), Commands.CommandOf(argv), cb)
      ensures ok <==> !old(disconnecting) && !old(freeing)
                      && !(Commands.CommandOf(argv).kind.Unsubscribe? && !old(subscribed))
    {
      if disconnecting || freeing {
        return false;
      }
      ok := Submit(cmd, cb, argv);
    }

    // ----- Callbacks -----

    /** One thing that user code does from inside a callback. */
    method Perform(user: User, a: Deed)
      requires Valid() && inCallback && !over
      modifies this
      ensures Valid() && State() == Async.Act(old(State()), Meant(a))
      decreases 0, 9
    {
      match a {
        case Issue(argv, cb) => var _ := AsyncCommand(Format.Encode(argv), cb, argv);
        case RequestDisconnect => AsyncDisconnect(user);
        case RequestFree => AsyncFree(user);
      }
    }

    method PerformAll(user: User, acts: seq<Deed>)
      requires Valid() && inCallback && !over
      modifies this
      ensures Valid() && State() == Async.Acts(old(State()), AllMeant(acts))
      decreases 0, 10
    {
      for i := 0 to |acts|
        invariant Valid() && inCallback && !over && State() == Async.Acts(old(State()), AllMeant(acts[..i]))
      {
        ActsNext(old(State()), acts, i);
        Perform(user, acts[i]);
      }
      assert acts[..|acts|] == acts;
    }

    /** __redisRunCallback(); nothing here looks at the reply, which is the user's. */
    method RunCallback(user: User, cb: Callback, ghost reply: Option<Reply>)
      requires Valid() && !inCallback && !over
      modifies this
      ensures Valid() && State() == Async.RunCallback(EnvOf(user), old(State()), cb, reply)
      decreases 1, 1
    {
      if cb.fn.Some? {
        inCallback := true;
        var acts := ActsOf(user, calls);
        calls, runs := calls + 1, runs + [Async.Run(cb, reply)];
        PerformAll(user, acts);
        inCallback := false;
      }
    }

    // ----- Teardown -----

    /** __redisShiftCallback(); None stands for REDIS_ERR. */
    method Shift(lane: Async.Lane, ghost reply: Option<Reply>) returns (target: Option<Callback>)
      requires WorkMatches()
      modifies `work, `replies, `invalid
      ensures WorkMatches() && (target.Some? <==> Async.LaneOf(old(work), lane).waiting != [])
      ensures if target.None? then work == old(work)
              else target.value == Async.LaneOf(old(work), lane).waiting[0]
                   && work == Async.ShiftLane(old(work), lane, reply)
    {
      if lane.Replies? && replies != [] {
        target, replies := Some(replies[0]), replies[1..];
        work := Async.ShiftLane(work, lane, reply);
      } else if lane.Invalid? && invalid != [] {
        target, invalid := Some(invalid[0]), invalid[1..];
        work := Async.ShiftLane(work, lane, reply);
      } else {
        target := None;
      }
    }

    /** Runs the first waiting callback of a list with a NULL reply, if there is one. */
    method DrainOne(user: User, lane: Async.Lane) returns (more: bool)
      requires Valid() && Async.Quiet(State()) && !over
      modifies this
      ensures Valid() && Async.Quiet(State()) && !over
      ensures Async.Drain(EnvOf(user), State(), lane) == Async.Drain(EnvOf(user), old(State()), lane)
      ensures more ==> |Async.LaneOf(work, lane).waiting| < |Async.LaneOf(old(work), lane).waiting|
      ensures !more ==> Async.LaneOf(work, lane).waiting == []
      decreases 1, 2
    {
      var cb := Shift(lane, None);
      more := cb.Some?;
      if more {
        Async.CallbackKeeps(EnvOf(user), State(), cb.value, None);
        RunCallback(user, cb.value, None);
      }
    }

    /** Runs the waiting callbacks of a list with a NULL reply. */
    method Drain(user: User, lane: Async.Lane)
      requires Valid() && Async.Quiet(State()) && !over
      modifies this
      ensures Valid() && !over && State() == Async.Drain(EnvOf(user), old(State()), lane)
      decreases 1, 3
    {
      var more := DrainOne(user, lane);
      while more
        invariant Valid() && Async.Quiet(State()) && !over
        invariant Async.Drain(EnvOf(user), State(), lane) == Async.Drain(EnvOf(user), old(State()), lane)
        invariant !more ==> Async.LaneOf(work, lane).waiting == []
        decreases more, |Async.LaneOf(work, lane).waiting|
      {
        more := DrainOne(user, lane);
      }
    }

    /** Runs the callbacks of a dictionary with a NULL reply. */
    method DrainTable(user: User, table: map<bytes, Callback>, keys: seq<bytes>)
      requires Valid() && !over && Async.Quiet(State()) && forall k :: k in keys ==> k in table
      modifies this
      ensures Valid() && !over && State() == Async.DrainTable(EnvOf(user), old(State()), table, keys)
      decreases 1, 2
    {
      ghost var env := EnvOf(user);
      var i := 0;
      while i < |keys|
        invariant i <= |keys| && !over && Valid() && Async.Quiet(State())
        invariant Async.DrainTable(env, State(), table, keys[i..]) == Async.DrainTable(env, old(State()), table, keys)
      {
        var cb := table[keys[i]];
        Async.CallbackKeeps(env, State(), cb, None);
        assert keys[i..][1..] == keys[i + 1..];
        RunCallback(user, cb, None);
        i := i + 1;
      }
    }

    /** Runs everything that is still pending. */
    method RunPending(user: User)
      requires Valid() && Async.Quiet(State()) && !over
      requires Async.Lists(channels, user.channels) && Async.Lists(patterns, user.patterns)
      modifies this
      ensures Valid() && !over && State() == Async.RunPending(EnvOf(user), old(State()))
      decreases 1, 4
    {
      ghost var env, s := EnvOf(user), State();
      AsyncRuns.LanesRuns(env, s);
      Drain(user, Async.Replies);
      Drain(user, Async.Invalid);
      ghost var t := State();
      assert t.work.subs == s.work.subs;
      AsyncRuns.TableRuns(env, t, channels, user.channels);
      DrainTable(user, channels, user.channels);
      assert work == t.work;
      DrainTable(user, patterns, user.patterns);
    }

    /** __redisAsyncFree() */
    method Teardown(user: User)
      requires Valid() && Async.Quiet(State()) && !over
      modifies this
      ensures Valid() && over && State() == Async.Teardown(EnvOf(user), old(State()))
      decreases 1, 6
    {
      if !Async.Lists(channels, user.channels) || !Async.Lists(patterns, user.patterns) {
        over, life := true, life.(impossible := true);
      } else {
        BeginTeardown();
        RunPending(user);
        Release();
      }
    }

    ghost method BeginTeardown()
      requires Valid()
      modifies `life
      ensures Valid() && life == old(life).(teardowns := old(life.teardowns) + 1)
    {
      life := life.(teardowns := life.teardowns + 1);
    }

    /** redisFree() */
    method Release()
      requires Valid()
      modifies `life, `over
      ensures Valid() && over && life == old(life).(frees := old(life.frees) + 1)
    {
      over, life := true, life.(frees := life.frees + 1);
    }

    /** __redisAsyncDisconnect() */
    method DisconnectNow(user: User)
      requires Valid() && !over && !inCallback && (err || disconnecting || freeing)
      modifies this
      ensures Valid() && over && State() == Async.DisconnectNow(EnvOf(user), old(State()))
      decreases 1, 7
    {
      if !err {
        if replies != [] {
          over, life := true, life.(failed := Some(Async.PendingAtDisconnect));  // assert()
          return;
        }
      } else {
        disconnecting := true;
      }
      Teardown(user);
    }

    /** redisAsyncDisconnect() */
    method AsyncDisconnect(user: User)
      requires Valid() && !over
      modifies this
      ensures Valid()
      ensures State() == if old(inCallback) then Async.Act(old(State()), Async.RequestDisconnect)
                         else Async.Handle(EnvOf(user), old(State()), Async.Disconnect)
      decreases if inCallback then 0 else 1, 8
    {
      disconnecting := true;
      if !inCallback && replies == [] {
        DisconnectNow(user);
      }
    }

    /** redisAsyncFree() */
    method AsyncFree(user: User)
      requires Valid() && !over
      modifies this
      ensures Valid()
      ensures State() == if old(inCallback) then Async.Act(old(State()), Async.RequestFree)
                         else Async.Handle(EnvOf(user), old(State()), Async.Free)
      decreases if inCallback then 0 else 1, 8
    {
      freeing := true;
      if !inCallback {
        Teardown(user);
      }
    }

    /** An error on the connection, which ends it. */
    method Fail(user: User)
      requires Valid() && !over && !inCallback
      modifies this
      ensures Valid() && over && State() == Async.Fail(EnvOf(user), old(State()))
    {
      err, life := true, life.(err := true);
      DisconnectNow(user);
    }

    // ----- Replies -----

    /** __redisGetSubscribeCallback() on an array; None where an assertion fails. */
    method GetMessageCallback(elems: seq<Reply>, cb: Callback) returns (target: Option<Callback>)
      requires WorkMatches() && subscribed
      modifies `work, `channels, `patterns, `subscribed
      ensures WorkMatches()
      ensures target.Some? ==> Async.RouteMessage(old(work), elems, cb) == Async.To(work, target.value)
      ensures target.None? ==> Async.RouteMessage(old(work), elems, cb) == Async.Broken(Async.BadMessage)
      ensures target.None? ==> work == old(work)
    {
      if |elems| < 2 || !elems[0].Str? || !elems[1].Str? {
        return None;
      }
      var text, name := elems[0].text, elems[1].text;
      var pvariant := Async.IsPattern(text);
      var callbacks := if pvariant then patterns else channels;
      if name !in callbacks {
        return Some(cb);
      }
      if Async.IsUnsubscribe(text) {
        if |elems| < 3 || !elems[2].Integer? {
          return None;
        }
        if pvariant {
          patterns := patterns - {name};
        } else {
          channels := channels - {name};
        }
        if elems[2].n == 0 {
          subscribed := false;
        }
        work := work.(subs := Async.DropName(work.subs, pvariant, name), subscribed := elems[2].n != 0);
      }
      return Some(callbacks[name]);
    }

    /** Finds the callback for a reply. */
    method Route(reply: Reply, cb: Callback) returns (verdict: Verdict)
      requires WorkMatches()
      modifies `work, `channels, `patterns, `subscribed, `replies, `invalid
      ensures WorkMatches() && Agrees(verdict, Async.RouteReply(old(work), reply, cb))
      ensures work == if verdict.Answering? then Async.RouteReply(old(work), reply, cb).work else old(work)
    {
      var shifted := Shift(Async.Replies, Some(reply));
      if shifted.Some? {
        return Answering(shifted.value);
      }
      if reply.Error? {
        return Unexpected;
      }
      if !subscribed && !monitoring {
        return Failing(Async.NotSubscribed);
      }
      if !subscribed {
        return Answering(cb);
      }
      if reply.Arr? {
        var message := GetMessageCallback(reply.elems, cb);
        return if message.Some? then Answering(message.value) else Failing(Async.BadMessage);
      }
      shifted := Shift(Async.Invalid, Some(reply));
      return Answering(if shifted.Some? then shifted.value else cb);
    }

    /** Runs the callback of a reply; done tells that it had the context freed. */
    method Answer(user: User, cb: Callback, ghost reply: Reply) returns (done: bool)
      requires Valid() && !over && !inCallback
      modifies this
      ensures Valid() && done == over && !inCallback
      ensures var s := Async.RunCallback(EnvOf(user), old(State()), cb, Some(reply));
              && s.input == old(input) && !s.inCallback && done == (cb.fn.Some? && s.wishes.freeing)
              && State() == if done then Async.Teardown(EnvOf(user), s) else s
    {
      Async.CallbackKeeps(EnvOf(user), State(), cb, Some(reply));
      RunCallback(user, cb, Some(reply));
      done := cb.fn.Some? && freeing;
      if done {
        Teardown(user);
      }
    }

    /** No reply is there yet; cb is the callback of the reply before. */
    method Wait(user: User, cb: Callback)
      requires Valid() && !over && !inCallback && ParseReply(unread, 0).More? && cb == input.last
      modifies this
      ensures Valid() && State() == Async.Process(EnvOf(user), old(State()))
    {
      if disconnecting && obuf == [] {
        DisconnectNow(user);
      } else if monitoring {
        replies := replies + [cb];
        work := work.(replies := Async.Push(work.replies, cb));
      }
    }

    /** Does with a reply what its routing asks for; next is the callback it went to, unless the context is gone. */
    method Settle(user: User, verdict: Verdict, reply: Reply, rest: bytes) returns (next: Option<Callback>)
      requires Valid() && !over && !inCallback
      modifies this
      ensures Valid() && (next.Some? ==> !over && !inCallback && next.value == input.last)
      ensures (State(), next) == Settled(EnvOf(user), old(State()), verdict, reply, rest)
    {
      if verdict.Failing? {
        over, life := true, life.(failed := Some(verdict.why));  // assert()
        return None;
      }
      if verdict.Unexpected? {
        unread, input := rest, Async.Receive(input, reply, rest, input.last);
        Fail(user);
        return None;
      }
      unread, input := rest, Async.Receive(input, reply, rest, verdict.cb);
      var done := Answer(user, verdict.cb, reply);
      return if done then None else Some(verdict.cb);
    }

    /** A reply is there: it is routed and dealt with. */
    method Dispatch(user: User, cb: Callback) returns (next: Option<Callback>)
      requires Valid() && !over && !inCallback && ParseReply(unread, 0).Done? && cb == input.last
      modifies this
      ensures Valid() && (next.Some? ==> !over && !inCallback && next.value == input.last && |unread| < |old(unread)|)
      ensures Async.Process(EnvOf(user), old(State()))
              == if next.None? then State() else Async.Process(EnvOf(user), State())
    {
      ghost var s := State();
      var p := ParseReply(unread, 0);
      var verdict := Route(p.reply, cb);
      ghost var t := State();
      next := Settle(user, verdict, p.reply, p.rest);
      ProcessDone(EnvOf(user), s, verdict, t, p.reply, p.rest);
    }

    /** redisProcessCallbacks() */
    method ProcessCallbacks(user: User)
      requires Valid() && !over && !inCallback && input.last == Async.NO_CALLBACK
      modifies this
      ensures Valid() && State() == Async.Process(EnvOf(user), old(State()))
    {
      var cb := Async.NO_CALLBACK;
      var p := ParseReply(unread, 0);
      while p.Done?
        invariant Valid() && !over && !inCallback && p == ParseReply(unread, 0) && cb == input.last
        invariant Async.Process(EnvOf(user), State()) == Async.Process(EnvOf(user), old(State()))
        decreases |unread|
      {
        var next := Dispatch(user, cb);
        if next.None? {
          return;
        }
        cb := next.value;
        p := ParseReply(unread, 0);
      }
      if p.Bad? {
        Fail(user);
      } else {
        Wait(user, cb);
      }
    }

    // ----- Events -----

    /** __redisAsyncHandleConnect(), where it is called at all; ok tells that the socket is connected now. */
    method HandleConnect(user: User, socket: Async.Socket) returns (ok: bool)
      requires Valid() && !over && !inCallback
      modifies this
      ensures Valid() && State() == Async.Connect(EnvOf(user), old(State()), socket)
      ensures !inCallback && (ok <==> !over && connected)
    {
      if connected {
        return true;
      }
      match socket {
        case Ready => connected, life := true, life.(connected := true);
        case InProgress => err, life := true, life.(err := true);
        case Unreachable => Fail(user);
      }
      return connected && !over;
    }

    /** redisAsyncHandleRead() */
    method HandleRead(user: User, socket: Async.Socket, arrival: Async.Arrival)
      requires Valid() && !over && !inCallback
      modifies this
      ensures Valid() && State() == Async.Handle(EnvOf(user), old(State()), Async.Readable(socket, arrival))
    {
      var ok := HandleConnect(user, socket);
      if ok {
        Read(user, arrival);
      }
    }

    method Read(user: User, arrival: Async.Arrival)
      requires Valid() && !over && !inCallback
      modifies this
      ensures Valid() && State() == Async.Read(EnvOf(user), old(State()), arrival)
    {
      if Async.ReadFails(err, arrival) {
        Fail(user);
        return;
      }
      var chunk := Async.Given(arrival);
      unread, input := unread + chunk, Async.Feed(input, chunk);
      ProcessCallbacks(user);
    }

    /** redisAsyncHandleWrite() */
    method HandleWrite(user: User, socket: Async.Socket, departure: Async.Departure) returns (done: bool)
      requires Valid() && !over && !inCallback
      modifies this
      ensures Valid() && State() == Async.Handle(EnvOf(user), old(State()), Async.Writable(socket, departure))
      ensures !over && connected ==> (done <==> obuf == [])
    {
      done := false;
      var ok := HandleConnect(user, socket);
      if ok {
        done := Write(user, departure);
      }
    }

    /** redisBufferWrite(), and what follows an error. */
    method Write(user: User, departure: Async.Departure) returns (done: bool)
      requires Valid() && !over && !inCallback
      modifies this
      ensures Valid() && State() == Async.Write(EnvOf(user), old(State()), departure)
      ensures done <==> !over && obuf == []
    {
      if err || (obuf != [] && departure.WriteError?) {
        Fail(user);
        return false;
      }
      if departure.Wrote? {
        TakeOut(departure.n);
      }
      return obuf == [];
    }

    /** The bytes that were written leave the buffer. */
    method TakeOut(nwritten: nat)
      requires WorkMatches()
      modifies `obuf, `work
      ensures WorkMatches()
      ensures work == old(work).(output := Async.Written(old(work.output), nwritten))
    {
      if nwritten > 0 {
        if nwritten < |obuf| {
          Strings.RangeDrops(obuf, nwritten);
        }
        obuf := if nwritten == |obuf| then [] else Strings.RangeOf(obuf, nwritten, -1);
      }
      work := work.(output := Async.Written(work.output, nwritten));
    }

    /** redisAsyncHandleWritePrep() */
    method HandleWritePrep(user: User, socket: Async.Socket) returns (ok: bool)
      requires Valid() && !over && !inCallback
      modifies this
      ensures Valid() && State() == Async.Handle(EnvOf(user), old(State()), Async.Preparing(socket))
      ensures ok <==> !over && connected
    {
      ok := HandleConnect(user, socket);
    }

    /** redisAsyncHandleWriteComplete() with redisBufferWriteDone(), which cannot fail. */
    method HandleWriteComplete(written: int) returns (done: bool)
      requires Valid()
      modifies `obuf, `work
      ensures Valid() && State() == Async.WriteDone(old(State()), written)
      ensures done <==> obuf == []
    {
      if written > 0 {
        TakeOut(written);
      }
      return obuf == [];
    }

    /** Whatever happens next to the context. */
    method Handle(user: User, h: Happening)
      requires Valid() && !over && !inCallback
      modifies this
      ensures Valid() && State() == Async.Handle(EnvOf(user), old(State()), EventOf(h))
    {
      match h {
        case Doing(Issue(argv, cb)) => var _ := AsyncCommand(Format.Encode(argv), cb, argv);
        case Doing(RequestDisconnect) => AsyncDisconnect(user);
        case Doing(RequestFree) => AsyncFree(user);
        case SocketReadable(socket, arrival) => HandleRead(user, socket, arrival);
        case SocketWritable(socket, departure) => var _ := HandleWrite(user, socket, departure);
        case WritePrepared(socket) => var _ := HandleWritePrep(user, socket);
        case WriteCompleted(written) => var _ := HandleWriteComplete(written);
      }
    }
  }

  /** A whole run of a context, up to the point where it is gone. */
  method RunSession(user: User, happenings: seq<Happening>) returns (c: AsyncContext)
    ensures fresh(c) && c.Valid() && c.State() == Async.Session(EnvOf(user), EventsOf(happenings))
  {
    c := new AsyncContext();
    assert EventsOf(happenings[..0]) == [];
    for i := 0 to |happenings|
      invariant c.Valid() && fresh(c) && c.State() == Async.Session(EnvOf(user), EventsOf(happenings[..i]))
    {
      var events := EventsOf(happenings[..i + 1]);
      assert events[..|events| - 1] == EventsOf(happenings[..i]);
      if !c.over {
        c.Handle(user, happenings[i]);
      }
    }
    assert happenings[..|happenings|] == happenings;
  }

  lemma ProcessDone(env: Async.Env, s: Async.State, verdict: Verdict, t: Async.State, reply: Reply, rest: bytes)
    requires !s.inCallback && ParseReply(s.input.unread, 0) == Done(reply, rest)
    requires var r := Async.RouteReply(s.work, reply, s.input.last);
             Agrees(verdict, r) && t == s.(work := if r.To? then r.work else s.work)
    ensures var (u, next) := Settled(env, t, verdict, reply, rest);
            && Async.Process(env, s) == (if next.None? then u else Async.Process(env, u))
            && (next.Some? ==> u.input.unread == rest)
  {
    var r := Async.RouteReply(s.work, reply, s.input.last);
    if r.To? {
      Async.CallbackKeeps(env, t.(input := Async.Receive(s.input, reply, rest, r.cb)), r.cb, Some(reply));
    }
  }

  lemma ActsNext(s: Async.State, acts: seq<Deed>, i: nat)
    requires i < |acts|
    ensures Async.Acts(s, AllMeant(acts[..i + 1])) == Async.Act(Async.Acts(s, AllMeant(acts[..i])), Meant(acts[i]))
  {
    var all := AllMeant(acts[..i + 1]);
    assert all[..|all| - 1] == AllMeant(acts[..i]);
  }
}
