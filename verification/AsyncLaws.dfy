/** What every request and every event does to a context, for all states: what it changes and what it leaves alone. */
module AsyncLaws {
  import opened Bytes
  import opened Resp
  import opened Callbacks
  import opened Async
  import opened AsyncRuns
  import opened AsyncPromises
  import opened AsyncTheorems
  import opened AsyncFailures
  import opened AsyncOrigins

  // ----- Commands -----

  lemma {:induction false} RegisterMeans<T>(m: map<bytes, T>, names: seq<bytes>, v: T)
    ensures var r := Register(m, names, v);
            && (forall name :: name in r <==> name in m || name in names)
            && forall name :: name in r ==> r[name] == if name in names then v else m[name]
    decreases |names|
  {
    if names != [] {
      RegisterMeans(m, names[..|names| - 1], v);
      assert forall name :: name in names <==> name in names[..|names| - 1] || name == names[|names| - 1];
    }
  }

  /** Where the callback of a command is found by its replies: under each of the names, or at the end of a list. */
  lemma EnlistMeans(w: Work, kind: CommandKind, names: seq<bytes>, cb: Callback)
    ensures var v := Enlist(w, kind, names, cb);
            && v.output == w.output && (kind.Unsubscribe? ==> v == w)
            && (v.subscribed <==> w.subscribed || kind.Subscribe?) && (v.monitoring <==> w.monitoring || kind.Monitor?)
            && (kind.Subscribe? ==>
                  var t, u := Table(v.subs, kind.pattern), Table(w.subs, kind.pattern);
                  && (forall name :: name in t <==> name in u || name in names)
                  && (forall name :: name in t ==> t[name] == if name in names then cb else u[name])
                  && Table(v.subs, !kind.pattern) == Table(w.subs, !kind.pattern))
            && (!kind.Subscribe? ==> v.subs == w.subs)
            && (kind.Monitor? || (kind.Regular? && !w.subscribed) ==>
                  v.replies == Push(w.replies, cb) && v.invalid == w.invalid)
            && (kind.Regular? && w.subscribed ==> v.invalid == Push(w.invalid, cb) && v.replies == w.replies)
            && (kind.Subscribe? ==> v.replies == w.replies && v.invalid == w.invalid)
  {
    if kind.Subscribe? {
      RegisterMeans(Table(w.subs, kind.pattern), names, cb);
    }
  }

  /**
   A command is refused exactly after a disconnect or the end was asked for, and an unsubscription
   also outside subscriptions. All others, of every kind, join the output, from inside callbacks
   as from outside.
   */
  lemma CommandMeans(env: Env, s: State, cmd: Command, cb: Callback)
    ensures var t := Act(s, Issue(cmd, cb)); var o := s.work.output;
            var refused := s.wishes.disconnecting || s.wishes.freeing || (cmd.kind.Unsubscribe? && !s.work.subscribed);
            && (!s.inCallback ==> Handle(env, s, Call(cmd, cb)) == t)
            && if refused then t == s
               else && t.work.output == Output(o.appended + [cmd.wire], o.sent, o.obuf + cmd.wire)
                    && t == s.(work := Enlist(s.work, cmd.kind, cmd.names, cb).(output := t.work.output))
  {
    EnlistMeans(s.work, cmd.kind, cmd.names, cb);
  }

  /** What user code does takes effect in its order. */
  lemma {:induction false} ActsInOrder(s: State, a: seq<Action>, b: seq<Action>)
    ensures Acts(s, []) == s && Acts(s, a + b) == Acts(Acts(s, a), b)
    ensures forall x :: Acts(s, [x]) == Act(s, x)
    decreases |b|
  {
    forall x ensures Acts(s, [x]) == Act(s, x) {
      assert [x][..0] == [];
    }
    if b == [] {
      assert a + b == a;
    } else {
      assert (a + b)[..|a + b| - 1] == a + b[..|b| - 1];
      ActsInOrder(s, a, b[..|b| - 1]);
    }
  }

  lemma RouteRefuses(w: Work, reply: Reply, last: Callback)
    requires RouteReply(w, reply, last).To?
    ensures var v := RouteReply(w, reply, last).work;
            v.output == w.output && v.accepted == w.accepted && v.invalid.pushed == w.invalid.pushed
  {
  }

  lemma RefusedDelivery(s: State)
    requires s.wishes.disconnecting || s.wishes.freeing
    ensures var t := Deliver(s);
            && t.wishes == s.wishes && t.work.output == s.work.output && t.work.accepted == s.work.accepted
            && t.work.invalid.pushed == s.work.invalid.pushed
  {
    if ParseReply(s.input.unread, 0).Done? && NextRoute(s).To? {
      RouteRefuses(s.work, ParseReply(s.input.unread, 0).reply, s.input.last);
    }
  }

  lemma RefusedElse(s: State, p: Step)
    requires (s.wishes.disconnecting || s.wishes.freeing) && !p.Delivering?
    ensures var t := Take(s, p);
            && (s.wishes.disconnecting ==> t.wishes.disconnecting) && (s.wishes.freeing ==> t.wishes.freeing)
            && t.work.output.appended == s.work.output.appended && t.work.accepted == s.work.accepted
            && t.work.invalid.pushed == s.work.invalid.pushed
  {
  }

  lemma RefusedHere(s: State, p: Step)
    requires s.wishes.disconnecting || s.wishes.freeing
    ensures var t := Take(s, p);
            && (s.wishes.disconnecting ==> t.wishes.disconnecting) && (s.wishes.freeing ==> t.wishes.freeing)
            && t.work.output.appended == s.work.output.appended && t.work.accepted == s.work.accepted
            && t.work.invalid.pushed == s.work.invalid.pushed
  {
    if p.Delivering? {
      RefusedDelivery(s);
    } else {
      RefusedElse(s, p);
    }
  }

  /** Once a disconnect or the end was asked for, no later command of the run is accepted. */
  lemma {:induction false} RefusedForever(s: State, ps: seq<Step>)
    requires s.wishes.disconnecting || s.wishes.freeing
    ensures var t := TakeAll(s, ps);
            && (s.wishes.disconnecting ==> t.wishes.disconnecting) && (s.wishes.freeing ==> t.wishes.freeing)
            && t.work.output.appended == s.work.output.appended && t.work.accepted == s.work.accepted
            && t.work.invalid.pushed == s.work.invalid.pushed
    decreases |ps|
  {
    if ps != [] {
      RefusedForever(s, ps[..|ps| - 1]);
      RefusedHere(TakeAll(s, ps[..|ps| - 1]), ps[|ps| - 1]);
    }
  }

  // ----- Output -----

  function Min(a: nat, b: nat): nat {
    if a < b then a else b
  }

  /** As many bytes leave the front of the buffer as were reported written, and no others. */
  lemma WrittenMeans(o: Output, n: nat)
    ensures var k := Min(n, |o.obuf|);
            Written(o, n) == Output(o.appended, o.sent + o.obuf[..k], o.obuf[k..])
  {
    assert o.obuf[..|o.obuf|] == o.obuf;
  }

  lemma {:induction false} ActsSend(s: State, acts: seq<Action>)
    ensures Acts(s, acts).work.output.sent == s.work.output.sent
    decreases |acts|
  {
    if acts != [] {
      ActsSend(s, acts[..|acts| - 1]);
    }
  }

  lemma CallbackSends(env: Env, s: State, cb: Callback, reply: Option<Reply>)
    ensures RunCallback(env, s, cb, reply).work.output.sent == s.work.output.sent
  {
    if cb.fn.Some? {
      ActsSend(Enter(s, cb, reply), ActsOf(env, |s.runs|));
    }
  }

  /** Nothing is sent and nothing is received. */
  ghost predicate Still(s: State, t: State) {
    t.work.output.sent == s.work.output.sent && t.input.received == s.input.received
  }

  lemma TeardownStill(env: Env, s: State)
    requires Quiet(s)
    ensures Still(s, Teardown(env, s))
  {
    if Orderly(env, s.work.subs) {
      TeardownRuns(env, s);
    }
  }

  lemma FailStill(env: Env, s: State)
    requires !s.inCallback
    ensures Still(s, Fail(env, s))
  {
    TeardownStill(env, s.(life := s.life.(err := true), wishes := s.wishes.(disconnecting := true)));
  }

  lemma {:induction false} ProcessStill(env: Env, s: State)
    requires !s.inCallback
    ensures Still(s, Process(env, s))
    decreases |s.input.unread|
  {
    match ParseReply(s.input.unread, 0) {
      case Bad(_) => FailStill(env, s);
      case More =>
        if s.wishes.disconnecting && s.work.output.obuf == [] {
          DisconnectStill(env, s);
        }
      case Done(reply, rest) =>
        match NextRoute(s) {
          case Broken(why) =>
          case Nowhere => FailStill(env, s.(input := Receive(s.input, reply, rest, s.input.last)));
          case To(w, cb) =>
            var u := s.(work := w, input := Receive(s.input, reply, rest, cb));
            RouteRefuses(s.work, reply, s.input.last);
            CallbackKeeps(env, u, cb, Some(reply));
            CallbackSends(env, u, cb, Some(reply));
            var t := RunCallback(env, u, cb, Some(reply));
            if cb.fn.Some? && t.wishes.freeing {
              TeardownStill(env, t);
            } else {
              ProcessStill(env, t);
            }
        }
    }
  }

  lemma DisconnectStill(env: Env, s: State)
    requires !s.inCallback && (s.life.err || Refusing(s.wishes))
    ensures Still(s, DisconnectNow(env, s))
  {
    if s.life.err {
      TeardownStill(env, s.(wishes := s.wishes.(disconnecting := true)));
    } else if s.work.replies.waiting == [] {
      TeardownStill(env, s);
    }
  }

  /** How many bytes of the buffer the event reports to be written. */
  function Reported(s: State, e: Event): nat {
    match e
    case Writable(socket, Wrote(n)) =>
      if (s.life.connected || socket.Ready?) && !s.life.err then Min(n, |s.work.output.obuf|) else 0
    case Completed(n) => if n > 0 then Min(n, |s.work.output.obuf|) else 0
    case _ => 0
  }

  function ReportedAll(env: Env, events: seq<Event>): nat
    decreases |events|
  {
    if events == [] then 0
    else
      var s := Session(env, events[..|events| - 1]);
      ReportedAll(env, events[..|events| - 1]) + if Over(s.life) then 0 else Reported(s, events[|events| - 1])
  }

  lemma ConnectStill(env: Env, s: State, socket: Socket)
    requires Idle(s)
    ensures var t := Connect(env, s, socket);
            && Still(s, t) && (!Over(t.life) ==> t == s.(life := t.life))
            && (!Over(t.life) && t.life.connected ==>
                  (s.life.connected || socket.Ready?) && t.life == s.life.(connected := true))
            && (Over(t.life) || !t.life.connected ==> !s.life.connected && !socket.Ready?)
  {
    if socket.Unreachable? {
      FailStill(env, s);
    }
  }

  /** An event sends what it reports. */
  lemma HandleSends(env: Env, s: State, e: Event)
    requires Idle(s)
    ensures |Handle(env, s, e).work.output.sent| == |s.work.output.sent| + Reported(s, e)
  {
    match e {
      case Call(_, _) =>
      case Disconnect =>
        if s.work.replies.waiting == [] {
          DisconnectStill(env, s.(wishes := s.wishes.(disconnecting := true)));
        }
      case Free => TeardownStill(env, s.(wishes := s.wishes.(freeing := true)));
      case Readable(socket, arrival) => ReadSends(env, s, socket, arrival);
      case Writable(socket, departure) => WriteSends(env, s, socket, departure);
      case Preparing(socket) => ConnectStill(env, s, socket);
      case Completed(n) =>
        if n > 0 {
          WrittenMeans(s.work.output, n);
        }
    }
  }

  lemma ReadSends(env: Env, s: State, socket: Socket, arrival: Arrival)
    requires Idle(s)
    ensures Handle(env, s, Readable(socket, arrival)).work.output.sent == s.work.output.sent
  {
    ConnectStill(env, s, socket);
    var t := Connect(env, s, socket);
    if !Over(t.life) && t.life.connected {
      if ReadFails(t.life.err, arrival) {
        FailStill(env, t);
      } else {
        ProcessStill(env, t.(input := Feed(t.input, Given(arrival))));
      }
    }
  }

  lemma WriteSends(env: Env, s: State, socket: Socket, departure: Departure)
    requires Idle(s)
    ensures var e := Writable(socket, departure);
            |Handle(env, s, e).work.output.sent| == |s.work.output.sent| + Reported(s, e)
  {
    ConnectStill(env, s, socket);
    var t := Connect(env, s, socket);
    if !Over(t.life) && t.life.connected {
      if t.life.err || (t.work.output.obuf != [] && departure.WriteError?) {
        FailStill(env, t);
      } else if departure.Wrote? {
        WrittenMeans(t.work.output, departure.n);
      }
    }
  }

  lemma {:induction false} SentCount(env: Env, events: seq<Event>)
    ensures |Session(env, events).work.output.sent| == ReportedAll(env, events)
    decreases |events|
  {
    if events != [] {
      var before := events[..|events| - 1];
      SentCount(env, before);
      if !Over(Session(env, before).life) {
        HandleSends(env, Session(env, before), events[|events| - 1]);
      }
    }
  }

  /**
   Over every run: as many bytes count as sent as were reported written, and they are the first
   bytes of the commands accepted; the buffer holds the others.
   */
  lemma SentIsReported(env: Env, events: seq<Event>)
    ensures var o, n := Session(env, events).work.output, ReportedAll(env, events);
            n <= |Concat(o.appended)| && o.sent == Concat(o.appended)[..n] && o.obuf == Concat(o.appended)[n..]
  {
    SentCount(env, events);
    SessionKeeps(env, events);
    var o := Session(env, events).work.output;
    assert (o.sent + o.obuf)[..|o.sent|] == o.sent && (o.sent + o.obuf)[|o.sent|..] == o.obuf;
  }

  // ----- Connecting, reading and writing -----

  /** The connection is given up: everything pending is invoked with NULL, and nothing is read or written. */
  ghost predicate GivesUp(env: Env, s: State, t: State)
    requires Orderly(env, s.work.subs)
  {
    && t.life.err && t.life.failed.None? && !t.life.impossible
    && t.life.teardowns == s.life.teardowns + 1 && t.life.frees == s.life.frees + 1
    && t.runs == s.runs + Pending(env, s.work) && t.input == s.input && t.work.output == s.work.output
  }

  lemma FailGivesUp(env: Env, s: State)
    requires Idle(s) && Orderly(env, s.work.subs)
    ensures GivesUp(env, s, Fail(env, s))
  {
    FailRuns(env, s);
  }

  /**
   Before the socket is connected, every event on it asks for its state first: an error gives the
   connection up, and while it is still connecting the error of the check is all that is kept.
   */
  lemma UnconnectedMeans(env: Env, s: State, e: Event)
    requires Idle(s) && Orderly(env, s.work.subs) && !s.life.connected && (e.Readable? || e.Writable? || e.Preparing?)
    ensures var t := Handle(env, s, e);
            && (e.socket.Unreachable? ==> GivesUp(env, s, t))
            && (e.socket.InProgress? ==> t == s.(life := s.life.(err := true)))
            && (e.socket.Ready? ==> t == Handle(env, s.(life := s.life.(connected := true)), e))
  {
    if e.socket.Unreachable? {
      FailGivesUp(env, s);
    }
  }

  /**
   A connection that has something to read ends exactly if there was an error before, read()
   fails, or the stream has ended; else the bytes that came, and no others, join the input.
   */
  lemma ReadableMeans(env: Env, s: State, socket: Socket, arrival: Arrival)
    requires Idle(s) && Orderly(env, s.work.subs) && s.life.connected
    ensures var t := Handle(env, s, Readable(socket, arrival));
            if s.life.err || arrival == ReadError || arrival == Arrived([]) then GivesUp(env, s, t)
            else t.input.received == s.input.received + (if arrival.Arrived? then arrival.chunk else [])
  {
    if s.life.err || arrival == ReadError || arrival == Arrived([]) {
      FailGivesUp(env, s);
    } else {
      ProcessStill(env, s.(input := Feed(s.input, Given(arrival))));
    }
  }

  /**
   A connection that can be written to ends exactly if there was an error before, or there was
   something to write and write() fails; else the bytes written leave the buffer.
   */
  lemma WritableMeans(env: Env, s: State, socket: Socket, departure: Departure)
    requires Idle(s) && Orderly(env, s.work.subs) && s.life.connected
    ensures var t, o := Handle(env, s, Writable(socket, departure)), s.work.output;
            if s.life.err || (o.obuf != [] && departure == WriteError) then GivesUp(env, s, t)
            else
              var n := if departure.Wrote? then Min(departure.n, |o.obuf|) else 0;
              t == s.(work := s.work.(output := Output(o.appended, o.sent + o.obuf[..n], o.obuf[n..])))
  {
    var o := s.work.output;
    if s.life.err || (o.obuf != [] && departure == WriteError) {
      FailGivesUp(env, s);
    } else if departure.Wrote? {
      WrittenMeans(o, departure.n);
    } else {
      assert o.sent + o.obuf[..0] == o.sent;
    }
  }

  /**
   A protocol error behind the replies at hand, of which all were delivered, and an error reply
   that nothing waits for in the list of replies, give the connection up.
   */
  lemma BrokenStreamMeans(env: Env, s: State)
    requires Healthy(s) && !Rest(env, s).wishes.freeing && Orderly(env, Rest(env, s).work.subs)
    requires var u := Rest(env, s); var p := ParseReply(u.input.unread, 0);
             p.Bad? || (p.Done? && p.reply.Error?)
    ensures var t, u := Process(env, s), Rest(env, s);
            && t.life.err && t.life.failed.None? && t.life.frees == s.life.frees + 1
            && t.runs == u.runs + Pending(env, u.work) && t.work.output == u.work.output
  {
    var log := RestDelivers(env, s);
    RestEnds(env, s);
    var u := Rest(env, s);
    match ParseReply(u.input.unread, 0) {
      case Bad(_) => FailGivesUp(env, u);
      case Done(reply, rest) => FailGivesUp(env, u.(input := Receive(u.input, reply, rest, u.input.last)));
    }
  }

  /** A write that completes elsewhere looks at no error. */
  lemma CompletedMeans(env: Env, s: State, written: int)
    requires Idle(s)
    ensures var o := s.work.output;
            var n := if written > 0 then Min(written, |o.obuf|) else 0;
            Handle(env, s, Completed(written))
            == s.(work := s.work.(output := Output(o.appended, o.sent + o.obuf[..n], o.obuf[n..])))
  {
    var o := s.work.output;
    if written > 0 {
      WrittenMeans(o, written);
    } else {
      assert o.sent + o.obuf[..0] == o.sent;
    }
  }

  /** Outside callbacks the context is freed at once, whatever is pending, without sending or reading anything. */
  lemma FreeMeans(env: Env, s: State)
    requires Idle(s) && Orderly(env, s.work.subs)
    ensures var t := Handle(env, s, Free);
            && t.life == s.life.(teardowns := s.life.teardowns + 1, frees := s.life.frees + 1)
            && t.runs == s.runs + Pending(env, s.work) && t.input == s.input && t.work.output == s.work.output
  {
    TeardownRuns(env, s.(wishes := s.wishes.(freeing := true)));
  }

  // ----- Requests from callbacks -----

  /** From inside a callback both requests are only noted down, and are not forgotten. */
  lemma RequestMeans(s: State)
    ensures Act(s, RequestDisconnect) == s.(wishes := Wishes(true, s.wishes.freeing))
    ensures Act(s, RequestFree) == s.(wishes := Wishes(s.wishes.disconnecting, true))
  {
  }

  /**
   A context with one command outstanding, all of it written, and a callback that asks for a
   disconnect: when the reply comes, with nothing behind it, the context is released without an
   error, and only what is pending besides is invoked with NULL.
   */
  lemma LastReplyDisconnects(env: Env, s: State, cb: Callback)
    requires Healthy(s) && ReadStream(s.input.unread).error.None? && |ReadStream(s.input.unread).replies| == 1
    requires s.work.replies.waiting == [cb] && cb.fn.Some? && s.work.output.obuf == []
    requires ActsOf(env, |s.runs|) == [RequestDisconnect] && Orderly(env, s.work.subs)
    ensures var reply, t := ReadStream(s.input.unread).replies[0], Process(env, s);
            var w := ShiftLane(s.work, Replies, Some(reply));
            && t.life == s.life.(teardowns := 1, frees := s.life.frees + 1)
            && t.runs == s.runs + [Run(cb, Some(reply))] + Pending(env, w)
  {
    var p := ParseReply(s.input.unread, 0);
    assert ReadStream(s.input.unread).replies[1..] == ReadStream(p.rest).replies == [];
    DeliveredKeeps(env, s);
    var t := Delivered(env, s);
    assert t.work == NextRoute(s).work by {
      OneRequest(env, s);
    }
    assert ParseReply(t.input.unread, 0).More?;
    TeardownRuns(env, t);
  }

  lemma OneRequest(env: Env, s: State)
    requires ActsOf(env, |s.runs|) == [RequestDisconnect]
    requires ParseReply(s.input.unread, 0).Done? && NextRoute(s).To?
    ensures Delivered(env, s).work == NextRoute(s).work
  {
    var p, r := ParseReply(s.input.unread, 0), NextRoute(s);
    var u := s.(work := r.work, input := Receive(s.input, p.reply, p.rest, r.cb));
    var acts := [RequestDisconnect];
    assert acts[..0] == [];
    assert Acts(Enter(u, r.cb, Some(p.reply)), acts) == Act(Enter(u, r.cb, Some(p.reply)), RequestDisconnect);
  }

  // ----- Messages -----

  /** A pattern's word starts with a p, and what ends a subscription are unsubscribe and punsubscribe, up to a NUL. */
  lemma UnsubscribeMeans(text: bytes, behind: bytes)
    requires 0 !in text && (behind == [] || behind[0] == 0)
    ensures IsPattern(text + behind) <==> text != [] && (text[0] == 80 || text[0] == 112)
    ensures IsUnsubscribe(text + behind) <==>
              || SameLetters(text, [117, 110, 115, 117, 98, 115, 99, 114, 105, 98, 101])
              || SameLetters(text, [112, 117, 110, 115, 117, 98, 115, 99, 114, 105, 98, 101])
  {
    var s := text + behind;
    var w: bytes := [117, 110, 115, 117, 98, 115, 99, 114, 105, 98, 101];
    var pw: bytes := [112, 117, 110, 115, 117, 98, 115, 99, 114, 105, 98, 101];
    assert pw == [112] + w && UNSUBSCRIBE == w;
    if text == [] {
      assert s == behind;
      CStringIs(text, behind);
    } else {
      assert s[0] == text[0];
      if IsPattern(s) {
        assert s[1..] == text[1..] + behind;
        CStringIs(text[1..], behind);
        LowerMeans(text[1..], w);
        PrefixedLetters(text, w);
      } else {
        CStringIs(text, behind);
        LowerMeans(text, w);
      }
    }
  }

  lemma PrefixedLetters(text: bytes, w: bytes)
    requires text != [] && (text[0] == 80 || text[0] == 112) && w != [] && w[0] == 117
    ensures SameLetters(text, [112] + w) <==> SameLetters(text[1..], w)
    ensures !SameLetters(text, w)
  {
    var pw := [112] + w;
    assert forall i :: 0 <= i < |w| ==> pw[i + 1] == w[i];
    assert pw[0] == 112;
    if |text| == |pw| {
      assert forall i :: 0 <= i < |w| ==> text[1..][i] == text[i + 1];
      if SameLetters(text[1..], w) {
        forall i | 0 <= i < |text| ensures text[i] == pw[i] || text[i] as int + 32 == pw[i] as int {
          assert i > 0 ==> text[1..][i - 1] == text[i] && w[i - 1] == pw[i];
        }
      }
    }
  }

  /**
   A reply that nobody waits for invokes nothing if it is the first of a read: the callback of
   the reply before is only remembered within a read.
   */
  lemma UnclaimedFirst(env: Env, s: State, chunk: bytes)
    requires Healthy(s) && s.life.connected && !s.wishes.disconnecting && chunk != []
    requires var r := ReadStream(s.input.unread + chunk);
             r.error.None? && |r.replies| == 1 && Unclaimed(s.work, r.replies[0])
    ensures var t := Handle(env, s, Readable(Ready, Arrived(chunk))); !Over(t.life) && t.runs == s.runs
  {
    var u := s.(input := Feed(s.input, chunk));
    var p := ParseReply(u.input.unread, 0);
    assert ReadStream(u.input.unread).replies[1..] == ReadStream(p.rest).replies == [];
    assert NextRoute(u) == To(s.work, NO_CALLBACK);
    DeliveredKeeps(env, u);
    assert ParseReply(p.rest, 0).More?;
  }

  // ----- Monitor mode -----

  /** The replies, each given to the callback. */
  function AllTo(cb: Callback, replies: seq<Reply>): (r: seq<Run>)
    ensures |r| == |replies| && forall i :: 0 <= i < |r| ==> r[i] == Run(cb, Some(replies[i]))
  {
    seq(|replies|, i requires 0 <= i < |replies| => Run(cb, Some(replies[i])))
  }

  /** Nothing but a monitor command is outstanding, and callbacks do nothing. */
  ghost predicate Watching(env: Env, s: State) {
    && Healthy(s) && !s.wishes.disconnecting && s.work.monitoring && !s.work.subscribed
    && |env.acts| <= |s.runs|
  }

  lemma IdleDelivery(env: Env, s: State)
    requires Watching(env, s) && ParseReply(s.input.unread, 0).Done? && NextRoute(s).To?
    ensures var t, p, r := Delivered(env, s), ParseReply(s.input.unread, 0), NextRoute(s);
            && t == s.(work := r.work, input := Receive(s.input, p.reply, p.rest, r.cb),
                       runs := s.runs + Invocation(r.cb, Some(p.reply)))
            && Process(env, s) == Process(env, t)
  {
    DeliveredKeeps(env, s);
  }

  /** What a read brings: replies, errors aside, and perhaps a part of one. */
  ghost predicate Brings(s: State, replies: seq<Reply>, left: bytes) {
    ReadStream(s.input.unread) == Stream(replies, left, None) && forall i :: 0 <= i < |replies| ==> !replies[i].Error?
  }

  lemma BringsNext(s: State, replies: seq<Reply>, left: bytes)
    requires Brings(s, replies, left)
    ensures var p := ParseReply(s.input.unread, 0);
            && (replies == [] ==> p.More? && left == s.input.unread)
            && (replies != [] ==> p.Done? && p.reply == replies[0] && !p.reply.Error?
                                  && ReadStream(p.rest) == Stream(replies[1..], left, None))
  {
    var p := ParseReply(s.input.unread, 0);
    assert p.Done? ==> replies[1..] == ReadStream(p.rest).replies;
  }

  lemma WatchedOne(env: Env, s: State, cb: Callback, replies: seq<Reply>, left: bytes)
    requires Watching(env, s) && s.work.replies.waiting == [] && s.input.last == cb
    requires replies != [] && Brings(s, replies, left) && ParseReply(s.input.unread, 0).Done? && NextRoute(s).To?
    ensures var t := Delivered(env, s);
            && Watching(env, t) && Brings(t, replies[1..], left) && t.work == s.work && t.input.last == cb
            && t.life == s.life && t.wishes == s.wishes && t.runs == s.runs + Invocation(cb, Some(replies[0]))
            && Process(env, s) == Process(env, t) && |t.input.unread| < |s.input.unread|
  {
    BringsNext(s, replies, left);
    IdleDelivery(env, s);
  }

  lemma AllToNext(cb: Callback, replies: seq<Reply>, runs: seq<Run>)
    requires replies != []
    ensures runs + Invoked(AllTo(cb, replies)) ==
            (runs + Invocation(cb, Some(replies[0]))) + Invoked(AllTo(cb, replies[1..]))
  {
    assert AllTo(cb, replies)[1..] == AllTo(cb, replies[1..]);
    Assoc(runs, Invocation(cb, Some(replies[0])), Invoked(AllTo(cb, replies[1..])));
  }

  /** The rest of a read, after its first reply was taken to cb. */
  lemma {:induction false} WatchedRest(env: Env, s: State, cb: Callback, replies: seq<Reply>, left: bytes)
    requires Watching(env, s) && s.work.replies.waiting == [] && s.input.last == cb && Brings(s, replies, left)
    ensures var t := Process(env, s);
            && t.life == s.life && t.wishes == s.wishes && t.work == s.work.(replies := Push(s.work.replies, cb))
            && t.input.unread == left && t.runs == s.runs + Invoked(AllTo(cb, replies))
    decreases |s.input.unread|
  {
    BringsNext(s, replies, left);
    if replies == [] {
      assert s.runs + [] == s.runs;
    } else {
      WatchedOne(env, s, cb, replies, left);
      WatchedRest(env, Delivered(env, s), cb, replies[1..], left);
      AllToNext(cb, replies, s.runs);
    }
  }

  lemma WatchedFirst(env: Env, s: State, cb: Callback, replies: seq<Reply>, left: bytes)
    requires Watching(env, s) && s.work.replies.waiting == [cb] && replies != [] && Brings(s, replies, left)
    ensures var t := Delivered(env, s);
            && Watching(env, t) && Brings(t, replies[1..], left) && t.input.last == cb && t.life == s.life
            && t.work == ShiftLane(s.work, Replies, Some(replies[0])) && t.wishes == s.wishes
            && t.runs == s.runs + Invocation(cb, Some(replies[0])) && Process(env, s) == Process(env, t)
  {
    BringsNext(s, replies, left);
    IdleDelivery(env, s);
  }

  /**
   In monitor mode, when a read brings replies, the callback waiting is given all of them and is
   waiting again afterwards, as is the purpose of the mode.
   */
  lemma MonitorRead(env: Env, s: State, cb: Callback, replies: seq<Reply>, left: bytes)
    requires Watching(env, s) && s.work.replies.waiting == [cb] && replies != [] && Brings(s, replies, left)
    ensures var t := Process(env, s);
            && t.life == s.life && t.wishes == s.wishes && t.input.unread == left
            && t.work.replies.waiting == [cb] && t.runs == s.runs + Invoked(AllTo(cb, replies))
  {
    WatchedFirst(env, s, cb, replies, left);
    WatchedRest(env, Delivered(env, s), cb, replies[1..], left);
    AllToNext(cb, replies, s.runs);
  }

  /** A read that brings no reply puts an empty callback into the list, whatever waits there. */
  lemma MonitorEmptyRead(env: Env, s: State, arrival: Arrival)
    requires Idle(s) && s.life.connected && !s.life.err && !s.wishes.disconnecting && s.work.monitoring
    requires arrival != ReadError && arrival != Arrived([]) && ParseReply(s.input.unread + Given(arrival), 0).More?
    ensures var t := Handle(env, s, Readable(Ready, arrival));
            && !Over(t.life) && t.runs == s.runs
            && t.work == s.work.(replies := Push(s.work.replies, NO_CALLBACK))
  {
  }
}
