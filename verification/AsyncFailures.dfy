/** Which assertions of the asynchronous API fail, exactly when, and what a disconnect cuts off. */
module AsyncFailures {
  import opened Bytes
  import opened Resp
  import opened Callbacks
  import opened Async
  import opened AsyncRuns
  import opened AsyncPromises
  import opened AsyncTheorems

  // ----- How a read ends -----

  lemma TeardownLife(env: Env, s: State)
    requires Quiet(s)
    ensures var l := s.life;
            Teardown(env, s).life == if Orderly(env, s.work.subs)
                                     then l.(teardowns := l.teardowns + 1, frees := l.frees + 1)
                                     else l.(impossible := true)
  {
    if Orderly(env, s.work.subs) {
      PendingRuns(env, s.(life := s.life.(teardowns := s.life.teardowns + 1)));
    }
  }

  /** A read that is settled: exactly the assertions it violates have failed, and else nothing is left to read. */
  ghost predicate Settled(t: State) {
    && (t.life.impossible || forall why :: t.life.failed == Some(why) <==> Violates(t, why))
    && (Over(t.life) || ParseReply(t.input.unread, 0).More?)
  }

  lemma TeardownSettles(env: Env, s: State)
    requires Quiet(s) && s.life.failed.None?
    ensures Settled(Teardown(env, s))
  {
    TeardownLife(env, s);
  }

  lemma FailSettles(env: Env, s: State)
    requires Idle(s)
    ensures Settled(Fail(env, s))
  {
    TeardownSettles(env, s.(life := s.life.(err := true), wishes := s.wishes.(disconnecting := true)));
  }

  /**
   In every mode and whatever callbacks do: a read ends with a failed assertion exactly when
   the state in which it ends violates it, and if none fails it ends when nothing is left.
   */
  lemma {:induction false} ReadEnds(env: Env, s: State)
    requires Idle(s) && !s.life.err
    ensures Settled(Process(env, s))
    decreases |s.input.unread|
  {
    match ParseReply(s.input.unread, 0) {
      case Bad(_) => FailSettles(env, s);
      case More =>
        if s.wishes.disconnecting && s.work.output.obuf == [] && s.work.replies.waiting == [] {
          TeardownSettles(env, s);
        }
      case Done(reply, rest) =>
        match NextRoute(s) {
          case Broken(why) =>
          case Nowhere => FailSettles(env, s.(input := Receive(s.input, reply, rest, s.input.last)));
          case To(w, cb) =>
            var u := s.(work := w, input := Receive(s.input, reply, rest, cb));
            CallbackKeeps(env, u, cb, Some(reply));
            var t := RunCallback(env, u, cb, Some(reply));
            if cb.fn.Some? && t.wishes.freeing {
              TeardownSettles(env, t);
            } else {
              ReadEnds(env, t);
            }
        }
    }
  }

  // ----- The assertion of clean disconnects -----

  /** How many of the callbacks have a function. */
  function Calls(cbs: seq<Callback>): nat {
    if cbs == [] then 0 else (if cbs[0].fn.Some? then 1 else 0) + Calls(cbs[1..])
  }

  /** One of the k invocations from the n-th on asks for the context to be freed. */
  ghost predicate FreesAmong(env: Env, n: nat, k: int) {
    exists i: nat :: n <= i < n + k && RequestFree in ActsOf(env, i)
  }

  lemma InPrefixOrLast(acts: seq<Action>, a: Action)
    requires acts != []
    ensures a in acts <==> a in acts[..|acts| - 1] || a == acts[|acts| - 1]
  {
  }

  lemma {:induction false} ActsFree(s: State, acts: seq<Action>)
    ensures Acts(s, acts).wishes.freeing <==> s.wishes.freeing || RequestFree in acts
    decreases |acts|
  {
    if acts != [] {
      ActsFree(s, acts[..|acts| - 1]);
      InPrefixOrLast(acts, RequestFree);
    }
  }

  lemma {:induction false} ActsDisconnect(s: State, acts: seq<Action>)
    ensures Acts(s, acts).wishes.disconnecting <==> s.wishes.disconnecting || RequestDisconnect in acts
    decreases |acts|
  {
    if acts != [] {
      ActsDisconnect(s, acts[..|acts| - 1]);
      InPrefixOrLast(acts, RequestDisconnect);
    }
  }

  /** Both requests are remembered exactly when they were made, now or before. */
  lemma CallbackRequests(env: Env, s: State, cb: Callback, reply: Option<Reply>)
    ensures var t, acts := RunCallback(env, s, cb, reply), if cb.fn.Some? then ActsOf(env, |s.runs|) else [];
            && (t.wishes.freeing <==> s.wishes.freeing || RequestFree in acts)
            && (t.wishes.disconnecting <==> s.wishes.disconnecting || RequestDisconnect in acts)
  {
    if cb.fn.Some? {
      ActsFree(Enter(s, cb, reply), ActsOf(env, |s.runs|));
      ActsDisconnect(Enter(s, cb, reply), ActsOf(env, |s.runs|));
    }
  }

  /** Whatever commands do, they only join the end of the list of replies. */
  lemma {:induction false} ActsPush(s: State, acts: seq<Action>)
    ensures s.work.replies.waiting <= Acts(s, acts).work.replies.waiting
    decreases |acts|
  {
    if acts != [] {
      ActsPush(s, acts[..|acts| - 1]);
    }
  }

  /** Replies are processed, and nothing asked for the context to be freed. */
  ghost predicate Healthy(s: State) {
    Idle(s) && !s.life.err && !s.wishes.freeing
  }

  /** A disconnect was asked for. */
  ghost predicate Disconnecting(s: State) {
    Idle(s) && !s.life.err && s.wishes == Wishes(true, false)
  }

  /**
   Everything is written, but the replies that can be read are too few for the callbacks
   waiting, without an error among them and without a callback that frees the context.
   */
  ghost predicate Missing(env: Env, s: State) {
    var r, waiting := ReadStream(s.input.unread), s.work.replies.waiting;
    && s.work.output.obuf == [] && |r.replies| < |waiting| && r.error.None?
    && !FreesAmong(env, |s.runs|, Calls(waiting[..|r.replies|]))
  }

  /** The state after the next reply was delivered. */
  function Delivered(env: Env, s: State): State
    requires ParseReply(s.input.unread, 0).Done? && NextRoute(s).To?
  {
    var p, r := ParseReply(s.input.unread, 0), NextRoute(s);
    RunCallback(env, s.(work := r.work, input := Receive(s.input, p.reply, p.rest, r.cb)), r.cb, Some(p.reply))
  }

  lemma DeliveredKeeps(env: Env, s: State)
    requires Healthy(s) && ParseReply(s.input.unread, 0).Done? && NextRoute(s).To?
    ensures var t, p, r := Delivered(env, s), ParseReply(s.input.unread, 0), NextRoute(s);
            var acts := if r.cb.fn.Some? then ActsOf(env, |s.runs|) else [];
            && Idle(t) && !t.life.err && t.life == s.life && t.input == Receive(s.input, p.reply, p.rest, r.cb)
            && t.runs == s.runs + Invocation(r.cb, Some(p.reply))
            && (t.wishes.freeing <==> RequestFree in acts)
            && (t.wishes.disconnecting <==> s.wishes.disconnecting || RequestDisconnect in acts)
            && (s.wishes.disconnecting ==> t.work == r.work)
            && Process(env, s) == (if t.wishes.freeing then Teardown(env, t) else Process(env, t))
  {
    var p, r := ParseReply(s.input.unread, 0), NextRoute(s);
    var u := s.(work := r.work, input := Receive(s.input, p.reply, p.rest, r.cb));
    CallbackKeeps(env, u, r.cb, Some(p.reply));
    CallbackRequests(env, u, r.cb, Some(p.reply));
  }

  lemma RouteShifts(w: Work, reply: Reply, last: Callback)
    requires RouteReply(w, reply, last).To?
    ensures var v, q := RouteReply(w, reply, last).work, w.replies.waiting;
            v.output == w.output && v.replies.waiting == if q == [] then [] else q[1..]
    ensures w.replies.waiting != [] ==> RouteReply(w, reply, last).cb == w.replies.waiting[0]
  {
  }

  lemma FreesNext(env: Env, n: nat, k: nat)
    ensures FreesAmong(env, n, k + 1) <==> RequestFree in ActsOf(env, n) || FreesAmong(env, n + 1, k)
  {
    if FreesAmong(env, n, k + 1) {
      var i: nat :| n <= i < n + (k + 1) && RequestFree in ActsOf(env, i);
      assert i == n || n + 1 <= i < n + 1 + k;
    }
  }

  /** What is missing before a reply is delivered is missing after it. */
  lemma MissingNext(env: Env, s: State)
    requires Disconnecting(s) && ParseReply(s.input.unread, 0).Done? && NextRoute(s).To?
    ensures var t, cb := Delivered(env, s), NextRoute(s).cb;
            if cb.fn.Some? && t.wishes.freeing then !Missing(env, s) else Missing(env, t) == Missing(env, s)
  {
    DeliveredKeeps(env, s);
    RouteShifts(s.work, ParseReply(s.input.unread, 0).reply, s.input.last);
    var t, waiting := Delivered(env, s), s.work.replies.waiting;
    StreamNext(s.input.unread);
    var k := |ReadStream(t.input.unread).replies|;
    if k + 1 < |waiting| {
      CallsFree(env, |s.runs|, waiting, k);
    }
  }

  lemma StreamNext(s: bytes)
    requires ParseReply(s, 0).Done?
    ensures var r, q := ReadStream(s), ReadStream(ParseReply(s, 0).rest);
            |r.replies| == |q.replies| + 1 && r.error == q.error
  {
  }

  /** The first of k + 1 callbacks frees the context, or one of the others. */
  lemma CallsFree(env: Env, n: nat, waiting: seq<Callback>, k: nat)
    requires k + 1 < |waiting|
    ensures var m := n + if waiting[0].fn.Some? then 1 else 0;
            FreesAmong(env, n, Calls(waiting[..k + 1])) <==>
              (waiting[0].fn.Some? && RequestFree in ActsOf(env, n))
              || FreesAmong(env, m, Calls(waiting[1..][..k]))
  {
    assert waiting[..k + 1][1..] == waiting[1..][..k];
    if waiting[0].fn.Some? {
      FreesNext(env, n, Calls(waiting[1..][..k]));
    }
  }

  /**
   After a disconnect was asked for, in every mode and whatever callbacks do: the assertion
   that nothing is pending fails exactly when everything is written and the replies at hand
   are too few. A disconnect is clean only if the outstanding replies have arrived together.
   */
  lemma {:induction false} CleanDisconnect(env: Env, s: State)
    requires Disconnecting(s)
    ensures Process(env, s).life.failed == Some(PendingAtDisconnect) <==> Missing(env, s)
    decreases |s.input.unread|
  {
    var p := ParseReply(s.input.unread, 0);
    if p.Done? && NextRoute(s).To? {
      DeliveredKeeps(env, s);
      MissingNext(env, s);
      var t := Delivered(env, s);
      if NextRoute(s).cb.fn.Some? && t.wishes.freeing {
        TeardownLife(env, t);
      } else {
        CleanDisconnect(env, t);
      }
    } else {
      DisconnectEnds(env, s);
    }
  }

  lemma DisconnectEnds(env: Env, s: State)
    requires Disconnecting(s)
    requires ParseReply(s.input.unread, 0).Done? ==> !NextRoute(s).To?
    ensures Process(env, s).life.failed == Some(PendingAtDisconnect) <==> Missing(env, s)
  {
    ReadEnds(env, s);
    match ParseReply(s.input.unread, 0) {
      case Bad(_) => FailRefused(env, s);
      case More =>
        assert s.work.replies.waiting[..0] == [];
        if s.work.replies.waiting == [] {
          TeardownLife(env, s);
        }
      case Done(reply, rest) =>
        FailRefused(env, s.(input := Receive(s.input, reply, rest, s.input.last)));
    }
  }

  lemma FailRefused(env: Env, s: State)
    requires Idle(s)
    ensures Fail(env, s).life.failed.None?
  {
    TeardownLife(env, s.(life := s.life.(err := true), wishes := s.wishes.(disconnecting := true)));
  }

  lemma SessionNext(env: Env, events: seq<Event>, e: Event)
    ensures var s := Session(env, events);
            Session(env, events + [e]) == if Over(s.life) then s else Handle(env, s, e)
  {
    assert (events + [e])[..|events|] == events;
  }

  /** The same for runs: what the next read makes of a disconnect that was asked for before. */
  lemma DisconnectThenRead(env: Env, events: seq<Event>, socket: Socket, arrival: Arrival)
    requires var s := Session(env, events);
             && !Over(s.life) && s.wishes.disconnecting
             && (s.life.connected || socket.Ready?) && !ReadFails(s.life.err, arrival)
    ensures var s := Session(env, events);
            Session(env, events + [Readable(socket, arrival)]).life.failed == Some(PendingAtDisconnect) <==>
            Missing(env, s.(input := Feed(s.input, Given(arrival))))
  {
    var s := Session(env, events);
    SessionNext(env, events, Readable(socket, arrival));
    var c := s.(life := s.life.(connected := true));
    assert Connect(env, s, socket) == c;
    CleanDisconnect(env, c.(input := Feed(s.input, Given(arrival))));
  }

  // ----- What a deferred disconnect cuts off -----

  /** The state after all deliveries of a read; one after which the context is freed is the last. */
  function Rest(env: Env, s: State): State
    requires Healthy(s)
    decreases |s.input.unread|
  {
    if ParseReply(s.input.unread, 0).Done? && NextRoute(s).To? then
      DeliveredKeeps(env, s);
      var t := Delivered(env, s);
      if t.wishes.freeing then t else Rest(env, t)
    else s
  }

  /** Each of the replies was taken to a callback, the first ones to those waiting, in order. */
  ghost predicate Matches(log: seq<Run>, replies: seq<Reply>, waiting: seq<Callback>) {
    && |log| == |replies|
    && (forall i :: 0 <= i < |log| ==> log[i].reply == Some(replies[i]))
    && (forall i :: 0 <= i < |log| && i < |waiting| ==> log[i].cb == waiting[i])
  }

  /**
   From s to u replies were read, each taken to its callback, the first ones to those waiting in
   the list of replies, in order; nothing else changed the runs.
   */
  ghost predicate Logged(s: State, log: seq<Run>, u: State) {
    && u.runs == s.runs + Invoked(log) && s.input.got <= u.input.got
    && Matches(log, u.input.got[|s.input.got|..], s.work.replies.waiting)
  }

  /**
   The list of replies after n of them: commands may have joined its end, but not after a
   disconnect was asked for, when the output stays as it is, too.
   */
  ghost predicate Shifted(s: State, n: nat, u: State) {
    var waiting := s.work.replies.waiting;
    var left := if n < |waiting| then waiting[n..] else [];
    && left <= u.work.replies.waiting
    && (s.wishes.disconnecting ==>
          u.wishes.disconnecting && u.work.output == s.work.output && u.work.replies.waiting == left)
  }

  ghost predicate Deliveries(s: State, log: seq<Run>, u: State) {
    u.life == s.life && Logged(s, log, u) && Shifted(s, |log|, u)
  }

  lemma DeliveryIsOne(env: Env, s: State)
    requires Healthy(s) && ParseReply(s.input.unread, 0).Done? && NextRoute(s).To?
    ensures Deliveries(s, [Run(NextRoute(s).cb, Some(ParseReply(s.input.unread, 0).reply))], Delivered(env, s))
  {
    var p, r := ParseReply(s.input.unread, 0), NextRoute(s);
    DeliveredKeeps(env, s);
    RouteShifts(s.work, p.reply, s.input.last);
    DeliveredPushes(env, s);
    InvokedNext([], Run(r.cb, Some(p.reply)));
    assert [] + [Run(r.cb, Some(p.reply))] == [Run(r.cb, Some(p.reply))];
  }

  lemma DeliveredPushes(env: Env, s: State)
    requires ParseReply(s.input.unread, 0).Done? && NextRoute(s).To?
    ensures NextRoute(s).work.replies.waiting <= Delivered(env, s).work.replies.waiting
  {
    var p, r := ParseReply(s.input.unread, 0), NextRoute(s);
    var u := s.(work := r.work, input := Receive(s.input, p.reply, p.rest, r.cb));
    if r.cb.fn.Some? {
      ActsPush(Enter(u, r.cb, Some(p.reply)), ActsOf(env, |s.runs|));
    }
  }

  lemma MatchesNext(r: Run, a: Reply, waiting: seq<Callback>, log: seq<Run>, rest: seq<Reply>, later: seq<Callback>)
    requires Matches([r], [a], waiting) && Matches(log, rest, later)
    requires (if |waiting| > 1 then waiting[1..] else []) <= later
    ensures Matches([r] + log, [a] + rest, waiting)
  {
    assert [r][0] == r && [a][0] == a;
    forall i | 0 < i < |waiting| && i <= |log| ensures log[i - 1].cb == waiting[i] {
      assert waiting[1..][i - 1] == waiting[i] == later[i - 1];
    }
  }

  lemma LoggedNext(s: State, r: Run, t: State, log: seq<Run>, u: State)
    requires Logged(s, [r], t) && Logged(t, log, u)
    requires (if |s.work.replies.waiting| > 1 then s.work.replies.waiting[1..] else []) <= t.work.replies.waiting
    ensures Logged(s, [r] + log, u)
  {
    var k := |s.input.got|;
    var a := t.input.got[k];
    assert t.input.got[k..] == [a];
    assert u.input.got[k..] == [a] + u.input.got[k + 1..];
    MatchesNext(r, a, s.work.replies.waiting, log, u.input.got[k + 1..], t.work.replies.waiting);
    RunsNext(s.runs, r, log);
  }

  lemma RunsNext(runs: seq<Run>, r: Run, log: seq<Run>)
    ensures runs + Invoked([r] + log) == (runs + Invoked([r])) + Invoked(log)
  {
    assert ([r] + log)[1..] == log && [r][1..] == [];
    assert Invoked([r]) == Invocation(r.cb, r.reply);
    Assoc(runs, Invocation(r.cb, r.reply), Invoked(log));
  }

  lemma ShiftedNext(s: State, t: State, n: nat, u: State)
    requires Shifted(s, 1, t) && Shifted(t, n, u)
    ensures Shifted(s, 1 + n, u)
  {
    var waiting := s.work.replies.waiting;
    if 1 + n < |waiting| {
      assert waiting[1..][n..] == waiting[1 + n..];
      assert waiting[1..] == t.work.replies.waiting[..|waiting| - 1];
    }
  }

  lemma DeliveriesNext(s: State, r: Run, t: State, log: seq<Run>, u: State)
    requires Deliveries(s, [r], t) && Deliveries(t, log, u)
    ensures Deliveries(s, [r] + log, u)
  {
    LoggedNext(s, r, t, log, u);
    ShiftedNext(s, t, |log|, u);
  }

  /** Up to Rest there are only deliveries, */
  lemma {:induction false} RestDelivers(env: Env, s: State) returns (log: seq<Run>)
    requires Healthy(s)
    ensures Deliveries(s, log, Rest(env, s))
    decreases |s.input.unread|
  {
    log := [];
    if ParseReply(s.input.unread, 0).Done? && NextRoute(s).To? {
      DeliveredKeeps(env, s);
      DeliveryIsOne(env, s);
      var t, r := Delivered(env, s), Run(NextRoute(s).cb, Some(ParseReply(s.input.unread, 0).reply));
      if t.wishes.freeing {
        log := [r];
      } else {
        var more := RestDelivers(env, t);
        DeliveriesNext(s, r, t, more, Rest(env, t));
        log := [r] + more;
      }
    } else {
      assert s.runs + [] == s.runs;
    }
  }

  /** ... and from there on none. */
  lemma {:induction false} RestEnds(env: Env, s: State)
    requires Healthy(s)
    ensures var u := Rest(env, s);
            && Idle(u) && !u.life.err
            && if u.wishes.freeing then Process(env, s) == Teardown(env, u)
               else Process(env, s) == Process(env, u) && !(ParseReply(u.input.unread, 0).Done? && NextRoute(u).To?)
    decreases |s.input.unread|
  {
    if ParseReply(s.input.unread, 0).Done? && NextRoute(s).To? {
      DeliveredKeeps(env, s);
      if !Delivered(env, s).wishes.freeing {
        RestEnds(env, Delivered(env, s));
      }
    }
  }

  /** One of the k invocations from the n-th on asks for a disconnect. */
  ghost predicate DisconnectsAmong(env: Env, n: nat, k: int) {
    exists i: nat :: n <= i < n + k && RequestDisconnect in ActsOf(env, i)
  }

  lemma AmongNext(env: Env, n: nat, k: nat, rest: nat)
    requires k <= 1
    ensures var first := if k == 1 then ActsOf(env, n) else [];
            && (FreesAmong(env, n, k + rest) <==> RequestFree in first || FreesAmong(env, n + k, rest))
            && (DisconnectsAmong(env, n, k + rest) <==>
                  RequestDisconnect in first || DisconnectsAmong(env, n + k, rest))
  {
    if k == 1 {
      FreesNext(env, n, rest);
      if DisconnectsAmong(env, n, 1 + rest) {
        var i: nat :| n <= i < n + (1 + rest) && RequestDisconnect in ActsOf(env, i);
        assert i == n || n + 1 <= i < n + 1 + rest;
      }
    }
  }

  /** Between two states a disconnect or the end was asked for exactly if one of the invocations did so. */
  ghost predicate Requested(env: Env, s: State, u: State) {
    var n := |u.runs| - |s.runs|;
    && n >= 0
    && (u.wishes.freeing <==> s.wishes.freeing || FreesAmong(env, |s.runs|, n))
    && (u.wishes.disconnecting <==> s.wishes.disconnecting || DisconnectsAmong(env, |s.runs|, n))
  }

  lemma DeliveryRequests(env: Env, s: State)
    requires Healthy(s) && ParseReply(s.input.unread, 0).Done? && NextRoute(s).To?
    ensures Requested(env, s, Delivered(env, s)) && |Delivered(env, s).runs| <= |s.runs| + 1
  {
    DeliveredKeeps(env, s);
    AmongNext(env, |s.runs|, if NextRoute(s).cb.fn.Some? then 1 else 0, 0);
  }

  lemma RequestedNext(env: Env, s: State, t: State, u: State)
    requires Requested(env, s, t) && Requested(env, t, u) && |t.runs| <= |s.runs| + 1
    ensures Requested(env, s, u)
  {
    AmongNext(env, |s.runs|, |t.runs| - |s.runs|, |u.runs| - |t.runs|);
    AmongNext(env, |s.runs|, |t.runs| - |s.runs|, 0);
  }

  lemma {:induction false} RestRequests(env: Env, s: State)
    requires Healthy(s)
    ensures Requested(env, s, Rest(env, s))
    decreases |s.input.unread|
  {
    if ParseReply(s.input.unread, 0).Done? && NextRoute(s).To? {
      DeliveredKeeps(env, s);
      DeliveryRequests(env, s);
      var t := Delivered(env, s);
      if !t.wishes.freeing {
        RestRequests(env, t);
        RequestedNext(env, s, t, Rest(env, t));
      }
    }
  }

  /** No callback with a function is pending. */
  ghost predicate Silent(w: Work) {
    && (forall cb :: cb in w.replies.waiting || cb in w.invalid.waiting ==> cb.fn.None?)
    && forall pattern, name :: name in Table(w.subs, pattern) ==> Table(w.subs, pattern)[name].fn.None?
  }

  lemma {:induction false} SilentRuns(cbs: seq<Callback>)
    ensures Invoked(NullRuns(cbs)) == [] <==> forall cb :: cb in cbs ==> cb.fn.None?
  {
    if cbs != [] {
      assert NullRuns(cbs)[1..] == NullRuns(cbs[1..]);
      SilentRuns(cbs[1..]);
      assert forall cb :: cb in cbs <==> cb == cbs[0] || cb in cbs[1..];
    }
  }

  lemma SilentTable(m: map<bytes, Callback>, keys: seq<bytes>)
    requires Lists(m, keys)
    ensures Invoked(NullRuns(Values(m, keys))) == [] <==> forall name :: name in m ==> m[name].fn.None?
  {
    SilentRuns(Values(m, keys));
    forall name | name in m ensures m[name] in Values(m, keys) {
      assert name in keys;
      var i :| 0 <= i < |keys| && keys[i] == name;
      assert Values(m, keys)[i] == m[name];
    }
  }

  lemma SilentPending(env: Env, w: Work)
    requires Orderly(env, w.subs)
    ensures Pending(env, w) == [] <==> Silent(w)
  {
    SilentRuns(w.replies.waiting);
    SilentRuns(w.invalid.waiting);
    SilentTable(w.subs.channels, env.channels);
    SilentTable(w.subs.patterns, env.patterns);
    assert Table(w.subs, false) == w.subs.channels && Table(w.subs, true) == w.subs.patterns;
  }

  lemma AddsNothing<T>(s: seq<T>, t: seq<T>)
    ensures s + t == s <==> t == []
  {
    assert |s + t| == |s| + |t|;
  }

  lemma TeardownPends(env: Env, s: State)
    requires Quiet(s) && Orderly(env, s.work.subs)
    ensures var t := Teardown(env, s);
            && t.life == s.life.(teardowns := s.life.teardowns + 1, frees := s.life.frees + 1)
            && t.runs == s.runs + Pending(env, s.work) && t.work.output == s.work.output && t.input == s.input
  {
    PendingRuns(env, s.(life := s.life.(teardowns := s.life.teardowns + 1)));
  }

  lemma TeardownRuns(env: Env, s: State)
    requires Quiet(s) && Orderly(env, s.work.subs)
    ensures var t := Teardown(env, s);
            && t.life == s.life.(teardowns := s.life.teardowns + 1, frees := s.life.frees + 1)
            && t.runs == s.runs + Pending(env, s.work) && t.work.output == s.work.output && t.input == s.input
            && (t.runs == s.runs <==> Silent(s.work))
  {
    TeardownPends(env, s);
    SilentPending(env, s.work);
    AddsNothing(s.runs, Pending(env, s.work));
  }

  /** The read releases the context, without an error. */
  ghost predicate Releases(env: Env, s: State)
    requires !s.inCallback
  {
    Process(env, s).life.frees > s.life.frees && !Process(env, s).life.err
  }

  /** A disconnect was asked for, or one of the callbacks that get the replies at hand does so. */
  ghost predicate Leaving(env: Env, s: State)
    requires Healthy(s)
  {
    s.wishes.disconnecting || DisconnectsAmong(env, |s.runs|, |Rest(env, s).runs| - |s.runs|)
  }

  /**
   After a disconnect was asked for, before a read or by a callback in it, in every mode and
   whatever callbacks do: the replies at hand are delivered, and then the read releases the
   context without an error exactly when a callback freed it, or everything is written and the
   list of replies is empty. Everything else that is pending is invoked with NULL, also if its
   replies are on the way, and output that is left is dropped; nothing is invoked with NULL
   exactly when no callback is pending.
   */
  lemma DeferredDisconnect(env: Env, s: State) returns (log: seq<Run>)
    requires Healthy(s) && Leaving(env, s) && Orderly(env, Rest(env, s).work.subs)
    ensures Deliveries(s, log, Rest(env, s))
    ensures var u := Rest(env, s);
            Releases(env, s) <==>
              || u.wishes.freeing
              || (ParseReply(u.input.unread, 0).More? && u.work.output.obuf == [] && u.work.replies.waiting == [])
    ensures var t, u := Process(env, s), Rest(env, s);
            Releases(env, s) ==>
              && t.runs == u.runs + Pending(env, u.work) && (t.runs == u.runs <==> Silent(u.work))
              && t.work.output == u.work.output
  {
    log := RestDelivers(env, s);
    RestEnds(env, s);
    RestRequests(env, s);
    var u := Rest(env, s);
    if u.wishes.freeing || (u.work.output.obuf == [] && u.work.replies.waiting == []) {
      TeardownRuns(env, u);
    }
    if !u.wishes.freeing {
      Unreleased(env, u);
    }
  }

  /**
   A callback that frees the context ends the read at once: the replies behind are not read, and
   everything pending is invoked with NULL.
   */
  lemma FreedByCallback(env: Env, s: State) returns (log: seq<Run>)
    requires Healthy(s) && FreesAmong(env, |s.runs|, |Rest(env, s).runs| - |s.runs|)
    requires Orderly(env, Rest(env, s).work.subs)
    ensures Deliveries(s, log, Rest(env, s)) && RequestFree in ActsOf(env, |Rest(env, s).runs| - 1)
    ensures var t, u := Process(env, s), Rest(env, s);
            && t.life == s.life.(teardowns := 1, frees := s.life.frees + 1) && t.input == u.input
            && t.runs == u.runs + Pending(env, u.work) && t.work.output == u.work.output
  {
    log := RestDelivers(env, s);
    RestEnds(env, s);
    RestRequests(env, s);
    LastFrees(env, s);
    FreedHere(env, s, Rest(env, s));
  }

  lemma FreedHere(env: Env, s: State, u: State)
    requires Idle(s) && Idle(u) && u.life == s.life && u.wishes.freeing && Orderly(env, u.work.subs)
    requires Process(env, s) == Teardown(env, u)
    ensures var t := Process(env, s);
            && t.life == s.life.(teardowns := 1, frees := s.life.frees + 1) && t.input == u.input
            && t.runs == u.runs + Pending(env, u.work) && t.work.output == u.work.output
  {
    TeardownRuns(env, u);
  }

  lemma {:induction false} LastFrees(env: Env, s: State)
    requires Healthy(s) && Rest(env, s).wishes.freeing
    ensures Rest(env, s).runs != [] && RequestFree in ActsOf(env, |Rest(env, s).runs| - 1)
    decreases |s.input.unread|
  {
    DeliveredKeeps(env, s);
    if !Delivered(env, s).wishes.freeing {
      LastFrees(env, Delivered(env, s));
    }
  }

  /** Nothing can be delivered: only a clean disconnect releases the context without an error. */
  lemma Unreleased(env: Env, u: State)
    requires Disconnecting(u) && !(ParseReply(u.input.unread, 0).Done? && NextRoute(u).To?)
    requires Orderly(env, u.work.subs)
    ensures var w := u.work;
            if ParseReply(u.input.unread, 0).More? && w.output.obuf == [] && w.replies.waiting == []
            then Process(env, u) == Teardown(env, u)
            else Process(env, u).life.frees == u.life.frees || Process(env, u).life.err
  {
    match ParseReply(u.input.unread, 0) {
      case Bad(_) => FailRuns(env, u);
      case More =>
      case Done(reply, rest) => FailRuns(env, u.(input := Receive(u.input, reply, rest, u.input.last)));
    }
  }

  // ----- What a disconnect outside callbacks cuts off -----

  /**
   A disconnect asked for outside callbacks looks at the list of replies only. If it is empty,
   the context is released at once, however much output is left and whatever else is pending,
   which is invoked with NULL; otherwise nothing happens yet.
   */
  lemma DisconnectAtOnce(env: Env, s: State)
    requires Idle(s) && Orderly(env, s.work.subs)
    ensures var t, waiting := Handle(env, s, Disconnect), s.work.replies.waiting;
            && t.work.output == s.work.output && (t.life.frees == s.life.frees + 1 <==> waiting == [])
            && if waiting == [] then t.runs == s.runs + Pending(env, s.work)
               else t == s.(wishes := s.wishes.(disconnecting := true))
  {
    if s.work.replies.waiting == [] {
      TeardownRuns(env, s.(wishes := s.wishes.(disconnecting := true)));
    }
  }

  /**
   The same for runs: the commands accepted so far are all sent, and nothing is invoked with
   NULL, exactly when the buffer is empty and nothing is pending.
   */
  lemma DisconnectFlushes(env: Env, events: seq<Event>)
    requires var s := Session(env, events);
             !Over(s.life) && Orderly(env, s.work.subs) && s.work.replies.waiting == []
    ensures var s, t := Session(env, events), Session(env, events + [Disconnect]);
            && t.life.frees == 1 && t.work.output == s.work.output
            && (t.work.output.sent == Concat(t.work.output.appended) <==> s.work.output.obuf == [])
            && (t.runs == s.runs <==> Silent(s.work))
  {
    var s := Session(env, events);
    SessionNext(env, events, Disconnect);
    SessionKeeps(env, events);
    DisconnectAtOnce(env, s);
    var o := s.work.output;
    assert |o.sent + o.obuf| == |o.sent| + |o.obuf|;
    assert o.obuf == [] ==> o.sent + o.obuf == o.sent;
    TeardownRuns(env, s.(wishes := s.wishes.(disconnecting := true)));
  }

  // ----- The assertion of unasked replies -----

  /** While a connection is up, nothing is left that could be read. */
  lemma {:induction false} NothingLeft(env: Env, events: seq<Event>)
    ensures var t := Session(env, events); !Over(t.life) && !t.life.err ==> ParseReply(t.input.unread, 0).More?
    decreases |events|
  {
    if events != [] {
      var before, e := events[..|events| - 1], events[|events| - 1];
      NothingLeft(env, before);
      var s := Session(env, before);
      if !Over(s.life) {
        HandleLeaves(env, s, e);
      }
    }
  }

  lemma HandleLeaves(env: Env, s: State, e: Event)
    requires Idle(s) && (!s.life.err ==> ParseReply(s.input.unread, 0).More?)
    ensures var t := Handle(env, s, e); !Over(t.life) && !t.life.err ==> ParseReply(t.input.unread, 0).More?
  {
    if e.Readable? {
      var t := Connect(env, s, e.socket);
      if !Over(t.life) && t.life.connected && !ReadFails(t.life.err, e.arrival) {
        ReadEnds(env, t.(input := Feed(t.input, Given(e.arrival))));
      }
    }
  }

  /**
   In every run without subscriptions and monitoring, whatever callbacks do: the assertion that
   the context is subscribed or monitoring fails exactly when the stream brings a reply more
   than commands were accepted, that reply is not an error, and nothing ended the run before.
   */
  lemma UnaskedReply(env: Env, events: seq<Event>)
    ensures var t := Session(env, events);
            var replies, n := ReadStream(t.input.received).replies, |t.work.accepted|;
            t.work.plain ==>
              (t.life.failed == Some(NotSubscribed) <==>
                 && |replies| > n && !replies[n].Error?
                 && !t.life.err && t.life.frees == 0 && !t.life.impossible)
  {
    var t := Session(env, events);
    SessionKeeps(env, events);
    NothingLeft(env, events);
    if t.work.plain && !t.life.err && !t.life.impossible && t.life.frees == 0 {
      YieldsStream(t.input.received, t.input.got, t.input.unread);
      UnaskedHere(t);
    }
  }

  lemma UnaskedHere(t: State)
    requires Kept(t) && t.work.plain && !t.life.err && !t.life.impossible && t.life.teardowns == 0
    requires !Over(t.life) ==> ParseReply(t.input.unread, 0).More?
    requires ReadStream(t.input.received).replies == t.input.got + ReadStream(t.input.unread).replies
    ensures var replies, n := ReadStream(t.input.received).replies, |t.work.accepted|;
            t.life.failed == Some(NotSubscribed) <==> |replies| > n && !replies[n].Error?
  {
    var n := |t.work.accepted|;
    assert n == |t.input.got| + |t.work.replies.waiting|;
    match ParseReply(t.input.unread, 0) {
      case Done(reply, rest) => assert ReadStream(t.input.unread).replies[0] == reply;
      case _ =>
    }
  }
}
