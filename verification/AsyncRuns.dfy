/** Every run of the asynchronous protocol as a sequence of small steps, and what all of them keep. */
module AsyncRuns {
  import opened Bytes
  import opened Resp
  import opened Callbacks
  import opened Async

  // ----- Steps -----

  datatype Step =
    | Acting(a: Action)         // user code inside a callback, or a command from outside
    | Leaving                   // a callback returns
    | Linking                   // the socket turns out to be connected
    | Faulting                  // c->err is set
    | Arriving(chunk: bytes)
    | Departing(n: nat)
    | Delivering                // the next reply is read, routed, and its callback entered
    | Losing                    // an unexpected error reply is read, which ends the connection
    | Repushing                 // monitor mode, at the end of a read: the callback is put back
    | Tearing                   // __redisAsyncFree() is entered
    | Draining(lane: Lane)      // the next waiting callback is taken, and entered with NULL
    | Dismissing(pattern: bool, name: bytes)  // the callback of a subscription is entered with NULL
    | Freeing                   // the context is released
    | Failing(why: Assertion)   // an assertion fails
    | Stranding                 // the environment turns out to fit no run

  /** A callback without a function is never entered. */
  function Begin(s: State, cb: Callback, reply: Option<Reply>): State {
    if cb.fn.None? then s else Enter(s, cb, reply)
  }

  /** Replies are only looked at on a healthy connection, and not from inside a callback. */
  predicate Reading(s: State) {
    !s.life.err && s.life.teardowns == 0 && !s.inCallback && ParseReply(s.input.unread, 0).Done?
  }

  /** A read is at its end: nothing is left that could be read. */
  predicate Waiting(s: State) {
    !s.life.err && s.life.teardowns == 0 && !s.inCallback && ParseReply(s.input.unread, 0).More?
  }

  /** Where the next reply goes. */
  function NextRoute(s: State): Route
    requires ParseReply(s.input.unread, 0).Done?
  {
    RouteReply(s.work, ParseReply(s.input.unread, 0).reply, s.input.last)
  }

  /** A disconnect was asked for and everything is written, but replies are outstanding that are not there yet. */
  predicate Stuck(s: State) {
    Waiting(s) && s.wishes.disconnecting && s.work.output.obuf == [] && s.work.replies.waiting != []
  }

  /** What an assertion says is not so. */
  predicate Violates(s: State, why: Assertion) {
    if why.PendingAtDisconnect? then Stuck(s) else Reading(s) && NextRoute(s) == Broken(why)
  }

  function Deliver(s: State): State {
    match ParseReply(s.input.unread, 0)
    case Done(reply, rest) =>
      (match RouteReply(s.work, reply, s.input.last)
       case To(w, cb) => Begin(s.(work := w, input := Receive(s.input, reply, rest, cb)), cb, Some(reply))
       case _ => s)
    case _ => s
  }

  function Lose(s: State): State {
    match ParseReply(s.input.unread, 0)
    case Done(reply, rest) =>
      if s.work.replies.waiting != [] then s
      else s.(input := Receive(s.input, reply, rest, s.input.last), life := s.life.(err := true),
              wishes := s.wishes.(disconnecting := true))
    case _ => s
  }

  function DrainOne(s: State, lane: Lane): State {
    if LaneOf(s.work, lane).waiting == [] then s
    else Begin(s.(work := ShiftLane(s.work, lane, None)), LaneOf(s.work, lane).waiting[0], None)
  }

  /** What must hold for a step to be taken; a step out of turn changes nothing. */
  predicate Enabled(s: State, p: Step) {
    !Over(s.life) &&
    match p
    case Delivering => Reading(s)
    case Losing => Reading(s)
    case Arriving(_) => !s.life.err && s.life.teardowns == 0 && !s.inCallback
    case Repushing => s.work.monitoring && Waiting(s) && !(s.wishes.disconnecting && s.work.output.obuf == [])
    case Tearing => Refusing(s.wishes) && !s.inCallback && s.life.teardowns == 0
    case Draining(_) => s.life.teardowns > 0 && !s.inCallback
    case Dismissing(pattern, name) => s.life.teardowns > 0 && !s.inCallback && name in Table(s.work.subs, pattern)
    case Freeing => s.life.teardowns > 0 && !s.inCallback && s.work.replies.waiting == [] == s.work.invalid.waiting
    case Failing(why) => Violates(s, why)
    case Stranding => s.life.teardowns == 0
    case _ => true
  }

  function Effect(s: State, p: Step): State {
    match p
    case Acting(a) => Act(s, a)
    case Leaving => s.(inCallback := false)
    case Linking => s.(life := s.life.(connected := true))
    case Faulting => s.(life := s.life.(err := true))
    case Arriving(chunk) => s.(input := Feed(s.input, chunk))
    case Departing(n) => s.(work := s.work.(output := Written(s.work.output, n)))
    case Delivering => Deliver(s)
    case Losing => Lose(s)
    case Repushing => s.(work := s.work.(replies := Push(s.work.replies, s.input.last)))
    case Tearing => s.(life := s.life.(teardowns := s.life.teardowns + 1))
    case Draining(lane) => DrainOne(s, lane)
    case Dismissing(pattern, name) =>
      if name in Table(s.work.subs, pattern) then Begin(s, Table(s.work.subs, pattern)[name], None) else s
    case Freeing => s.(life := s.life.(frees := s.life.frees + 1))
    case Failing(why) => s.(life := s.life.(failed := Some(why)))
    case Stranding => s.(life := s.life.(impossible := true))
  }

  function Take(s: State, p: Step): State {
    if Enabled(s, p) then Effect(s, p) else s
  }

  function TakeAll(s: State, ps: seq<Step>): State
    decreases |ps|
  {
    if ps == [] then s else Take(TakeAll(s, ps[..|ps| - 1]), ps[|ps| - 1])
  }

  lemma {:induction false} TakeBoth(s: State, ps: seq<Step>, qs: seq<Step>)
    ensures TakeAll(s, ps + qs) == TakeAll(TakeAll(s, ps), qs)
    decreases |qs|
  {
    if qs == [] {
      assert ps + qs == ps;
    } else {
      assert (ps + qs)[..|ps + qs| - 1] == ps + qs[..|qs| - 1];
      TakeBoth(s, ps, qs[..|qs| - 1]);
    }
  }

  lemma TakeOne(s: State, p: Step)
    ensures TakeAll(s, [p]) == Take(s, p)
  {
    assert [p][..0] == [];
  }

  lemma Chain(s: State, ps: seq<Step>, t: State, qs: seq<Step>)
    requires TakeAll(s, ps) == t
    ensures TakeAll(s, ps + qs) == TakeAll(t, qs)
  {
    TakeBoth(s, ps, qs);
  }

  lemma ThenOne(s: State, ps: seq<Step>, t: State, p: Step)
    requires TakeAll(s, ps) == t
    ensures TakeAll(s, ps + [p]) == Take(t, p)
  {
    assert (ps + [p])[..|ps|] == ps;
  }

  // ----- Everything the context does is made of these steps -----

  /** Steps of callbacks and commands. */
  ghost predicate OfUsers(ps: seq<Step>) {
    forall p :: p in ps ==> p.Acting? || p.Leaving?
  }

  /** Nothing is read from here on. */
  ghost predicate NoDelivery(ps: seq<Step>) {
    forall p :: p in ps ==> !p.Delivering? && !p.Losing?
  }

  /** Nothing is torn down up to here. */
  ghost predicate NoTeardown(ps: seq<Step>) {
    forall p :: p in ps ==> !p.Tearing? && !p.Draining? && !p.Dismissing? && !p.Freeing?
  }

  lemma {:induction false} ActsSteps(s: State, acts: seq<Action>) returns (ps: seq<Step>)
    requires !Over(s.life)
    ensures TakeAll(s, ps) == Acts(s, acts) && OfUsers(ps)
    decreases |acts|
  {
    if acts == [] {
      ps := [];
    } else {
      var before, last := acts[..|acts| - 1], acts[|acts| - 1];
      ps := ActsSteps(s, before);
      ActsKeep(s, before);
      ThenOne(s, ps, Acts(s, before), Acting(last));
      ps := ps + [Acting(last)];
    }
  }

  lemma CallbackSteps(env: Env, s: State, cb: Callback, reply: Option<Reply>) returns (ps: seq<Step>)
    requires !Over(s.life)
    ensures TakeAll(Begin(s, cb, reply), ps) == RunCallback(env, s, cb, reply) && OfUsers(ps)
  {
    if cb.fn.None? {
      ps := [];
    } else {
      var e, acts := Enter(s, cb, reply), ActsOf(env, |s.runs|);
      ps := ActsSteps(e, acts);
      ActsKeep(e, acts);
      ThenOne(e, ps, Acts(e, acts), Leaving);
      ps := ps + [Leaving];
    }
  }

  /** A step that enters a callback, and the callback. */
  lemma EnterSteps(env: Env, s: State, p: Step, t: State, cb: Callback, reply: Option<Reply>) returns (ps: seq<Step>)
    requires Take(s, p) == Begin(t, cb, reply) && !Over(t.life)
    ensures TakeAll(s, ps) == RunCallback(env, t, cb, reply)
    ensures forall q :: q in ps ==> q == p || q.Acting? || q.Leaving?
  {
    var qs := CallbackSteps(env, t, cb, reply);
    TakeOne(s, p);
    Chain(s, [p], Begin(t, cb, reply), qs);
    ps := [p] + qs;
  }

  /** The runs that a list of callbacks makes when each is given NULL. */
  function NullRuns(cbs: seq<Callback>): (r: seq<Run>)
    ensures |r| == |cbs| && forall i :: 0 <= i < |r| ==> r[i] == Run(cbs[i], None)
  {
    seq(|cbs|, i requires 0 <= i < |cbs| => Run(cbs[i], None))
  }

  /** The invocations among the callbacks taken off a list: those with a function. */
  function Invoked(taken: seq<Run>): seq<Run> {
    if taken == [] then [] else Invocation(taken[0].cb, taken[0].reply) + Invoked(taken[1..])
  }

  lemma {:induction false} InvokedNext(taken: seq<Run>, r: Run)
    ensures Invoked(taken + [r]) == Invoked(taken) + Invocation(r.cb, r.reply)
  {
    if taken == [] {
      assert ([r])[1..] == [];
    } else {
      assert (taken + [r])[1..] == taken[1..] + [r];
      InvokedNext(taken[1..], r);
    }
  }

  function SetLane(w: Work, lane: Lane, q: Queue): Work {
    if lane.Replies? then w.(replies := q) else w.(invalid := q)
  }

  function Drained(q: Queue): Queue {
    Queue(q.pushed, q.taken + NullRuns(q.waiting), [])
  }

  lemma DrainedNext(w: Work, lane: Lane)
    requires LaneOf(w, lane).waiting != []
    ensures var v := ShiftLane(w, lane, None);
            SetLane(v, lane, Drained(LaneOf(v, lane))) == SetLane(w, lane, Drained(LaneOf(w, lane)))
  {
    var q := LaneOf(w, lane);
    assert q.taken + NullRuns(q.waiting) == (q.taken + [Run(q.waiting[0], None)]) + NullRuns(q.waiting[1..]);
  }

  lemma DrainedAlready(w: Work, lane: Lane)
    requires LaneOf(w, lane).waiting == []
    ensures SetLane(w, lane, Drained(LaneOf(w, lane))) == w
  {
    var q := LaneOf(w, lane);
    assert q.taken + NullRuns(q.waiting) == q.taken;
    assert Drained(q) == q;
  }

  /**
   Draining runs every waiting callback exactly once, in order, with NULL, whatever the
   callbacks try: nothing they do adds to a list.
   */
  lemma {:induction false} DrainRuns(env: Env, s: State, lane: Lane)
    requires Quiet(s)
    ensures var t, q := Drain(env, s, lane), LaneOf(s.work, lane);
            && t.life == s.life && t.input == s.input && t.work == SetLane(s.work, lane, Drained(q))
            && t.runs == s.runs + Invoked(NullRuns(q.waiting))
    decreases |LaneOf(s.work, lane).waiting|
  {
    var q := LaneOf(s.work, lane);
    if q.waiting == [] {
      DrainedAlready(s.work, lane);
    } else {
      var cb := q.waiting[0];
      var u := s.(work := ShiftLane(s.work, lane, None));
      CallbackKeeps(env, u, cb, None);
      var v := RunCallback(env, u, cb, None);
      DrainRuns(env, v, lane);
      DrainedNext(s.work, lane);
      assert NullRuns(q.waiting)[1..] == NullRuns(LaneOf(v.work, lane).waiting);
    }
  }

  lemma {:induction false} DrainSteps(env: Env, s: State, lane: Lane) returns (ps: seq<Step>)
    requires Quiet(s) && s.life.teardowns > 0 && !Over(s.life)
    ensures TakeAll(s, ps) == Drain(env, s, lane) && NoDelivery(ps)
    decreases |LaneOf(s.work, lane).waiting|
  {
    if LaneOf(s.work, lane).waiting == [] {
      ps := [];
    } else {
      var cb := LaneOf(s.work, lane).waiting[0];
      var u := s.(work := ShiftLane(s.work, lane, None));
      CallbackKeeps(env, u, cb, None);
      var v := RunCallback(env, u, cb, None);
      ps := EnterSteps(env, s, Draining(lane), u, cb, None);
      var qs := DrainSteps(env, v, lane);
      Chain(s, ps, v, qs);
      ps := ps + qs;
    }
  }

  /** The callbacks of a dictionary in the order of keys. */
  function Values(m: map<bytes, Callback>, keys: seq<bytes>): (r: seq<Callback>)
    requires forall k :: k in keys ==> k in m
    ensures |r| == |keys| && forall i :: 0 <= i < |r| ==> r[i] == m[keys[i]]
  {
    seq(|keys|, i requires 0 <= i < |keys| => m[keys[i]])
  }

  /** ... and so does going through a dictionary. */
  lemma {:induction false} TableRuns(env: Env, s: State, m: map<bytes, Callback>, keys: seq<bytes>)
    requires Quiet(s) && forall k :: k in keys ==> k in m
    ensures var t := DrainTable(env, s, m, keys);
            && t.life == s.life && t.input == s.input && t.work == s.work
            && t.runs == s.runs + Invoked(NullRuns(Values(m, keys)))
    decreases |keys|
  {
    if keys != [] {
      var cb := m[keys[0]];
      CallbackKeeps(env, s, cb, None);
      TableRuns(env, RunCallback(env, s, cb, None), m, keys[1..]);
      assert NullRuns(Values(m, keys))[1..] == NullRuns(Values(m, keys[1..]));
    }
  }

  lemma {:induction false} TableSteps(env: Env, s: State, pattern: bool, keys: seq<bytes>) returns (ps: seq<Step>)
    requires Quiet(s) && s.life.teardowns > 0 && !Over(s.life)
    requires forall k :: k in keys ==> k in Table(s.work.subs, pattern)
    ensures TakeAll(s, ps) == DrainTable(env, s, Table(s.work.subs, pattern), keys) && NoDelivery(ps)
    decreases |keys|
  {
    if keys == [] {
      ps := [];
    } else {
      var m := Table(s.work.subs, pattern);
      var cb := m[keys[0]];
      CallbackKeeps(env, s, cb, None);
      var v := RunCallback(env, s, cb, None);
      ps := EnterSteps(env, s, Dismissing(pattern, keys[0]), s, cb, None);
      var qs := TableSteps(env, v, pattern, keys[1..]);
      Chain(s, ps, v, qs);
      ps := ps + qs;
    }
  }

  predicate Orderly(env: Env, u: Subs) {
    Lists(u.channels, env.channels) && Lists(u.patterns, env.patterns)
  }

  /** What is pending: unanswered commands and commands issued while subscribed, */
  function PendingLanes(w: Work): seq<Run> {
    Invoked(NullRuns(w.replies.waiting)) + Invoked(NullRuns(w.invalid.waiting))
  }

  /** ... and every channel and pattern. */
  function PendingTables(env: Env, u: Subs): seq<Run>
    requires Orderly(env, u)
  {
    Invoked(NullRuns(Values(u.channels, env.channels))) + Invoked(NullRuns(Values(u.patterns, env.patterns)))
  }

  function Pending(env: Env, w: Work): seq<Run>
    requires Orderly(env, w.subs)
  {
    PendingLanes(w) + PendingTables(env, w.subs)
  }

  lemma LanesRuns(env: Env, s: State)
    requires Quiet(s)
    ensures var t, w := Drain(env, Drain(env, s, Replies), Invalid), s.work;
            && t.life == s.life && t.input == s.input && t.runs == s.runs + PendingLanes(w)
            && t.work == w.(replies := Drained(w.replies), invalid := Drained(w.invalid))
  {
    DrainRuns(env, s, Replies);
    var t := Drain(env, s, Replies);
    DrainRuns(env, t, Invalid);
    Assoc(s.runs, Invoked(NullRuns(s.work.replies.waiting)), Invoked(NullRuns(s.work.invalid.waiting)));
  }

  lemma TablesRuns(env: Env, s: State, u: Subs)
    requires Quiet(s) && Orderly(env, u)
    ensures var t := DrainTable(env, DrainTable(env, s, u.channels, env.channels), u.patterns, env.patterns);
            t.life == s.life && t.input == s.input && t.work == s.work && t.runs == s.runs + PendingTables(env, u)
  {
    TableRuns(env, s, u.channels, env.channels);
    TableRuns(env, DrainTable(env, s, u.channels, env.channels), u.patterns, env.patterns);
    Assoc(s.runs, Invoked(NullRuns(Values(u.channels, env.channels))),
          Invoked(NullRuns(Values(u.patterns, env.patterns))));
  }

  /**
   Teardown runs every callback that is still pending exactly once, with NULL, and whatever
   they try adds nothing to them.
   */
  lemma PendingRuns(env: Env, s: State)
    requires Quiet(s) && Orderly(env, s.work.subs)
    ensures var t, w := RunPending(env, s), s.work;
            && t.life == s.life && t.input == s.input && t.runs == s.runs + Pending(env, w)
            && t.work == w.(replies := Drained(w.replies), invalid := Drained(w.invalid))
  {
    LanesRuns(env, s);
    TablesRuns(env, Drain(env, Drain(env, s, Replies), Invalid), s.work.subs);
    Assoc(s.runs, PendingLanes(s.work), PendingTables(env, s.work.subs));
  }

  lemma LanesSteps(env: Env, s: State) returns (ps: seq<Step>)
    requires Quiet(s) && s.life.teardowns > 0 && !Over(s.life)
    ensures TakeAll(s, ps) == Drain(env, Drain(env, s, Replies), Invalid) && NoDelivery(ps)
    ensures TakeAll(s, ps).life == s.life && TakeAll(s, ps).work.subs == s.work.subs
  {
    ps := DrainSteps(env, s, Replies);
    DrainRuns(env, s, Replies);
    LanesRuns(env, s);
    var t := Drain(env, s, Replies);
    var qs := DrainSteps(env, t, Invalid);
    Chain(s, ps, t, qs);
    ps := ps + qs;
  }

  lemma TablesSteps(env: Env, s: State) returns (ps: seq<Step>)
    requires Quiet(s) && s.life.teardowns > 0 && !Over(s.life) && Orderly(env, s.work.subs)
    ensures var u := s.work.subs;
            TakeAll(s, ps) == DrainTable(env, DrainTable(env, s, u.channels, env.channels), u.patterns, env.patterns)
    ensures NoDelivery(ps)
  {
    var u := s.work.subs;
    ps := TableSteps(env, s, false, env.channels);
    TableRuns(env, s, u.channels, env.channels);
    var t := DrainTable(env, s, u.channels, env.channels);
    var qs := TableSteps(env, t, true, env.patterns);
    Chain(s, ps, t, qs);
    ps := ps + qs;
  }

  lemma PendingSteps(env: Env, s: State) returns (ps: seq<Step>)
    requires Quiet(s) && s.life.teardowns > 0 && !Over(s.life) && Orderly(env, s.work.subs)
    ensures TakeAll(s, ps) == RunPending(env, s) && NoDelivery(ps)
  {
    ps := LanesSteps(env, s);
    var t := Drain(env, Drain(env, s, Replies), Invalid);
    var qs := TablesSteps(env, t);
    Chain(s, ps, t, qs);
    ps := ps + qs;
  }

  lemma TornSteps(env: Env, s: State) returns (ps: seq<Step>)
    requires Quiet(s) && s.life.teardowns > 0 && !Over(s.life) && Orderly(env, s.work.subs)
    ensures var t := RunPending(env, s); TakeAll(s, ps) == t.(life := t.life.(frees := t.life.frees + 1))
    ensures NoDelivery(ps)
  {
    ps := PendingSteps(env, s);
    PendingRuns(env, s);
    var t := RunPending(env, s);
    assert Take(t, Freeing) == t.(life := t.life.(frees := t.life.frees + 1)) by {
      assert Enabled(t, Freeing);
    }
    ThenOne(s, ps, t, Freeing);
    ps := ps + [Freeing];
  }

  lemma TeardownSteps(env: Env, s: State) returns (ps: seq<Step>)
    requires Quiet(s) && !Over(s.life) && s.life.teardowns == 0
    ensures TakeAll(s, ps) == Teardown(env, s) && NoDelivery(ps)
  {
    if !Orderly(env, s.work.subs) {
      ps := [Stranding];
      TakeOne(s, ps[0]);
    } else {
      var t := s.(life := s.life.(teardowns := s.life.teardowns + 1));
      TakeOne(s, Tearing);
      ps := TornSteps(env, t);
      Chain(s, [Tearing], t, ps);
      ps := [Tearing] + ps;
    }
  }

  lemma DisconnectSteps(env: Env, s: State) returns (ps: seq<Step>)
    requires !s.inCallback && (s.life.err || Refusing(s.wishes)) && !Over(s.life) && s.life.teardowns == 0
    requires !s.life.err && s.work.replies.waiting != [] ==> Stuck(s)
    ensures TakeAll(s, ps) == DisconnectNow(env, s) && NoDelivery(ps)
  {
    if s.life.err {
      var t := s.(wishes := s.wishes.(disconnecting := true));
      TakeOne(s, Acting(RequestDisconnect));
      var qs := TeardownSteps(env, t);
      Chain(s, [Acting(RequestDisconnect)], t, qs);
      ps := [Acting(RequestDisconnect)] + qs;
    } else if s.work.replies.waiting != [] {
      ps := [Failing(PendingAtDisconnect)];
      TakeOne(s, ps[0]);
    } else {
      ps := TeardownSteps(env, s);
    }
  }

  /** The context as it is between two events. */
  ghost predicate Idle(s: State) {
    !s.inCallback && !Over(s.life) && s.life.teardowns == 0
  }

  lemma FailSteps(env: Env, s: State) returns (ps: seq<Step>)
    requires Idle(s)
    ensures TakeAll(s, ps) == Fail(env, s) && NoDelivery(ps)
  {
    var t := s.(life := s.life.(err := true));
    TakeOne(s, Faulting);
    var qs := DisconnectSteps(env, t);
    Chain(s, [Faulting], t, qs);
    ps := [Faulting] + qs;
  }

  lemma LoseSteps(env: Env, s: State) returns (ps: seq<Step>)
    requires Idle(s) && Reading(s) && NextRoute(s).Nowhere?
    ensures var p := ParseReply(s.input.unread, 0);
            TakeAll(s, ps) == Fail(env, s.(input := Receive(s.input, p.reply, p.rest, s.input.last)))
    ensures ps != [] && ps[0].Losing? && NoDelivery(ps[1..])
  {
    TakeOne(s, Losing);
    var qs := TeardownSteps(env, Lose(s));
    Chain(s, [Losing], Lose(s), qs);
    ps := [Losing] + qs;
    assert ps[1..] == qs;
  }

  lemma DeliverSteps(env: Env, s: State) returns (ps: seq<Step>)
    requires Idle(s) && Reading(s) && NextRoute(s).To?
    ensures var p, r := ParseReply(s.input.unread, 0), NextRoute(s);
            TakeAll(s, ps) == RunCallback(env, s.(work := r.work, input := Receive(s.input, p.reply, p.rest, r.cb)),
                                          r.cb, Some(p.reply))
    ensures NoTeardown(ps)
  {
    var p, r := ParseReply(s.input.unread, 0), NextRoute(s);
    var t := s.(work := r.work, input := Receive(s.input, p.reply, p.rest, r.cb));
    ps := EnterSteps(env, s, Delivering, t, r.cb, Some(p.reply));
  }

  /**
   Processing replies is a number of deliveries, each with what its callback does, and then
   nothing more, or the end of the context, during which nothing is read.
   */
  lemma {:induction false} ProcessSteps(env: Env, s: State) returns (ps: seq<Step>, k: nat)
    requires Idle(s) && !s.life.err
    ensures TakeAll(s, ps) == Process(env, s)
    ensures k <= |ps| && NoTeardown(ps[..k]) && NoDelivery(ps[k..])
    decreases |s.input.unread|
  {
    k := 0;
    match ParseReply(s.input.unread, 0) {
      case Bad(_) => ps := FailSteps(env, s);
      case More => ps := WaitSteps(env, s);
      case Done(reply, rest) =>
        match NextRoute(s) {
          case Broken(why) =>
            ps := [Failing(why)];
            TakeOne(s, ps[0]);
          case Nowhere =>
            ps := LoseSteps(env, s);
            k := 1;
          case To(w, cb) => ps, k := DeliverAndGoOn(env, s, w, cb, reply, rest);
        }
    }
  }

  lemma {:induction false} DeliverAndGoOn(env: Env, s: State, w: Work, cb: Callback, reply: Reply, rest: bytes)
    returns (ps: seq<Step>, k: nat)
    requires Idle(s) && !s.life.err && ParseReply(s.input.unread, 0) == Done(reply, rest) && NextRoute(s) == To(w, cb)
    ensures TakeAll(s, ps) == Process(env, s)
    ensures k <= |ps| && NoTeardown(ps[..k]) && NoDelivery(ps[k..])
    decreases |s.input.unread|, 0
  {
    var u := s.(work := w, input := Receive(s.input, reply, rest, cb));
    var first := DeliverSteps(env, s);
    CallbackKeeps(env, u, cb, Some(reply));
    var t := RunCallback(env, u, cb, Some(reply));
    var qs;
    k := 0;
    if cb.fn.Some? && t.wishes.freeing {
      qs := TeardownSteps(env, t);
    } else {
      qs, k := ProcessSteps(env, t);
    }
    Chain(s, first, t, qs);
    ps := first + qs;
    assert ps[..|first| + k] == first + qs[..k] && ps[|first| + k..] == qs[k..];
    k := |first| + k;
  }

  lemma WaitSteps(env: Env, s: State) returns (ps: seq<Step>)
    requires Idle(s) && !s.life.err && ParseReply(s.input.unread, 0).More?
    ensures TakeAll(s, ps) == Process(env, s) && NoDelivery(ps)
  {
    if s.wishes.disconnecting && s.work.output.obuf == [] {
      ps := DisconnectSteps(env, s);
    } else if s.work.monitoring {
      ps := [Repushing];
      TakeOne(s, ps[0]);
    } else {
      ps := [];
    }
  }

  lemma ConnectSteps(env: Env, s: State, socket: Socket) returns (ps: seq<Step>)
    requires Idle(s)
    ensures TakeAll(s, ps) == Connect(env, s, socket)
  {
    if s.life.connected {
      ps := [];
    } else {
      match socket {
        case Ready =>
          ps := [Linking];
          TakeOne(s, Linking);
        case InProgress =>
          ps := [Faulting];
          TakeOne(s, Faulting);
        case Unreachable =>
          ps := FailSteps(env, s);
      }
    }
  }

  lemma ReadSteps(env: Env, s: State, arrival: Arrival) returns (ps: seq<Step>)
    requires Idle(s)
    ensures TakeAll(s, ps) == Read(env, s, arrival)
  {
    if ReadFails(s.life.err, arrival) {
      ps := FailSteps(env, s);
    } else {
      var chunk := Given(arrival);
      var t := s.(input := Feed(s.input, chunk));
      TakeOne(s, Arriving(chunk));
      var qs, k := ProcessSteps(env, t);
      Chain(s, [Arriving(chunk)], t, qs);
      ps := [Arriving(chunk)] + qs;
    }
  }

  lemma WriteSteps(env: Env, s: State, departure: Departure) returns (ps: seq<Step>)
    requires Idle(s)
    ensures TakeAll(s, ps) == Write(env, s, departure)
  {
    if s.life.err || (s.work.output.obuf != [] && departure.WriteError?) {
      ps := FailSteps(env, s);
    } else if departure.Wrote? {
      ps := [Departing(departure.n)];
      TakeOne(s, ps[0]);
    } else {
      ps := [];
    }
  }

  lemma CompleteSteps(s: State, written: int) returns (ps: seq<Step>)
    requires Idle(s)
    ensures TakeAll(s, ps) == WriteDone(s, written)
  {
    ps := [];
    if written > 0 {
      ps := [Departing(written)];
      TakeOne(s, ps[0]);
    }
  }

  lemma CallSteps(env: Env, s: State, e: Event) returns (ps: seq<Step>)
    requires Idle(s) && (e.Call? || e.Disconnect? || e.Free?)
    ensures TakeAll(s, ps) == Handle(env, s, e)
  {
    var a := if e.Call? then Issue(e.cmd, e.cb) else if e.Disconnect? then RequestDisconnect else RequestFree;
    TakeOne(s, Acting(a));
    var t := Act(s, a);
    var qs := [];
    if e.Disconnect? && s.work.replies.waiting == [] {
      qs := DisconnectSteps(env, t);
    } else if e.Free? {
      qs := TeardownSteps(env, t);
    }
    Chain(s, [Acting(a)], t, qs);
    ps := [Acting(a)] + qs;
  }

  lemma HandleSteps(env: Env, s: State, e: Event) returns (ps: seq<Step>)
    requires Idle(s)
    ensures TakeAll(s, ps) == Handle(env, s, e)
  {
    if e.Readable? || e.Writable? {
      var socket := e.socket;
      ps := ConnectSteps(env, s, socket);
      var t := Connect(env, s, socket);
      if !Over(t.life) && t.life.connected {
        var qs;
        if e.Readable? {
          qs := ReadSteps(env, t, e.arrival);
        } else {
          qs := WriteSteps(env, t, e.departure);
        }
        Chain(s, ps, t, qs);
        ps := ps + qs;
      }
    } else if e.Preparing? {
      ps := ConnectSteps(env, s, e.socket);
    } else if e.Completed? {
      ps := CompleteSteps(s, e.written);
    } else {
      ps := CallSteps(env, s, e);
    }
  }

  lemma {:induction false} SessionSteps(env: Env, events: seq<Event>) returns (ps: seq<Step>)
    ensures TakeAll(INIT, ps) == Session(env, events)
    decreases |events|
  {
    ps := [];
    if events != [] {
      var s := Session(env, events[..|events| - 1]);
      ps := SessionSteps(env, events[..|events| - 1]);
      if !Over(s.life) {
        var qs := HandleSteps(env, s, events[|events| - 1]);
        Chain(INIT, ps, s, qs);
        ps := ps + qs;
      }
    }
  }
}
