/** What the asynchronous protocol promises over every run. */
module AsyncPromises {
  import opened Bytes
  import opened Resp
  import opened Callbacks
  import opened Async
  import opened AsyncRuns

  // ----- Callback lists are first in, first out -----

  function Taken(taken: seq<Run>): (r: seq<Callback>)
    ensures |r| == |taken| && forall i :: 0 <= i < |r| ==> r[i] == taken[i].cb
  {
    seq(|taken|, i requires 0 <= i < |taken| => taken[i].cb)
  }

  ghost predicate Fifo(q: Queue) {
    q.pushed == Taken(q.taken) + q.waiting
  }

  lemma PushKeeps(q: Queue, cb: Callback)
    requires Fifo(q)
    ensures Fifo(Push(q, cb))
  {
  }

  lemma ShiftKeeps(q: Queue, reply: Option<Reply>)
    requires Fifo(q) && q.waiting != []
    ensures Fifo(Shift(q, reply))
  {
    assert Taken(Shift(q, reply).taken) == Taken(q.taken) + [q.waiting[0]];
  }

  ghost predicate LanesKept(w: Work) {
    Fifo(w.replies) && Fifo(w.invalid)
  }

  lemma ShiftLaneKeeps(w: Work, lane: Lane, reply: Option<Reply>)
    requires LanesKept(w) && LaneOf(w, lane).waiting != []
    ensures LanesKept(ShiftLane(w, lane, reply))
  {
    ShiftKeeps(LaneOf(w, lane), reply);
  }

  lemma LanesStep(s: State, p: Step)
    requires LanesKept(s.work)
    ensures LanesKept(Take(s, p).work)
  {
    if Enabled(s, p) {
      match p {
        case Acting(a) =>
          if a.Issue? {
            PushKeeps(s.work.replies, a.cb);
            PushKeeps(s.work.invalid, a.cb);
          }
        case Delivering => DeliverLanes(s);
        case Repushing => PushKeeps(s.work.replies, s.input.last);
        case Draining(lane) =>
          if LaneOf(s.work, lane).waiting != [] {
            ShiftLaneKeeps(s.work, lane, None);
          }
        case _ =>
      }
    }
  }

  lemma DeliverLanes(s: State)
    requires LanesKept(s.work)
    ensures LanesKept(Deliver(s).work)
  {
    var p := ParseReply(s.input.unread, 0);
    if p.Done? {
      if s.work.replies.waiting != [] {
        ShiftLaneKeeps(s.work, Replies, Some(p.reply));
      } else if s.work.invalid.waiting != [] {
        ShiftLaneKeeps(s.work, Invalid, Some(p.reply));
      }
    }
  }

  // ----- The dictionaries are what the subscriptions so far make of them -----

  /** The callbacks that a history of registrations and unsubscriptions leaves, for channels or patterns. */
  function Registry(log: seq<SubEvent>, pattern: bool): map<bytes, Callback>
    decreases |log|
  {
    if log == [] then map[]
    else
      var before, e := Registry(log[..|log| - 1], pattern), log[|log| - 1];
      if e.pattern != pattern then before
      else match e
        case Registered(_, name, cb) => before[name := cb]
        case Dropped(_, name) => before - {name}
  }

  /** The last event in the history about the name, -1 if there is none. */
  function LastAbout(log: seq<SubEvent>, pattern: bool, name: bytes): (i: int)
    ensures -1 <= i < |log|
    ensures i >= 0 ==> log[i].pattern == pattern && log[i].name == name
    ensures forall j :: i < j < |log| ==> log[j].pattern != pattern || log[j].name != name
    decreases |log|
  {
    if log == [] then -1
    else if log[|log| - 1].pattern == pattern && log[|log| - 1].name == name then |log| - 1
    else LastAbout(log[..|log| - 1], pattern, name)
  }

  /** A name is registered exactly when the last event about it is a registration, with that callback. */
  lemma {:induction false} LastRegistrationWins(log: seq<SubEvent>, pattern: bool, name: bytes)
    ensures var i := LastAbout(log, pattern, name); var r := Registry(log, pattern);
            && (name in r <==> i >= 0 && log[i].Registered?)
            && (name in r ==> r[name] == log[i].cb)
    decreases |log|
  {
    if log != [] {
      LastRegistrationWins(log[..|log| - 1], pattern, name);
    }
  }

  ghost predicate SubsKept(u: Subs) {
    forall pattern :: Table(u, pattern) == Registry(u.log, pattern)
  }

  lemma RegistryNext(log: seq<SubEvent>, e: SubEvent)
    ensures Registry(log + [e], !e.pattern) == Registry(log, !e.pattern)
    ensures e.Registered? ==> Registry(log + [e], e.pattern) == Registry(log, e.pattern)[e.name := e.cb]
    ensures e.Dropped? ==> Registry(log + [e], e.pattern) == Registry(log, e.pattern) - {e.name}
  {
    assert (log + [e])[..|log|] == log;
  }

  lemma {:induction false} RegistrationsKept(log: seq<SubEvent>, pattern: bool, names: seq<bytes>, cb: Callback)
    ensures var l := log + Registrations(pattern, names, cb);
            && Registry(l, pattern) == Register(Registry(log, pattern), names, cb)
            && Registry(l, !pattern) == Registry(log, !pattern)
    decreases |names|
  {
    if names == [] {
      assert log + Registrations(pattern, names, cb) == log;
    } else {
      var before, e := names[..|names| - 1], Registered(pattern, names[|names| - 1], cb);
      RegistrationsKept(log, pattern, before, cb);
      RegistryNext(log + Registrations(pattern, before, cb), e);
      Assoc(log, Registrations(pattern, before, cb), [e]);
    }
  }

  lemma SubsSubscribe(u: Subs, pattern: bool, names: seq<bytes>, cb: Callback)
    requires SubsKept(u)
    ensures SubsKept(SubscribeTo(u, pattern, names, cb))
  {
    assert Table(u, pattern) == Registry(u.log, pattern) && Table(u, !pattern) == Registry(u.log, !pattern);
    RegistrationsKept(u.log, pattern, names, cb);
    var v := SubscribeTo(u, pattern, names, cb);
    assert Table(v, pattern) == Registry(v.log, pattern) && Table(v, !pattern) == Registry(v.log, !pattern);
  }

  lemma SubsDrop(u: Subs, pattern: bool, name: bytes)
    requires SubsKept(u)
    ensures SubsKept(DropName(u, pattern, name))
  {
    assert Table(u, pattern) == Registry(u.log, pattern) && Table(u, !pattern) == Registry(u.log, !pattern);
    RegistryNext(u.log, Dropped(pattern, name));
    var v := DropName(u, pattern, name);
    assert Table(v, pattern) == Registry(v.log, pattern) && Table(v, !pattern) == Registry(v.log, !pattern);
  }

  /** The dictionaries change in two ways only. */
  lemma SubsSteps(s: State, p: Step) returns (pattern: bool, name: bytes)
    ensures var u, v := s.work.subs, Take(s, p).work.subs;
            || v == u || v == DropName(u, pattern, name)
            || (p.Acting? && p.a.Issue? && v == SubscribeTo(u, pattern, p.a.cmd.names, p.a.cb))
  {
    if p.Acting? && p.a.Issue? && p.a.cmd.kind.Subscribe? {
      pattern, name := p.a.cmd.kind.pattern, [];
    } else if p.Delivering? {
      pattern, name := DeliverSubs(s);
    } else {
      pattern, name := false, [];
    }
  }

  lemma DeliverSubs(s: State) returns (pattern: bool, name: bytes)
    ensures var u, v := s.work.subs, Deliver(s).work.subs; v == u || v == DropName(u, pattern, name)
  {
    pattern, name := false, [];
    match ParseReply(s.input.unread, 0) {
      case Done(Arr(_, elems), _) =>
        if |elems| >= 2 && elems[0].Str? && elems[1].Str? {
          pattern, name := IsPattern(elems[0].text), elems[1].text;
        }
      case _ =>
    }
  }

  lemma SubsStep(s: State, p: Step)
    requires SubsKept(s.work.subs)
    ensures SubsKept(Take(s, p).work.subs)
  {
    var pattern, name := SubsSteps(s, p);
    SubsDrop(s.work.subs, pattern, name);
    if p.Acting? && p.a.Issue? {
      SubsSubscribe(s.work.subs, pattern, p.a.cmd.names, p.a.cb);
    }
  }

  // ----- Output and input are conserved -----

  /** Bytes written followed by the buffer are the commands appended, one after the other. */
  ghost predicate OutputKept(o: Output) {
    Concat(o.appended) == o.sent + o.obuf
  }

  lemma AppendKeeps(o: Output, wire: bytes)
    requires OutputKept(o)
    ensures OutputKept(AppendCommand(o, wire))
  {
    ConcatAppend(o.appended, [wire]);
    assert Concat([wire]) == wire + Concat([]) == wire;
    Assoc(o.sent, o.obuf, wire);
  }

  lemma WrittenKeeps(o: Output, n: nat)
    requires OutputKept(o)
    ensures OutputKept(Written(o, n))
  {
    if n < |o.obuf| {
      assert o.obuf == o.obuf[..n] + o.obuf[n..];
      Assoc(o.sent, o.obuf[..n], o.obuf[n..]);
    } else {
      assert o.sent + o.obuf + [] == o.sent + o.obuf;
    }
  }

  /** Output changes in two ways only. */
  lemma OutputSteps(s: State, p: Step)
    ensures var o, u := s.work.output, Take(s, p).work.output;
            || u == o || (p.Departing? && u == Written(o, p.n))
            || (p.Acting? && p.a.Issue? && u == AppendCommand(o, p.a.cmd.wire))
  {
  }

  lemma OutputStep(s: State, p: Step)
    requires OutputKept(s.work.output)
    ensures OutputKept(Take(s, p).work.output)
  {
    OutputSteps(s, p);
    if p.Acting? && p.a.Issue? {
      AppendKeeps(s.work.output, p.a.cmd.wire);
    }
    if p.Departing? {
      WrittenKeeps(s.work.output, p.n);
    }
  }

  /** The replies given out and the bytes held are what there is to read in the bytes received. */
  ghost predicate InputKept(i: Input) {
    Yields(i.received, i.got, i.unread)
  }

  lemma FeedKeeps(i: Input, chunk: bytes)
    requires InputKept(i)
    ensures InputKept(Feed(i, chunk))
  {
    YieldsAppend(i.received, i.got, i.unread, chunk);
  }

  lemma ReceiveKeeps(i: Input, cb: Callback)
    requires InputKept(i) && ParseReply(i.unread, 0).Done?
    ensures var p := ParseReply(i.unread, 0); InputKept(Receive(i, p.reply, p.rest, cb))
  {
    YieldsNext(i.received, i.got, i.unread);
  }

  /** Input changes in two ways only. */
  lemma InputSteps(s: State, p: Step)
    ensures var i, j, q := s.input, Take(s, p).input, ParseReply(s.input.unread, 0);
            j == i || (p.Arriving? && j == Feed(i, p.chunk)) || (q.Done? && j == Receive(i, q.reply, q.rest, j.last))
  {
  }

  lemma InputStep(s: State, p: Step)
    requires InputKept(s.input)
    ensures InputKept(Take(s, p).input)
  {
    InputSteps(s, p);
    if p.Arriving? {
      FeedKeeps(s.input, p.chunk);
    }
    if ParseReply(s.input.unread, 0).Done? {
      ReceiveKeeps(s.input, Take(s, p).input.last);
    }
  }

  // ----- A context is torn down and released once, and not after a failed assertion -----

  ghost predicate LifeKept(s: State) {
    && s.life.frees <= s.life.teardowns <= 1
    && (s.life.teardowns == 1 ==> Refusing(s.wishes))
    && (s.life.frees == 1 ==> !s.inCallback && s.work.replies.waiting == [] == s.work.invalid.waiting)
  }

  lemma LifeStep(s: State, p: Step)
    requires LifeKept(s)
    ensures LifeKept(Take(s, p))
  {
  }

  /** A failed assertion is one that does not hold, and ends the run by itself. */
  ghost predicate FailureKept(s: State) {
    s.life.failed.Some? ==>
      Violates(s, s.life.failed.value) && s.life.frees == s.life.teardowns == 0 && !s.life.impossible
  }

  lemma FailureStep(s: State, p: Step)
    requires FailureKept(s) && LifeKept(s)
    ensures FailureKept(Take(s, p))
  {
  }

  // ----- Without subscriptions and monitoring: one reply for one command -----

  /** The reply that the i-th callback is due: NULL if none came. */
  function Answer(got: seq<Reply>, i: nat): Option<Reply> {
    if i < |got| then Some(got[i]) else None
  }

  ghost predicate PlainWork(w: Work) {
    && !w.subscribed && !w.monitoring && w.invalid == EMPTY && w.subs == Subs([], map[], map[])
    && w.accepted == w.replies.pushed
  }

  ghost predicate Matched(taken: seq<Run>, got: seq<Reply>) {
    forall i :: 0 <= i < |taken| ==> taken[i].reply == Answer(got, i)
  }

  /** Callbacks taken and replies read go together, until an error reply comes unasked or teardown begins. */
  ghost predicate Balanced(s: State) {
    var q, got := s.work.replies, s.input.got;
    && (s.life.teardowns == 0 && !s.life.err ==> |got| == |q.taken|)
    && (|got| > |q.taken| ==> q.waiting == [] && Refusing(s.wishes))
  }

  ghost predicate PlainKept(s: State) {
    s.work.plain ==>
      && PlainWork(s.work) && Matched(s.work.replies.taken, s.input.got) && Balanced(s)
      && s.runs == Invoked(s.work.replies.taken)
  }

  lemma PlainIssue(s: State, a: Action)
    requires PlainKept(s)
    ensures PlainKept(Act(s, a))
  {
  }

  /** A callback is taken, for the next reply or at teardown. */
  lemma PlainTake(s: State, t: State, i: Input, reply: Option<Reply>)
    requires PlainKept(s) && s.work.plain && s.work.replies.waiting != [] && s.input.got <= i.got
    requires reply == Answer(i.got, |s.work.replies.taken|)
    requires if reply.Some? then !s.life.err && s.life.teardowns == 0 && |i.got| == |s.input.got| + 1
             else s.life.teardowns > 0 && i.got == s.input.got
    requires t == Begin(s.(work := ShiftLane(s.work, Replies, reply), input := i), s.work.replies.waiting[0], reply)
    ensures PlainKept(t)
  {
    var q := s.work.replies;
    InvokedNext(q.taken, Run(q.waiting[0], reply));
  }

  lemma PlainDeliver(s: State)
    requires PlainKept(s) && Reading(s)
    ensures PlainKept(Deliver(s))
  {
    var p := ParseReply(s.input.unread, 0);
    if s.work.plain && s.work.replies.waiting != [] {
      PlainTake(s, Deliver(s), Deliver(s).input, Some(p.reply));
    }
  }

  lemma PlainLose(s: State)
    requires PlainKept(s) && Reading(s)
    ensures PlainKept(Lose(s))
  {
  }

  lemma PlainDrain(s: State, lane: Lane)
    requires PlainKept(s) && s.life.teardowns > 0
    ensures PlainKept(DrainOne(s, lane))
  {
    if s.work.plain && lane.Replies? && s.work.replies.waiting != [] {
      PlainTake(s, DrainOne(s, lane), s.input, None);
    }
  }

  lemma PlainStep(s: State, p: Step)
    requires PlainKept(s)
    ensures PlainKept(Take(s, p))
  {
    if Enabled(s, p) {
      match p {
        case Acting(a) => PlainIssue(s, a);
        case Delivering => PlainDeliver(s);
        case Losing => PlainLose(s);
        case Draining(lane) => PlainDrain(s, lane);
        case _ =>
      }
    }
  }

  // ----- Every run keeps all of this -----

  ghost predicate Kept(s: State) {
    LanesKept(s.work) && SubsKept(s.work.subs) && OutputKept(s.work.output) && InputKept(s.input) && LifeKept(s)
    && FailureKept(s) && PlainKept(s)
  }

  lemma StepKeeps(s: State, p: Step)
    requires Kept(s)
    ensures Kept(Take(s, p))
  {
    LanesStep(s, p);
    SubsStep(s, p);
    OutputStep(s, p);
    InputStep(s, p);
    LifeStep(s, p);
    FailureStep(s, p);
    PlainStep(s, p);
  }

  lemma {:induction false} StepsKeep(ps: seq<Step>)
    ensures Kept(TakeAll(INIT, ps))
    decreases |ps|
  {
    if ps != [] {
      StepsKeep(ps[..|ps| - 1]);
      StepKeeps(TakeAll(INIT, ps[..|ps| - 1]), ps[|ps| - 1]);
    }
  }

  /** The invariant of the protocol: it holds after any events, whatever the callbacks did meanwhile. */
  lemma SessionKeeps(env: Env, events: seq<Event>)
    ensures Kept(Session(env, events))
  {
    var ps := SessionSteps(env, events);
    StepsKeep(ps);
  }
}
