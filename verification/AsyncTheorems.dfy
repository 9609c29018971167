/** The promises of the asynchronous API, and where its code breaks them. */
module AsyncTheorems {
  import opened Bytes
  import opened Resp
  import opened Callbacks
  import opened Async
  import opened AsyncRuns
  import opened AsyncPromises

  // ----- Exactly once -----

  /** Each callback with the reply it is due: the i-th reply for the i-th one, NULL when there is none. */
  function Served(cbs: seq<Callback>, got: seq<Reply>): (r: seq<Run>)
    ensures |r| == |cbs| && forall i :: 0 <= i < |r| ==> r[i] == Run(cbs[i], Answer(got, i))
  {
    seq(|cbs|, i requires 0 <= i < |cbs| => Run(cbs[i], Answer(got, i)))
  }

  lemma TakenIsServed(taken: seq<Run>, got: seq<Reply>)
    requires Matched(taken, got)
    ensures taken == Served(Taken(taken), got)
  {
  }

  lemma GotArePrefix(i: Input)
    requires InputKept(i)
    ensures i.got <= ReadStream(i.received).replies
  {
    YieldsStream(i.received, i.got, i.unread);
  }

  /** The callbacks taken so far are the first accepted ones, with the replies they are due. */
  lemma TakenAreServed(s: State)
    requires Kept(s) && s.work.plain
    ensures var k, a, got := |s.work.replies.taken|, s.work.accepted, s.input.got;
            k <= |a| && s.runs == Invoked(Served(a[..k], got)) && got <= ReadStream(s.input.received).replies
  {
    var q := s.work.replies;
    GotArePrefix(s.input);
    TakenIsServed(q.taken, s.input.got);
    assert Taken(q.taken) == s.work.accepted[..|q.taken|];
  }

  /**
   In every run without subscriptions and monitoring, however it ends and whatever callbacks
   do while they run: the callbacks of the first commands accepted have been invoked, each
   once, in order, and with the reply of the stream that its command is due. While the
   connection is up these are as many as replies were read; once the context is released they
   are all, those without a reply having got NULL.
   */
  lemma ExactlyOnce(env: Env, events: seq<Event>)
    ensures var t := Session(env, events); var k, a, got := |t.work.replies.taken|, t.work.accepted, t.input.got;
            t.work.plain ==>
              && k <= |a| && t.runs == Invoked(Served(a[..k], got))
              && got <= ReadStream(t.input.received).replies
              && (t.life.teardowns == 0 && !t.life.err ==> k == |got|)
              && (t.life.frees > 0 ==> k == |a|)
  {
    var t := Session(env, events);
    SessionKeeps(env, events);
    if t.work.plain {
      TakenAreServed(t);
    }
  }

  // ----- Released once -----

  /**
   At any moment of any run, callbacks included: the context was torn down at most once and
   released at most once, the former only while commands are refused; the next step does
   either only outside callbacks; and a released context has nothing waiting.
   */
  lemma ReleasedOnce(ps: seq<Step>, p: Step)
    ensures var s := TakeAll(INIT, ps); var t := Take(s, p);
            && s.life.frees <= s.life.teardowns <= 1
            && (s.life.teardowns == 1 ==> Refusing(s.wishes))
            && (t.life.teardowns > s.life.teardowns || t.life.frees > s.life.frees ==> !s.inCallback && !t.inCallback)
            && (s.life.frees == 1 ==>
                  t == s && !s.inCallback && s.work.replies.waiting == [] == s.work.invalid.waiting)
  {
    StepsKeep(ps);
  }

  /** A run that is not over has not begun a teardown, nor does a failed assertion begin one. */
  lemma LiveIsNotTorn(env: Env, events: seq<Event>)
    ensures var l := Session(env, events).life;
            && (!Over(l) || l.failed.Some? ==> l.teardowns == l.frees == 0)
            && (l.failed.Some? ==> Violates(Session(env, events), l.failed.value))
  {
    SessionKeeps(env, events);
  }

  /** Commands are sent as they were accepted, without loss or reordering, however write() cuts them. */
  lemma OutputConserved(env: Env, events: seq<Event>)
    ensures var o := Session(env, events).work.output; o.sent + o.obuf == Concat(o.appended)
  {
    SessionKeeps(env, events);
  }

  // ----- Messages -----

  /** The callback registered last for a name, if no unsubscription came after that. */
  function Subscriber(log: seq<SubEvent>, pattern: bool, name: bytes): Option<Callback> {
    var i := LastAbout(log, pattern, name);
    if i >= 0 && log[i].Registered? then Some(log[i].cb) else None
  }

  /** A message says what kind it is, for which name, and, if it ends a subscription, how many are left. */
  predicate WellFormed(u: Subs, elems: seq<Reply>) {
    && |elems| >= 2 && elems[0].Str? && elems[1].Str?
    && (IsUnsubscribe(elems[0].text) && Subscriber(u.log, IsPattern(elems[0].text), elems[1].text).Some?
        ==> |elems| >= 3 && elems[2].Integer?)
  }

  /** Where the dictionaries, and a fallback for names that are not in them, send a message. */
  lemma MessageFollowsRegistry(w: Work, elems: seq<Reply>, last: Callback)
    requires SubsKept(w.subs) && w.subscribed
    ensures var r := RouteMessage(w, elems, last);
            if !WellFormed(w.subs, elems) then r == Broken(BadMessage) else
              var text, name := elems[0].text, elems[1].text;
              var to := Subscriber(w.subs.log, IsPattern(text), name);
              var ends := to.Some? && IsUnsubscribe(text);
              && r.To? && r.cb == (if to.Some? then to.value else last)
              && r.work.subs.log == w.subs.log + (if ends then [Dropped(IsPattern(text), name)] else [])
              && (r.work.subscribed <==> !ends || elems[2].n != 0)
  {
    if |elems| >= 2 && elems[0].Str? && elems[1].Str? {
      var p := IsPattern(elems[0].text);
      assert Table(w.subs, p) == Registry(w.subs.log, p);
      LastRegistrationWins(w.subs.log, p, elems[1].text);
    }
  }

  /** Delivering a reply invokes the callback that it is routed to, with the reply. */
  lemma DeliveredTo(s: State)
    requires !Over(s.life) && Reading(s) && NextRoute(s).To?
    ensures var t, r := Take(s, Delivering), NextRoute(s);
            && t.work == r.work && t.input.last == r.cb
            && t.runs == s.runs + Invocation(r.cb, Some(ParseReply(s.input.unread, 0).reply))
  {
  }

  /**
   At any moment of any run: a message that no regular callback is waiting before invokes the
   callback registered last for its channel or pattern. One for a name that is not registered
   falls back on the callback of the reply before it in the same read. An assertion fails
   exactly when the message is not well formed.
   */
  lemma MessageRouted(ps: seq<Step>)
    requires var s := TakeAll(INIT, ps);
             && !Over(s.life) && Reading(s) && s.work.subscribed && s.work.replies.waiting == []
             && ParseReply(s.input.unread, 0).reply.Arr?
    ensures var s := TakeAll(INIT, ps); var reply := ParseReply(s.input.unread, 0).reply;
            if !WellFormed(s.work.subs, reply.elems) then NextRoute(s) == Broken(BadMessage) else
              var t := Take(s, Delivering);
              var text, name := reply.elems[0].text, reply.elems[1].text;
              var to := Subscriber(s.work.subs.log, IsPattern(text), name);
              var cb := if to.Some? then to.value else s.input.last;
              var ends := to.Some? && IsUnsubscribe(text);
              && t.runs == s.runs + Invocation(cb, Some(reply)) && t.input.last == cb
              && t.work.subs.log == s.work.subs.log + (if ends then [Dropped(IsPattern(text), name)] else [])
              && (t.work.subscribed <==> !ends || reply.elems[2].n != 0)
  {
    StepsKeep(ps);
    var s := TakeAll(INIT, ps);
    var elems := ParseReply(s.input.unread, 0).reply.elems;
    MessageFollowsRegistry(s.work, elems, s.input.last);
    assert NextRoute(s) == RouteMessage(s.work, elems, s.input.last);
    if NextRoute(s).To? {
      DeliveredTo(s);
    }
  }

  /** Whatever goes wrong, everything pending is invoked with NULL, once, and the context is released. */
  lemma FailRuns(env: Env, s: State)
    requires Idle(s) && Orderly(env, s.work.subs)
    ensures var t, w := Fail(env, s), s.work;
            && t.life == s.life.(err := true, teardowns := 1, frees := s.life.frees + 1) && t.input == s.input
            && t.work == w.(replies := Drained(w.replies), invalid := Drained(w.invalid))
            && t.runs == s.runs + Pending(env, w)
  {
    var l := s.life.(err := true, teardowns := s.life.teardowns + 1);
    PendingRuns(env, s.(life := l, wishes := s.wishes.(disconnecting := true)));
  }

  // ----- Where error replies go -----

  /** An error reply goes to the callback waiting in the list of replies; if there is none, it ends the connection. */
  lemma ErrorGoes(s: State)
    requires !Over(s.life) && Reading(s) && ParseReply(s.input.unread, 0).reply.Error?
    ensures NextRoute(s).Nowhere? <==> s.work.replies.waiting == []
    ensures var t, waiting := Take(s, Delivering), s.work.replies.waiting;
            waiting != [] ==>
              && t.runs == s.runs + Invocation(waiting[0], Some(ParseReply(s.input.unread, 0).reply))
              && t.work == ShiftLane(s.work, Replies, Some(ParseReply(s.input.unread, 0).reply))
  {
    if s.work.replies.waiting != [] {
      DeliveredTo(s);
    }
  }

  /**
   If there is none, also while subscribed: nothing pending gets the error, everything is
   invoked with NULL, and the context is released.
   */
  lemma ErrorsAreFatal(env: Env, s: State)
    requires Idle(s) && s.work.replies.waiting == [] && Orderly(env, s.work.subs)
    requires var p := ParseReply(s.input.unread, 0); p.Done? && p.reply.Error?
    ensures var t := Process(env, s);
            t.life.frees == s.life.frees + 1 && t.runs == s.runs + Pending(env, s.work) && t.work.invalid.waiting == []
  {
    var p := ParseReply(s.input.unread, 0);
    FailRuns(env, s.(input := Receive(s.input, p.reply, p.rest, s.input.last)));
  }

  predicate IsError(reply: Option<Reply>) {
    reply.Some? && reply.value.Error?
  }

  /** The invocations with an error reply, in order. */
  function ErrorRuns(runs: seq<Run>): seq<Run>
    decreases |runs|
  {
    if runs == [] then []
    else
      var before, r := ErrorRuns(runs[..|runs| - 1]), runs[|runs| - 1];
      if IsError(r.reply) then before + [r] else before
  }

  lemma ErrorRunsNext(runs: seq<Run>, cb: Callback, reply: Option<Reply>)
    ensures ErrorRuns(runs + Invocation(cb, reply))
            == ErrorRuns(runs) + if IsError(reply) then Invocation(cb, reply) else []
  {
    if cb.fn.Some? {
      assert (runs + [Run(cb, reply)])[..|runs|] == runs;
    } else {
      assert runs + [] == runs;
    }
  }

  /** Only what is taken off the list of replies is given an error, and without monitor commands that list is plain. */
  ghost predicate ErrorsKept(s: State) {
    && ErrorRuns(s.runs) == ErrorRuns(Invoked(s.work.replies.taken))
    && (!s.work.monitoring ==> s.work.replies.pushed == s.work.accepted)
  }

  /** A callback is taken off the list of replies, or one that waits elsewhere for something else than an error. */
  lemma ErrorsTake(s: State, t: State, cb: Callback, reply: Option<Reply>)
    requires ErrorsKept(s) && t.runs == s.runs + Invocation(cb, reply)
    requires t.work.monitoring == s.work.monitoring && t.work.accepted == s.work.accepted
    requires t.work.replies.pushed == s.work.replies.pushed
    requires || t.work.replies.taken == s.work.replies.taken + [Run(cb, reply)]
             || (t.work.replies.taken == s.work.replies.taken && !IsError(reply))
    ensures ErrorsKept(t)
  {
    InvokedNext(s.work.replies.taken, Run(cb, reply));
    ErrorRunsNext(s.runs, cb, reply);
    ErrorRunsNext(Invoked(s.work.replies.taken), cb, reply);
  }

  lemma ErrorsDeliver(s: State)
    requires ErrorsKept(s) && !Over(s.life) && Reading(s) && NextRoute(s).To?
    ensures ErrorsKept(Take(s, Delivering))
  {
    DeliveredTo(s);
    ErrorsTake(s, Take(s, Delivering), NextRoute(s).cb, Some(ParseReply(s.input.unread, 0).reply));
  }

  lemma ErrorsDrain(s: State, lane: Lane)
    requires ErrorsKept(s)
    ensures ErrorsKept(DrainOne(s, lane))
  {
    if LaneOf(s.work, lane).waiting != [] {
      ErrorsTake(s, DrainOne(s, lane), LaneOf(s.work, lane).waiting[0], None);
    }
  }

  lemma ErrorsAct(s: State, a: Action)
    requires ErrorsKept(s)
    ensures ErrorsKept(Act(s, a))
  {
  }

  lemma ErrorsStep(s: State, p: Step)
    requires ErrorsKept(s)
    ensures ErrorsKept(Take(s, p))
  {
    if Enabled(s, p) {
      match p {
        case Delivering =>
          if NextRoute(s).To? {
            ErrorsDeliver(s);
          }
        case Draining(lane) => ErrorsDrain(s, lane);
        case Dismissing(pattern, name) => ErrorsTake(s, Take(s, p), Table(s.work.subs, pattern)[name], None);
        case Acting(a) => ErrorsAct(s, a);
        case _ =>
      }
    }
  }

  lemma {:induction false} ErrorsAreTaken(ps: seq<Step>)
    ensures ErrorsKept(TakeAll(INIT, ps))
    decreases |ps|
  {
    if ps != [] {
      ErrorsAreTaken(ps[..|ps| - 1]);
      ErrorsStep(TakeAll(INIT, ps[..|ps| - 1]), ps[|ps| - 1]);
    }
  }

  /**
   In every run, in every mode: the invocations with an error reply are those of the callbacks
   taken off the list of replies with one, in that order. Unless a monitor command was accepted,
   what is taken off that list are the callbacks of the first regular commands accepted outside subscriptions.
   */
  lemma ErrorsGoToReplies(env: Env, events: seq<Event>)
    ensures var t := Session(env, events); var taken := t.work.replies.taken;
            && ErrorRuns(t.runs) == ErrorRuns(Invoked(taken))
            && (!t.work.monitoring ==> Taken(taken) <= t.work.accepted)
  {
    var ps := SessionSteps(env, events);
    ErrorsAreTaken(ps);
    SessionKeeps(env, events);
  }

  /**
   A callback leaves the list of invalid commands with a reply exactly when it is the first, no
   regular one waits, the context is subscribed, and the reply is neither an error nor an array.
   */
  lemma InvalidAnswered(s: State)
    requires !Over(s.life) && Reading(s)
    ensures var t, w, reply := Take(s, Delivering), s.work, ParseReply(s.input.unread, 0).reply;
            if w.invalid.waiting != [] && w.replies.waiting == [] && w.subscribed && !reply.Error? && !reply.Arr? then
              && t.work.invalid == Shift(w.invalid, Some(reply))
              && t.runs == s.runs + Invocation(w.invalid.waiting[0], Some(reply))
            else t.work.invalid == w.invalid
  {
    if NextRoute(s).To? {
      DeliveredTo(s);
    }
  }

  /** No callback was taken for an error or an array. */
  ghost predicate NoErrors(taken: seq<Run>) {
    forall r :: r in taken && r.reply.Some? ==> !r.reply.value.Error? && !r.reply.value.Arr?
  }

  lemma InvalidStep(s: State, p: Step)
    requires NoErrors(s.work.invalid.taken)
    ensures NoErrors(Take(s, p).work.invalid.taken)
  {
    if Enabled(s, p) {
      match p {
        case Delivering => InvalidAnswered(s);
        case Acting(a) =>
        case _ =>
      }
    }
  }

  /**
   At any moment of any run: no callback was taken off the list of invalid commands for an error
   reply, although the comment there expects one. What becomes of a callback taken off that list,
   which can be given further replies, is the subject of AsyncOrigins.
   */
  lemma {:induction false} InvalidGetsNoError(ps: seq<Step>)
    ensures NoErrors(TakeAll(INIT, ps).work.invalid.taken)
    decreases |ps|
  {
    if ps != [] {
      InvalidGetsNoError(ps[..|ps| - 1]);
      InvalidStep(TakeAll(INIT, ps[..|ps| - 1]), ps[|ps| - 1]);
    }
  }
}
