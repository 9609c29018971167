/**
 Which command each callback in the asynchronous protocol comes from. Marks follow the callbacks
 through the lists, the dictionaries and the invocations of a run, and say which commands' callbacks
 are given error replies.
 */
module AsyncOrigins {
  import opened Bytes
  import opened Resp
  import opened Callbacks
  import opened Async
  import opened AsyncRuns
  import opened AsyncPromises
  import opened AsyncTheorems

  // ----- Marks -----

  /** A regular command issued outside subscriptions, or while subscribed; a monitor command; a subscription. */
  datatype Station = Outside | Inside | Watcher | Listener

  datatype Accepted = Accepted(cb: Callback, station: Station)

  /** The command that a callback was passed with, and whether the callback was put back since. */
  datatype Origin = Nobody | Of(id: nat, station: Station, back: bool)

  /**
   All commands accepted with a callback, and the origin of each callback that waits in a list
   or in a dictionary, was taken last, or was invoked.
   */
  datatype Marks = Marks(
    issued: seq<Accepted>,
    replies: seq<Origin>,
    invalid: seq<Origin>,
    channels: map<bytes, Origin>,
    patterns: map<bytes, Origin>,
    last: Origin,
    runs: seq<Origin>)

  const UNMARKED := Marks([], [], [], map[], map[], Nobody, [])

  function PutBack(o: Origin): Origin {
    if o.Nobody? then o else o.(back := true)
  }

  function First(os: seq<Origin>): Origin {
    if os == [] then Nobody else os[0]
  }

  function Others(os: seq<Origin>): seq<Origin> {
    if os == [] then [] else os[1..]
  }

  function Named(m: Marks, pattern: bool): map<bytes, Origin> {
    if pattern then m.patterns else m.channels
  }

  function SetNamed(m: Marks, pattern: bool, os: map<bytes, Origin>): Marks {
    if pattern then m.(patterns := os) else m.(channels := os)
  }

  function At(os: map<bytes, Origin>, name: bytes): Origin {
    if name in os then os[name] else Nobody
  }

  /** The callback cb of that origin is run. */
  function Entered(m: Marks, cb: Callback, o: Origin): Marks {
    if cb.fn.None? then m else m.(runs := m.runs + [o])
  }

  function StationOf(w: Work, kind: CommandKind): Station
    requires !kind.Unsubscribe?
  {
    match kind
    case Subscribe(_) => Listener
    case Monitor => Watcher
    case Regular => if w.subscribed then Inside else Outside
  }

  function MarkCommand(w: Work, m: Marks, cmd: Command, cb: Callback): Marks {
    if cmd.kind.Unsubscribe? then m
    else
      var station := StationOf(w, cmd.kind);
      var o, n := Of(|m.issued|, station, false), m.(issued := m.issued + [Accepted(cb, station)]);
      match station
      case Listener => SetNamed(n, cmd.kind.pattern, Register(Named(m, cmd.kind.pattern), cmd.names, o))
      case Inside => n.(invalid := m.invalid + [o])
      case _ => n.(replies := m.replies + [o])
  }

  function MarkMessage(w: Work, m: Marks, elems: seq<Reply>): Marks {
    if |elems| < 2 || !elems[0].Str? || !elems[1].Str? then m
    else
      var p, name := IsPattern(elems[0].text), elems[1].text;
      if name !in Table(w.subs, p) then m
      else
        var n := m.(last := At(Named(m, p), name));
        if IsUnsubscribe(elems[0].text) then SetNamed(n, p, Named(m, p) - {name}) else n
  }

  /** A reply is routed; afterwards last is the origin of the callback it goes to. */
  function MarkRoute(w: Work, m: Marks, reply: Reply): Marks {
    if w.replies.waiting != [] then m.(replies := Others(m.replies), last := First(m.replies))
    else if !w.subscribed then m
    else if reply.Arr? then MarkMessage(w, m, reply.elems)
    else if w.invalid.waiting == [] then m
    else m.(invalid := Others(m.invalid), last := First(m.invalid))
  }

  function MarkDelivery(s: State, m: Marks): Marks {
    match ParseReply(s.input.unread, 0)
    case Done(reply, _) =>
      (match NextRoute(s)
       case To(_, cb) => var n := MarkRoute(s.work, m, reply); Entered(n, cb, n.last)
       case _ => m)
    case _ => m
  }

  function MarkDrain(w: Work, m: Marks, lane: Lane): Marks {
    if LaneOf(w, lane).waiting == [] then m
    else
      var cb := LaneOf(w, lane).waiting[0];
      if lane.Replies? then Entered(m.(replies := Others(m.replies)), cb, First(m.replies))
      else Entered(m.(invalid := Others(m.invalid)), cb, First(m.invalid))
  }

  function MarkAct(s: State, m: Marks, a: Action): Marks {
    if a.Issue? && !Refusing(s.wishes) then MarkCommand(s.work, m, a.cmd, a.cb) else m
  }

  /** What a step does to the marks. */
  function MarkStep(s: State, m: Marks, p: Step): Marks {
    if !Enabled(s, p) then m
    else match p
      case Acting(a) => MarkAct(s, m, a)
      case Arriving(_) => m.(last := Nobody)
      case Delivering => MarkDelivery(s, m)
      case Repushing => m.(replies := m.replies + [PutBack(m.last)])
      case Draining(lane) => MarkDrain(s.work, m, lane)
      case Dismissing(pattern, name) => Entered(m, Table(s.work.subs, pattern)[name], At(Named(m, pattern), name))
      case _ => m
  }

  /** The marks after a run from the start. */
  function MarksOf(ps: seq<Step>): Marks
    decreases |ps|
  {
    if ps == [] then UNMARKED
    else MarkStep(TakeAll(INIT, ps[..|ps| - 1]), MarksOf(ps[..|ps| - 1]), ps[|ps| - 1])
  }

  // ----- Marks are right -----

  /** The callback was passed with the command of the origin; without one it is the local variable as it starts. */
  predicate Owns(issued: seq<Accepted>, cb: Callback, o: Origin) {
    if o.Nobody? then cb == NO_CALLBACK else o.id < |issued| && issued[o.id] == Accepted(cb, o.station)
  }

  predicate OwnAll(issued: seq<Accepted>, cbs: seq<Callback>, os: seq<Origin>) {
    |os| == |cbs| && forall i :: 0 <= i < |os| ==> Owns(issued, cbs[i], os[i])
  }

  /** The callbacks of a dictionary belong to subscriptions. */
  predicate OwnTable(issued: seq<Accepted>, table: map<bytes, Callback>, os: map<bytes, Origin>) {
    os.Keys == table.Keys
    && forall name :: name in os ==> Owns(issued, table[name], os[name]) && os[name].Of? && os[name].station.Listener?
  }

  /** What may be in the list of replies: in monitor mode also monitor commands and what was put back. */
  predicate Regularly(monitoring: bool, o: Origin) {
    if o.Nobody? || o.back || o.station.Watcher? then monitoring else o.station.Outside?
  }

  ghost predicate RepliesMarked(monitoring: bool, issued: seq<Accepted>, cbs: seq<Callback>, os: seq<Origin>) {
    OwnAll(issued, cbs, os) && forall o :: o in os ==> Regularly(monitoring, o)
  }

  ghost predicate InvalidMarked(issued: seq<Accepted>, cbs: seq<Callback>, os: seq<Origin>) {
    OwnAll(issued, cbs, os) && forall o :: o in os ==> o.Of? && o.station.Inside? && !o.back
  }

  ghost predicate WorkMarked(w: Work, m: Marks) {
    && RepliesMarked(w.monitoring, m.issued, w.replies.waiting, m.replies)
    && InvalidMarked(m.issued, w.invalid.waiting, m.invalid)
    && OwnTable(m.issued, w.subs.channels, m.channels) && OwnTable(m.issued, w.subs.patterns, m.patterns)
  }

  /** Errors are only given to what was in the list of replies. */
  ghost predicate RunsMarked(monitoring: bool, runs: seq<Run>, m: Marks) {
    |m.runs| == |runs|
    && forall i :: 0 <= i < |runs| ==>
         && Owns(m.issued, runs[i].cb, m.runs[i]) && m.runs[i].Of?
         && (IsError(runs[i].reply) ==> Regularly(monitoring, m.runs[i]))
  }

  ghost predicate Marked(s: State, m: Marks) {
    && WorkMarked(s.work, m) && Owns(m.issued, s.input.last, m.last) && RunsMarked(s.work.monitoring, s.runs, m)
  }

  lemma {:induction false} RegisterOwns(issued: seq<Accepted>, table: map<bytes, Callback>, os: map<bytes, Origin>,
                                        names: seq<bytes>, cb: Callback, o: Origin)
    requires OwnTable(issued, table, os) && Owns(issued, cb, o) && o.Of? && o.station.Listener?
    ensures OwnTable(issued, Register(table, names, cb), Register(os, names, o))
    decreases |names|
  {
    if names != [] {
      RegisterOwns(issued, table, os, names[..|names| - 1], cb, o);
    }
  }

  lemma WorkLater(w: Work, m: Marks, a: Accepted)
    requires WorkMarked(w, m)
    ensures WorkMarked(w, m.(issued := m.issued + [a]))
  {
  }

  lemma RepliesPush(monitoring: bool, later: bool, issued: seq<Accepted>, cbs: seq<Callback>, os: seq<Origin>,
                    cb: Callback, o: Origin)
    requires RepliesMarked(monitoring, issued, cbs, os) && Owns(issued, cb, o)
    requires (monitoring ==> later) && Regularly(later, o)
    ensures RepliesMarked(later, issued, cbs + [cb], os + [o])
  {
  }

  lemma InvalidPush(issued: seq<Accepted>, cbs: seq<Callback>, os: seq<Origin>, cb: Callback, o: Origin)
    requires InvalidMarked(issued, cbs, os) && Owns(issued, cb, o) && o.Of? && o.station.Inside? && !o.back
    ensures InvalidMarked(issued, cbs + [cb], os + [o])
  {
  }

  lemma EnlistMarks(w: Work, m: Marks, cmd: Command, cb: Callback)
    requires WorkMarked(w, m) && !cmd.kind.Unsubscribe?
    ensures WorkMarked(Enlist(w, cmd.kind, cmd.names, cb), MarkCommand(w, m, cmd, cb))
  {
    var station, id := StationOf(w, cmd.kind), |m.issued|;
    WorkLater(w, m, Accepted(cb, station));
    var issued, o := m.issued + [Accepted(cb, station)], Of(id, station, false);
    match station {
      case Listener =>
        var p := cmd.kind.pattern;
        RegisterOwns(issued, Table(w.subs, p), Named(m, p), cmd.names, cb, o);
      case Inside => InvalidPush(issued, w.invalid.waiting, m.invalid, cb, o);
      case _ =>
        var later := w.monitoring || station.Watcher?;
        RepliesPush(w.monitoring, later, issued, w.replies.waiting, m.replies, cb, o);
    }
  }

  /** A command is accepted. */
  lemma CommandMarks(w: Work, m: Marks, cmd: Command, cb: Callback)
    requires WorkMarked(w, m)
    ensures var v, n := Submit(w, cmd, cb), MarkCommand(w, m, cmd, cb);
            && WorkMarked(v, n) && m.issued <= n.issued && n.runs == m.runs && n.last == m.last
            && (w.monitoring ==> v.monitoring)
  {
    if !cmd.kind.Unsubscribe? {
      EnlistMarks(w, m, cmd, cb);
    }
  }

  lemma RunsLater(monitoring: bool, later: bool, runs: seq<Run>, m: Marks, n: Marks)
    requires RunsMarked(monitoring, runs, m) && m.issued <= n.issued && n.runs == m.runs && (monitoring ==> later)
    ensures RunsMarked(later, runs, n)
  {
  }

  lemma EnteredMarks(monitoring: bool, runs: seq<Run>, m: Marks, cb: Callback, reply: Option<Reply>, o: Origin)
    requires RunsMarked(monitoring, runs, m) && Owns(m.issued, cb, o)
    requires IsError(reply) ==> Regularly(monitoring, o)
    ensures RunsMarked(monitoring, runs + Invocation(cb, reply), Entered(m, cb, o))
  {
  }

  /** A reply is routed. */
  lemma RouteMarks(w: Work, m: Marks, reply: Reply, last: Callback)
    requires WorkMarked(w, m) && Owns(m.issued, last, m.last) && RouteReply(w, reply, last).To?
    ensures var r, n := RouteReply(w, reply, last), MarkRoute(w, m, reply);
            && WorkMarked(r.work, n) && Owns(n.issued, r.cb, n.last) && n.issued == m.issued && n.runs == m.runs
            && r.work.monitoring == w.monitoring && (reply.Error? ==> Regularly(w.monitoring, n.last))
  {
    if w.replies.waiting == [] && w.subscribed && reply.Arr? {
      MessageMarks(w, m, reply.elems, last);
    }
  }

  lemma DropMarks(w: Work, m: Marks, pattern: bool, name: bytes, subscribed: bool, last: Origin)
    requires WorkMarked(w, m)
    ensures WorkMarked(w.(subs := DropName(w.subs, pattern, name), subscribed := subscribed),
                       SetNamed(m.(last := last), pattern, Named(m, pattern) - {name}))
  {
  }

  lemma MessageMarks(w: Work, m: Marks, elems: seq<Reply>, last: Callback)
    requires WorkMarked(w, m) && Owns(m.issued, last, m.last) && RouteMessage(w, elems, last).To?
    ensures var r, n := RouteMessage(w, elems, last), MarkMessage(w, m, elems);
            && WorkMarked(r.work, n) && Owns(n.issued, r.cb, n.last) && n.issued == m.issued && n.runs == m.runs
            && r.work.monitoring == w.monitoring
  {
    var p, name := IsPattern(elems[0].text), elems[1].text;
    if name in Table(w.subs, p) && IsUnsubscribe(elems[0].text) {
      DropMarks(w, m, p, name, elems[2].n != 0, Named(m, p)[name]);
    }
  }

  lemma DeliveryMarks(s: State, m: Marks)
    requires Marked(s, m)
    ensures Marked(Deliver(s), MarkDelivery(s, m))
  {
    var p := ParseReply(s.input.unread, 0);
    if p.Done? && NextRoute(s).To? {
      var r, n := NextRoute(s), MarkRoute(s.work, m, p.reply);
      RouteMarks(s.work, m, p.reply, s.input.last);
      RunsLater(s.work.monitoring, s.work.monitoring, s.runs, m, n);
      EnteredMarks(s.work.monitoring, s.runs, n, r.cb, Some(p.reply), n.last);
    }
  }

  lemma ShiftMarks(w: Work, m: Marks, lane: Lane)
    requires WorkMarked(w, m) && LaneOf(w, lane).waiting != []
    ensures var n := if lane.Replies? then m.(replies := Others(m.replies)) else m.(invalid := Others(m.invalid));
            WorkMarked(ShiftLane(w, lane, None), n)
    ensures Owns(m.issued, LaneOf(w, lane).waiting[0], First(if lane.Replies? then m.replies else m.invalid))
  {
  }

  lemma DrainMarks(s: State, m: Marks, lane: Lane)
    requires Marked(s, m)
    ensures Marked(DrainOne(s, lane), MarkDrain(s.work, m, lane))
  {
    if LaneOf(s.work, lane).waiting != [] {
      ShiftMarks(s.work, m, lane);
      var n := if lane.Replies? then m.(replies := Others(m.replies)) else m.(invalid := Others(m.invalid));
      var o := First(if lane.Replies? then m.replies else m.invalid);
      EnteredMarks(s.work.monitoring, s.runs, n, LaneOf(s.work, lane).waiting[0], None, o);
    }
  }

  lemma ActMarks(s: State, m: Marks, a: Action)
    requires Marked(s, m)
    ensures Marked(Act(s, a), MarkAct(s, m, a))
  {
    if a.Issue? && !Refusing(s.wishes) {
      CommandMarks(s.work, m, a.cmd, a.cb);
      var n := MarkCommand(s.work, m, a.cmd, a.cb);
      RunsLater(s.work.monitoring, Submit(s.work, a.cmd, a.cb).monitoring, s.runs, m, n);
    }
  }

  lemma RepushMarks(s: State, m: Marks)
    requires Marked(s, m) && s.work.monitoring
    ensures Marked(s.(work := s.work.(replies := Push(s.work.replies, s.input.last))),
                   m.(replies := m.replies + [PutBack(m.last)]))
  {
    RepliesPush(true, true, m.issued, s.work.replies.waiting, m.replies, s.input.last, PutBack(m.last));
  }

  lemma DismissMarks(s: State, m: Marks, pattern: bool, name: bytes)
    requires Marked(s, m) && name in Table(s.work.subs, pattern)
    ensures var cb := Table(s.work.subs, pattern)[name];
            Marked(Begin(s, cb, None), Entered(m, cb, At(Named(m, pattern), name)))
  {
    EnteredMarks(s.work.monitoring, s.runs, m, Table(s.work.subs, pattern)[name], None, Named(m, pattern)[name]);
  }

  lemma StepMarks(s: State, m: Marks, p: Step)
    requires Marked(s, m)
    ensures Marked(Take(s, p), MarkStep(s, m, p))
  {
    if Enabled(s, p) {
      match p {
        case Acting(a) => ActMarks(s, m, a);
        case Delivering => DeliveryMarks(s, m);
        case Draining(lane) => DrainMarks(s, m, lane);
        case Dismissing(pattern, name) => DismissMarks(s, m, pattern, name);
        case Repushing => RepushMarks(s, m);
        case _ =>
      }
    }
  }

  lemma {:induction false} StepsMark(ps: seq<Step>)
    ensures Marked(TakeAll(INIT, ps), MarksOf(ps))
    decreases |ps|
  {
    if ps != [] {
      StepsMark(ps[..|ps| - 1]);
      StepMarks(TakeAll(INIT, ps[..|ps| - 1]), MarksOf(ps[..|ps| - 1]), ps[|ps| - 1]);
    }
  }

  // ----- Marks are complete -----

  /** The callbacks passed with commands of a kind, in order. */
  function Those(issued: seq<Accepted>, station: Station): seq<Callback>
    decreases |issued|
  {
    if issued == [] then []
    else
      var before, a := Those(issued[..|issued| - 1], station), issued[|issued| - 1];
      if a.station == station then before + [a.cb] else before
  }

  lemma ThoseNext(issued: seq<Accepted>, a: Accepted, station: Station)
    ensures Those(issued + [a], station) == Those(issued, station) + if a.station == station then [a.cb] else []
  {
    assert (issued + [a])[..|issued|] == issued;
  }

  /** Every command accepted is marked, as one issued outside subscriptions or while subscribed. */
  ghost predicate Complete(w: Work, m: Marks) {
    Those(m.issued, Outside) == w.accepted && Those(m.issued, Inside) == w.invalid.pushed
  }

  lemma CompleteCommand(w: Work, m: Marks, cmd: Command, cb: Callback)
    requires Complete(w, m)
    ensures Complete(Submit(w, cmd, cb), MarkCommand(w, m, cmd, cb))
  {
    if !cmd.kind.Unsubscribe? {
      var a := Accepted(cb, StationOf(w, cmd.kind));
      ThoseNext(m.issued, a, Outside);
      ThoseNext(m.issued, a, Inside);
    }
  }

  lemma CompleteAct(s: State, m: Marks, a: Action)
    requires Complete(s.work, m)
    ensures Complete(Act(s, a).work, MarkAct(s, m, a))
  {
    if a.Issue? {
      CompleteCommand(s.work, m, a.cmd, a.cb);
    }
  }

  lemma NoneRouted(w: Work, m: Marks, reply: Reply, last: Callback)
    requires RouteReply(w, reply, last).To?
    ensures var v := RouteReply(w, reply, last).work; v.accepted == w.accepted && v.invalid.pushed == w.invalid.pushed
    ensures MarkRoute(w, m, reply).issued == m.issued
  {
  }

  lemma NoneIssued(s: State, m: Marks, p: Step)
    requires !p.Acting?
    ensures var v, w := Take(s, p).work, s.work; v.accepted == w.accepted && v.invalid.pushed == w.invalid.pushed
    ensures MarkStep(s, m, p).issued == m.issued
  {
    if p.Delivering? && ParseReply(s.input.unread, 0).Done? && NextRoute(s).To? {
      NoneRouted(s.work, m, ParseReply(s.input.unread, 0).reply, s.input.last);
    }
  }

  lemma CompleteStep(s: State, m: Marks, p: Step)
    requires Complete(s.work, m)
    ensures Complete(Take(s, p).work, MarkStep(s, m, p))
  {
    if p.Acting? {
      CompleteAct(s, m, p.a);
    } else {
      NoneIssued(s, m, p);
    }
  }

  lemma {:induction false} StepsComplete(ps: seq<Step>)
    ensures Complete(TakeAll(INIT, ps).work, MarksOf(ps))
    decreases |ps|
  {
    if ps != [] {
      StepsComplete(ps[..|ps| - 1]);
      CompleteStep(TakeAll(INIT, ps[..|ps| - 1]), MarksOf(ps[..|ps| - 1]), ps[|ps| - 1]);
    }
  }

  lemma MarksNext(ps: seq<Step>, p: Step)
    ensures TakeAll(INIT, ps + [p]) == Take(TakeAll(INIT, ps), p)
    ensures MarksOf(ps + [p]) == MarkStep(TakeAll(INIT, ps), MarksOf(ps), p)
  {
    assert (ps + [p])[..|ps|] == ps;
  }

  // ----- Who is given error replies -----

  /**
   At any moment of any run: every callback that was invoked was passed with a command accepted
   before. If it was given an error, that is a regular command issued outside subscriptions; in
   monitor mode it may also be a monitor command, or the callback was put back after a read.
   */
  lemma ErrorsBelong(ps: seq<Step>)
    ensures var s, m := TakeAll(INIT, ps), MarksOf(ps);
            && Those(m.issued, Outside) == s.work.accepted && Those(m.issued, Inside) == s.work.invalid.pushed
            && |m.runs| == |s.runs|
            && forall i :: 0 <= i < |s.runs| ==> var r, o := s.runs[i], m.runs[i];
                 && o.Of? && o.id < |m.issued| && m.issued[o.id] == Accepted(r.cb, o.station)
                 && (IsError(r.reply) ==>
                       if s.work.monitoring then o.back || o.station.Outside? || o.station.Watcher?
                       else !o.back && o.station.Outside?)
  {
    StepsMark(ps);
    StepsComplete(ps);
  }

  /**
   Nobody waits for the reply: it is no error, and a message for a name that is not registered,
   or there is nothing in the list of invalid commands, or it comes in monitor mode alone.
   */
  predicate Unclaimed(w: Work, reply: Reply) {
    && w.replies.waiting == [] && !reply.Error?
    && if !w.subscribed then w.monitoring
       else if !reply.Arr? then w.invalid.waiting == []
       else && |reply.elems| >= 2 && reply.elems[0].Str? && reply.elems[1].Str?
            && reply.elems[1].text !in Table(w.subs, IsPattern(reply.elems[0].text))
  }

  /** Such a reply is taken to the callback of the reply before. */
  predicate FallsBack(s: State)
    requires ParseReply(s.input.unread, 0).Done?
  {
    Unclaimed(s.work, ParseReply(s.input.unread, 0).reply)
  }

  /** The step gives the next reply to the callback of that origin. */
  ghost predicate Gives(s: State, m: Marks, o: Origin)
    requires ParseReply(s.input.unread, 0).Done? && o.Of? && o.id < |m.issued|
  {
    MarkStep(s, m, Delivering).runs == m.runs + [o]
    && Take(s, Delivering).runs == s.runs + [Run(m.issued[o.id].cb, Some(ParseReply(s.input.unread, 0).reply))]
  }

  lemma GivesLast(s: State, m: Marks, o: Origin)
    requires Marked(s, m) && !Over(s.life) && Reading(s)
    requires o.Of? && o.id < |m.issued| && m.issued[o.id].cb.fn.Some?
    ensures Gives(s, m, o) <==> NextRoute(s).To? && MarkRoute(s.work, m, ParseReply(s.input.unread, 0).reply).last == o
  {
    var reply := ParseReply(s.input.unread, 0).reply;
    if NextRoute(s).To? {
      RouteMarks(s.work, m, reply, s.input.last);
      var last := MarkRoute(s.work, m, reply).last;
      assert last != o ==> (m.runs + [last])[|m.runs|] != (m.runs + [o])[|m.runs|];
    }
  }

  lemma InsideRoute(s: State, m: Marks, o: Origin)
    requires Marked(s, m) && Reading(s) && o.Of? && o.station.Inside?
    ensures var reply := ParseReply(s.input.unread, 0).reply;
            NextRoute(s).To? && MarkRoute(s.work, m, reply).last == o <==>
              || (o.back && m.replies != [] && m.replies[0] == o)
              || (!o.back && m.replies == [] && s.work.subscribed && !reply.Error? && !reply.Arr?
                  && m.invalid != [] && m.invalid[0] == o)
              || (FallsBack(s) && m.last == o)
  {
    assert m.replies != [] ==> m.replies[0] in m.replies;
    assert m.invalid != [] ==> m.invalid[0] in m.invalid;
  }

  /**
   At any moment of any run, for the callback of a command issued while subscribed: it is given
   the next reply exactly when it was put back and is the first in the list of replies; or that
   list is empty, and it is the first in its own and the reply is neither an error nor an
   array, or it was taken for the reply before and the next one falls back on that.
   */
  lemma InsideIsGiven(ps: seq<Step>, o: Origin)
    requires var s, m := TakeAll(INIT, ps), MarksOf(ps);
             && !Over(s.life) && Reading(s)
             && o.Of? && o.station.Inside? && o.id < |m.issued| && m.issued[o.id].cb.fn.Some?
    ensures var s, m := TakeAll(INIT, ps), MarksOf(ps); var reply := ParseReply(s.input.unread, 0).reply;
            Gives(s, m, o) <==>
              || (o.back && m.replies != [] && m.replies[0] == o)
              || (!o.back && m.replies == [] && s.work.subscribed && !reply.Error? && !reply.Arr?
                  && m.invalid != [] && m.invalid[0] == o)
              || (FallsBack(s) && m.last == o)
  {
    StepsMark(ps);
    GivesLast(TakeAll(INIT, ps), MarksOf(ps), o);
    InsideRoute(TakeAll(INIT, ps), MarksOf(ps), o);
  }

  /**
   So it is given an error exactly when it was put back and is the first in the list of
   replies: never while it waits for its own reply.
   */
  lemma InsideIsGivenError(ps: seq<Step>, o: Origin)
    requires var s, m := TakeAll(INIT, ps), MarksOf(ps);
             && !Over(s.life) && Reading(s) && ParseReply(s.input.unread, 0).reply.Error?
             && o.Of? && o.station.Inside? && o.id < |m.issued| && m.issued[o.id].cb.fn.Some?
    ensures var s, m := TakeAll(INIT, ps), MarksOf(ps);
            Gives(s, m, o) <==> o.back && m.replies != [] && m.replies[0] == o
  {
    InsideIsGiven(ps, o);
  }

  lemma RouteShrinks(w: Work, m: Marks, reply: Reply, o: Origin)
    requires o in MarkRoute(w, m, reply).replies
    ensures o in m.replies
  {
  }

  lemma NotPutBack(s: State, m: Marks, p: Step, o: Origin)
    requires o.Of? && o.back && o !in m.replies && !p.Repushing?
    ensures o !in MarkStep(s, m, p).replies
  {
    if p.Delivering? && o in MarkStep(s, m, p).replies {
      RouteShrinks(s.work, m, ParseReply(s.input.unread, 0).reply, o);
    }
  }

  lemma RepliesGrow(s: State, m: Marks, p: Step, o: Origin)
    requires o.Of? && o.back && o !in m.replies
    ensures o in MarkStep(s, m, p).replies <==>
              p.Repushing? && Enabled(s, p) && m.last.Of? && o == m.last.(back := true)
  {
    if !p.Repushing? {
      NotPutBack(s, m, p, o);
    }
  }

  /**
   A callback is put back only at the end of a read in monitor mode, and it is the one that was
   taken for the last reply of that read.
   */
  lemma PutBackAtEnd(ps: seq<Step>, p: Step, o: Origin)
    requires o.Of? && o.back && o !in MarksOf(ps).replies
    ensures var s, m := TakeAll(INIT, ps), MarksOf(ps);
            o in MarksOf(ps + [p]).replies <==>
              p.Repushing? && Enabled(s, p) && m.last.Of? && o == m.last.(back := true)
  {
    MarksNext(ps, p);
    RepliesGrow(TakeAll(INIT, ps), MarksOf(ps), p, o);
  }
}
