/**
 Start, graceful stop and stop of the discovery server (src/wsd_server.cpp) on top of the
 repeated datagrams of src/udp_server.cpp. Repeats follow Appendix I of SOAP-over-UDP,
 message numbers section 7 of WS-Discovery.
 */
module WsdServer {
  const MULTICAST_REPEAT: nat := 4
  const UNICAST_REPEAT: nat := 2

  type Id = nat

  datatype Purpose = Hello | Bye | Reply

  function Repeats(p: Purpose): nat {
    if p.Reply? then UNICAST_REPEAT else MULTICAST_REPEAT
  }

  datatype Phase = Sending | Waiting  // an asynchronous send or a delay timer is outstanding

  /** The callback that repeats one datagram; `left` is its repeatCount. */
  datatype Repeater = Repeater(purpose: Purpose, number: nat, left: nat, phase: Phase)

  datatype ErrorCode = Success | Aborted | Failed

  // ----- the UDP server -----

  /** `sends` lists, by datagram, every asynchronous send that was begun. */
  datatype Udp = Udp(handler: bool, open: bool, flight: map<Id, Repeater>, nextId: Id, sends: seq<Id>)

  /** What a completed send calls back: nothing, the continuation of the broadcast, or the error handler. */
  datatype Call = Nothing | Continuation | FatalError

  function Write(u: Udp, purpose: Purpose, number: nat): Udp {
    u.(flight := u.flight[u.nextId := Repeater(purpose, number, Repeats(purpose), Sending)],
       nextId := u.nextId + 1,
       sends := u.sends + [u.nextId])
  }

  datatype SentResult = SentResult(udp: Udp, call: Call)

  function SendDone(u: Udp, id: Id, ec: ErrorCode): SentResult
    requires id in u.flight
  {
    var d := u.flight[id];
    var u1 := u.(flight := u.flight - {id});
    if !u.handler || ec.Aborted? then SentResult(u1, Nothing)
    else if ec.Failed? then SentResult(u1, if d.purpose.Bye? then Continuation else FatalError)
    else if d.left <= 1 then SentResult(u1, if d.purpose.Bye? then Continuation else Nothing)
    else SentResult(u.(flight := u.flight[id := d.(left := d.left - 1, phase := Waiting)]), Nothing)
  }

  function DelayDone(u: Udp, id: Id, ok: bool): Udp
    requires id in u.flight
  {
    if !ok || !u.open then u.(flight := u.flight - {id})
    else u.(flight := u.flight[id := u.flight[id].(phase := Sending)], sends := u.sends + [id])
  }

  function Close(u: Udp): Udp {
    u.(handler := false, open := false)
  }

  // ----- the discovery server -----

  datatype State = NotStarted | Running | Stopped

  /** `numbers` lists the message numbers in the order they were given out, `continued` the continuations that ran. */
  datatype Wsd = Wsd(state: State, messageNumber: nat, udp: Udp, numbers: seq<nat>, continued: seq<Id>)

  const CREATED: Wsd := Wsd(NotStarted, 0, Udp(false, true, map[], 0, []), [], [])

  function Send(w: Wsd, purpose: Purpose): Wsd {
    w.(messageNumber := w.messageNumber + 1, numbers := w.numbers + [w.messageNumber],
       udp := Write(w.udp, purpose, w.messageNumber))
  }

  function Begin(w: Wsd): Wsd {
    Send(w.(state := Running, udp := w.udp.(handler := true)), Hello)
  }

  function StopNow(w: Wsd): Wsd {
    if w.state.Running? then w.(state := Stopped, udp := Close(w.udp)) else w
  }

  function StopGracefully(w: Wsd): Wsd {
    if w.state.Running? then Send(w, Bye) else w
  }

  function OnSendDone(w: Wsd, id: Id, ec: ErrorCode): Wsd
    requires id in w.udp.flight
  {
    var SentResult(u, call) := SendDone(w.udp, id, ec);
    var w1 := w.(udp := u);
    match call
    case Nothing => w1
    case Continuation => StopNow(w1.(continued := w1.continued + [id]))
    case FatalError => StopNow(w1)
  }

  // ----- runs -----

  datatype Step =
    | Start
    | Stop(graceful: bool)
    | Answer                         // a Probe or Resolve message that is answered
    | Fatal                          // a read or accept error
    | Sent(id: Id, ec: ErrorCode)
    | Delayed(id: Id, ok: bool)

  /** Sends and delays are cancelled by closing the sockets and by nothing else. */
  ghost predicate Enabled(w: Wsd, step: Step) {
    match step
    case Start => w.state.NotStarted?
    case Stop(_) => !w.state.NotStarted?
    case Answer => w.udp.handler
    case Fatal => w.udp.handler
    case Sent(id, ec) => id in w.udp.flight && w.udp.flight[id].phase.Sending? && (ec.Aborted? ==> !w.udp.open)
    case Delayed(id, ok) => id in w.udp.flight && w.udp.flight[id].phase.Waiting? && (!ok ==> !w.udp.open)
  }

  function Apply(w: Wsd, step: Step): Wsd {
    match step
    case Start => Begin(w)
    case Stop(graceful) => if graceful then StopGracefully(w) else StopNow(w)
    case Answer => Send(w, Reply)
    case Fatal => StopNow(w)
    case Sent(id, ec) => if id in w.udp.flight then OnSendDone(w, id, ec) else w
    case Delayed(id, ok) => if id in w.udp.flight then w.(udp := DelayDone(w.udp, id, ok)) else w
  }

  function Run(w: Wsd, steps: seq<Step>): Wsd
    decreases |steps|
  {
    if steps == [] then w else Run(Apply(w, steps[0]), steps[1..])
  }

  ghost predicate CanRun(w: Wsd, steps: seq<Step>)
    decreases |steps|
  {
    steps != [] ==> Enabled(w, steps[0]) && CanRun(Apply(w, steps[0]), steps[1..])
  }

  // ----- what every run keeps -----

  /** How often the datagram `id` was sent. */
  ghost function Times(sends: seq<Id>, id: Id): nat {
    multiset(sends)[id]
  }

  ghost predicate Inv(w: Wsd) {
    && w.udp.handler == w.state.Running?
    && w.udp.open == !w.state.Stopped?
    && (w.state.NotStarted? ==> w.udp.flight == map[])
    // the numbers given out are 0, 1, 2, ...
    && |w.numbers| == w.messageNumber && (forall i :: 0 <= i < |w.numbers| ==> w.numbers[i] == i)
    && (forall id :: id in w.udp.flight ==> InFlight(w, id))
    && (forall id :: id in w.udp.sends ==> id < w.udp.nextId)
    && (forall id :: Times(w.udp.sends, id) <= MULTICAST_REPEAT)
    // a continuation that ran belongs to a datagram that is done, and never runs again
    && (forall id :: id in w.continued ==> id < w.udp.nextId && id !in w.udp.flight)
    && (forall i, j :: 0 <= i < j < |w.continued| ==> w.continued[i] != w.continued[j])
  }

  /** A datagram under way keeps its number; sends begun and sends still to begin add up to its repeat count. */
  ghost predicate InFlight(w: Wsd, id: Id)
    requires id in w.udp.flight
  {
    var d := w.udp.flight[id];
    && id < w.udp.nextId && d.number < w.messageNumber && 1 <= d.left <= Repeats(d.purpose)
    && Times(w.udp.sends, id) + d.left == Repeats(d.purpose) + (if d.phase.Sending? then 1 else 0)
  }

  lemma OneMore(sends: seq<Id>, id: Id)
    ensures forall other :: Times(sends + [id], other) == Times(sends, other) + if other == id then 1 else 0
  {
  }

  lemma SendKeeps(w: Wsd, purpose: Purpose)
    requires Inv(w) && w.state.Running?
    ensures Inv(Send(w, purpose))
  {
    var t := Send(w, purpose);
    assert w.udp.nextId !in w.udp.sends;
    OneMore(w.udp.sends, w.udp.nextId);
    forall id | id in t.udp.flight
      ensures InFlight(t, id)
    {
      assert id != w.udp.nextId ==> id in w.udp.flight && InFlight(w, id);
    }
  }

  lemma SendDoneKeeps(w: Wsd, id: Id, ec: ErrorCode)
    requires Inv(w) && Enabled(w, Sent(id, ec))
    ensures Inv(OnSendDone(w, id, ec))
  {
    assert InFlight(w, id);
    forall other | other in w.udp.flight
      ensures InFlight(w, other)
    {
    }
  }

  lemma DelayDoneKeeps(w: Wsd, id: Id, ok: bool)
    requires Inv(w) && Enabled(w, Delayed(id, ok))
    ensures Inv(Apply(w, Delayed(id, ok)))
  {
    OneMore(w.udp.sends, id);
    assert InFlight(w, id);
    forall other | other in w.udp.flight
      ensures InFlight(w, other)
    {
    }
  }

  lemma StepKeeps(w: Wsd, step: Step)
    requires Inv(w) && Enabled(w, step)
    ensures Inv(Apply(w, step))
  {
    match step
    case Start => SendKeeps(w.(state := Running, udp := w.udp.(handler := true)), Hello);
    case Stop(graceful) =>
      if graceful && w.state.Running? {
        SendKeeps(w, Bye);
      }
    case Answer => SendKeeps(w, Reply);
    case Fatal =>
    case Sent(id, ec) => SendDoneKeeps(w, id, ec);
    case Delayed(id, ok) => DelayDoneKeeps(w, id, ok);
  }

  lemma {:induction false} RunKeeps(w: Wsd, steps: seq<Step>)
    requires Inv(w) && CanRun(w, steps)
    ensures Inv(Run(w, steps))
    decreases |steps|
  {
    if steps != [] {
      StepKeeps(w, steps[0]);
      RunKeeps(Apply(w, steps[0]), steps[1..]);
    }
  }

  /** Once the server is stopped it stays so, begins no send, gives out no number and runs no continuation. */
  lemma {:induction false} StoppedIsFinal(w: Wsd, steps: seq<Step>)
    requires Inv(w) && w.state.Stopped? && CanRun(w, steps)
    ensures var t := Run(w, steps);
            t.state.Stopped? && t.udp.sends == w.udp.sends && t.numbers == w.numbers && t.continued == w.continued
    decreases |steps|
  {
    if steps != [] {
      StepKeeps(w, steps[0]);
      StoppedIsFinal(Apply(w, steps[0]), steps[1..]);
    }
  }

  // ----- after a graceful stop -----

  ghost predicate About(step: Step, id: Id) {
    (step.Sent? || step.Delayed?) && step.id == id
  }

  /** How many of the callbacks that ran belong to the datagram `id`. */
  ghost function CountAbout(steps: seq<Step>, id: Id): nat {
    if steps == [] then 0 else (if About(steps[0], id) then 1 else 0) + CountAbout(steps[1..], id)
  }

  /** How many callbacks of a Bye are still to come: its last one stops the server. */
  ghost function Rank(d: Repeater): int {
    2 * d.left - if d.phase.Sending? then 1 else 0
  }

  ghost function RankIn(w: Wsd, id: Id): int {
    if id in w.udp.flight then Rank(w.udp.flight[id]) else 0
  }

  /** Nothing but the server's own callbacks runs, and answers: no stop from outside and no fatal error. */
  ghost predicate Undisturbed(step: Step) {
    step.Answer? || step.Sent? || step.Delayed?
  }

  ghost predicate IsFailure(step: Step) {
    step.Sent? && step.ec.Failed?
  }

  /** A send that fails stops the server at once, whatever it was sending. */
  lemma FailureStopsNow(w: Wsd, id: Id)
    requires Inv(w) && w.state.Running? && Enabled(w, Sent(id, Failed))
    ensures var t := Apply(w, Sent(id, Failed));
            && t.state.Stopped? && t.udp.sends == w.udp.sends
            && (id in t.continued <==> w.udp.flight[id].purpose.Bye?)
  {
    assert InFlight(w, id);
  }

  /** In any run of a started server, whatever else happens, a failed send leaves it stopped. */
  lemma {:induction false} FailureStops(w: Wsd, steps: seq<Step>)
    requires Inv(w) && !w.state.NotStarted? && CanRun(w, steps)
    requires exists s :: s in steps && IsFailure(s)
    ensures Run(w, steps).state.Stopped?
    decreases |steps|
  {
    StepKeeps(w, steps[0]);
    var w1 := Apply(w, steps[0]);
    if w.state.Stopped? {
      StoppedIsFinal(w, steps);
    } else if IsFailure(steps[0]) {
      FailureStopsNow(w, steps[0].id);
      StoppedIsFinal(w1, steps[1..]);
    } else {
      FailureStops(w1, steps[1..]);
    }
  }

  ghost predicate ByeUnderWay(w: Wsd, id: Id) {
    w.state.Running? && id in w.udp.flight && w.udp.flight[id].purpose.Bye?
  }

  /** While the server runs, each callback of the Bye lowers its rank by one and nothing else touches it. */
  lemma ByeStep(w: Wsd, step: Step, id: Id)
    requires Inv(w) && ByeUnderWay(w, id) && Enabled(w, step) && Undisturbed(step)
    ensures var t := Apply(w, step);
            if t.state.Running? then ByeUnderWay(t, id) && RankIn(t, id) == RankIn(w, id) - if About(step, id) then 1 else 0
            else t.state.Stopped?
  {
    assert InFlight(w, id);
    if step.Sent? || step.Delayed? {
      assert InFlight(w, step.id);
    }
  }

  lemma {:induction false} ByeRun(w: Wsd, steps: seq<Step>, id: Id)
    requires Inv(w) && ByeUnderWay(w, id) && CanRun(w, steps)
    requires forall s :: s in steps ==> Undisturbed(s)
    ensures var t := Run(w, steps);
            if t.state.Running? then ByeUnderWay(t, id) && RankIn(t, id) == RankIn(w, id) - CountAbout(steps, id)
            else t.state.Stopped?
    decreases |steps|
  {
    if steps != [] {
      assert steps[0] in steps && forall s :: s in steps[1..] ==> s in steps;
      StepKeeps(w, steps[0]);
      ByeStep(w, steps[0], id);
      var w1 := Apply(w, steps[0]);
      if w1.state.Running? {
        ByeRun(w1, steps[1..], id);
      } else {
        StoppedIsFinal(w1, steps[1..]);
      }
    }
  }

  /** A datagram that is done is never sent again, and nothing calls back about it. */
  lemma {:induction false} DoneIsFinal(w: Wsd, steps: seq<Step>, id: Id)
    requires Inv(w) && id < w.udp.nextId && id !in w.udp.flight && CanRun(w, steps)
    ensures var t := Run(w, steps);
            CountAbout(steps, id) == 0 && id !in t.udp.flight && Times(t.udp.sends, id) == Times(w.udp.sends, id)
    decreases |steps|
  {
    if steps != [] {
      StepKeeps(w, steps[0]);
      SendsOthers(w, steps[0], id);
      DoneIsFinal(Apply(w, steps[0]), steps[1..], id);
    }
  }

  lemma SendsOthers(w: Wsd, step: Step, id: Id)
    requires Inv(w) && id < w.udp.nextId && id !in w.udp.flight && Enabled(w, step)
    ensures var t := Apply(w, step);
            && !About(step, id) && id < t.udp.nextId && id !in t.udp.flight
            && Times(t.udp.sends, id) == Times(w.udp.sends, id)
  {
    OneMore(w.udp.sends, w.udp.nextId);
    if step.Delayed? {
      OneMore(w.udp.sends, step.id);
    }
    hide Inv, Times;
  }

  /** A step that stops the server without a failure is the last callback of a Bye that was sent four times. */
  lemma StoppingStep(w: Wsd, step: Step)
    requires Inv(w) && w.state.Running? && Enabled(w, step) && Undisturbed(step) && !IsFailure(step)
    requires Apply(w, step).state.Stopped?
    ensures step.Sent? && ByeUnderWay(w, step.id) && RankIn(w, step.id) == 1
    ensures var t := Apply(w, step);
            Times(t.udp.sends, step.id) == MULTICAST_REPEAT && step.id in t.continued && step.id !in t.udp.flight
  {
    assert InFlight(w, step.id);
  }

  /** If no send fails, what stops the server is a Bye all of whose callbacks have run. */
  lemma {:induction false} StoppedByBye(w: Wsd, steps: seq<Step>) returns (id: Id)
    requires Inv(w) && w.state.Running? && CanRun(w, steps) && Run(w, steps).state.Stopped?
    requires forall s :: s in steps ==> Undisturbed(s) && !IsFailure(s)
    ensures ByeUnderWay(w, id) && CountAbout(steps, id) == RankIn(w, id)
    ensures var t := Run(w, steps); Times(t.udp.sends, id) == MULTICAST_REPEAT && id in t.continued
    decreases |steps|
  {
    var w1 := Apply(w, steps[0]);
    assert steps[0] in steps && forall s :: s in steps[1..] ==> s in steps;
    StepKeeps(w, steps[0]);
    if w1.state.Running? {
      id := StoppedByBye(w1, steps[1..]);
      ByeBefore(w, steps[0], id);
      ByeStep(w, steps[0], id);
    } else {
      assert w1.state.Stopped?;
      StoppingStep(w, steps[0]);
      id := steps[0].id;
      StoppedIsFinal(w1, steps[1..]);
      DoneIsFinal(w1, steps[1..], id);
    }
  }

  /** While the server runs undisturbed no Bye is begun. */
  lemma ByeBefore(w: Wsd, step: Step, id: Id)
    requires Inv(w) && w.state.Running? && Enabled(w, step) && Undisturbed(step) && ByeUnderWay(Apply(w, step), id)
    ensures ByeUnderWay(w, id)
  {
  }

  /**
   After a graceful stop the server is stopped exactly when a send has failed or all callbacks of a
   Bye have run: seven for this one, fewer for one that was under way before. Until then the callbacks
   of this Bye still to come are seven less those that ran, and one of them can run.
   */
  lemma GracefulStop(w: Wsd, steps: seq<Step>)
    requires Inv(w) && w.state.Running?
    requires CanRun(Apply(w, Stop(true)), steps) && forall s :: s in steps ==> Undisturbed(s)
    ensures var bye := w.udp.nextId; var w0 := Apply(w, Stop(true)); var t := Run(w0, steps);
            && ByeUnderWay(w0, bye) && RankIn(w0, bye) == 7
            && (t.state.Stopped? <==>
                  (exists s :: s in steps && IsFailure(s)) ||
                  (exists id :: ByeUnderWay(w0, id) && CountAbout(steps, id) >= RankIn(w0, id)))
            && (!t.state.Stopped? ==>
                  RankIn(t, bye) == 7 - CountAbout(steps, bye) > 0 &&
                  (Enabled(t, Sent(bye, Success)) || Enabled(t, Delayed(bye, true))))
  {
    var bye := w.udp.nextId;
    var w0 := Apply(w, Stop(true));
    StepKeeps(w, Stop(true));
    var t := Run(w0, steps);
    RunKeeps(w0, steps);
    if exists s :: s in steps && IsFailure(s) {
      FailureStops(w0, steps);
    } else if t.state.Stopped? {
      var id := StoppedByBye(w0, steps);
    }
    forall id | ByeUnderWay(w0, id)
      ensures if t.state.Running? then RankIn(t, id) == RankIn(w0, id) - CountAbout(steps, id) > 0 else t.state.Stopped?
      ensures t.state.Running? ==> ByeUnderWay(t, id)
    {
      ByeRun(w0, steps, id);
      assert id in t.udp.flight ==> InFlight(t, id);
    }
    assert ByeUnderWay(w0, bye);
  }

  /** If no other Bye was under way and no send fails, this one is sent exactly four times before the server stops. */
  lemma FourByes(w: Wsd, steps: seq<Step>)
    requires Inv(w) && w.state.Running? && forall id :: !ByeUnderWay(w, id)
    requires CanRun(Apply(w, Stop(true)), steps) && forall s :: s in steps ==> Undisturbed(s) && !IsFailure(s)
    ensures var bye := w.udp.nextId; var t := Run(Apply(w, Stop(true)), steps);
            && CountAbout(steps, bye) <= 7
            && (t.state.Stopped? <==> CountAbout(steps, bye) == 7)
            && (t.state.Stopped? ==> Times(t.udp.sends, bye) == 4 && bye in t.continued)
  {
    var bye := w.udp.nextId;
    var w0 := Apply(w, Stop(true));
    StepKeeps(w, Stop(true));
    GracefulStop(w, steps);
    if Run(w0, steps).state.Stopped? {
      var id := StoppedByBye(w0, steps);
      assert id != bye ==> ByeUnderWay(w, id);
    }
  }

  // ----- what each message sends, and how often -----

  ghost predicate UnderWay(w: Wsd, id: Id, purpose: Purpose, number: nat) {
    id in w.udp.flight && w.udp.flight[id].purpose == purpose && w.udp.flight[id].number == number
  }

  /** How often a message is sent in all. */
  ghost function InAll(purpose: Purpose): nat {
    match purpose
    case Hello => 4
    case Bye => 4
    case Reply => 2
  }

  ghost predicate SendsOnly(w: Wsd, t: Wsd, purpose: Purpose) {
    var id := w.udp.nextId;
    && t.udp.flight.Keys == w.udp.flight.Keys + {id} && id !in w.udp.flight
    && (forall other :: other in w.udp.flight ==> t.udp.flight[other] == w.udp.flight[other])
    && UnderWay(t, id, purpose, w.messageNumber) && t.udp.flight[id].phase.Sending?
    && t.udp.sends == w.udp.sends + [id] && t.udp.nextId == id + 1
    && t.numbers == w.numbers + [w.messageNumber] && t.messageNumber == w.messageNumber + 1
  }

  /** Starting sends one Hello, a graceful stop one Bye, an answer one Reply, each with the next number, and nothing else. */
  lemma OneMessage(w: Wsd)
    requires Inv(w)
    ensures w.state.NotStarted? ==>
              var t := Apply(w, Start); t.state.Running? && w.udp.flight == map[] && SendsOnly(w, t, Hello)
    ensures w.state.Running? ==>
              && (var t := Apply(w, Stop(true)); t.state.Running? && SendsOnly(w, t, Bye))
              && (var t := Apply(w, Answer); t.state.Running? && SendsOnly(w, t, Reply))
    ensures w.state.Running? ==> Apply(w, Stop(false)).state.Stopped? && Apply(w, Fatal).state.Stopped?
  {
    assert w.udp.nextId in w.udp.flight ==> InFlight(w, w.udp.nextId);
  }

  /** The first message of a server is the Hello, numbered 0. */
  lemma FirstMessage()
    ensures var t := Apply(CREATED, Start);
            && t.state.Running? && t.udp.flight.Keys == {0} && UnderWay(t, 0, Hello, 0)
            && t.udp.sends == [0] && t.numbers == [0]
  {
  }

  lemma FlightStep(w: Wsd, step: Step, id: Id)
    requires Inv(w) && w.state.Running? && id in w.udp.flight && Enabled(w, step) && Apply(w, step).state.Running?
    ensures var t := Apply(w, step); var d := w.udp.flight[id];
            if id in t.udp.flight then
              && UnderWay(t, id, d.purpose, d.number)
              && RankIn(t, id) == RankIn(w, id) - if About(step, id) then 1 else 0
            else About(step, id) && RankIn(w, id) == 1 && Times(t.udp.sends, id) == InAll(d.purpose)
  {
    assert InFlight(w, id);
    if step.Sent? || step.Delayed? {
      assert InFlight(w, step.id);
    }
  }

  /**
   In every run through which the server keeps running, a message under way is either done, having been
   sent exactly as often as its kind demands, or each callback about it brought it one nearer to that.
   */
  lemma {:induction false} SentInFull(w: Wsd, steps: seq<Step>, id: Id)
    requires Inv(w) && w.state.Running? && id in w.udp.flight && CanRun(w, steps) && Run(w, steps).state.Running?
    ensures var t := Run(w, steps); var d := w.udp.flight[id];
            if id in t.udp.flight then
              && UnderWay(t, id, d.purpose, d.number)
              && RankIn(t, id) == RankIn(w, id) - CountAbout(steps, id) > 0
              && (Enabled(t, Sent(id, Success)) || Enabled(t, Delayed(id, true)))
            else CountAbout(steps, id) == RankIn(w, id) && Times(t.udp.sends, id) == InAll(d.purpose)
    decreases |steps|
  {
    assert InFlight(w, id);
    if steps != [] {
      var w1 := Apply(w, steps[0]);
      StepKeeps(w, steps[0]);
      StillRunning(w, steps);
      FlightStep(w, steps[0], id);
      if id in w1.udp.flight {
        SentInFull(w1, steps[1..], id);
      } else {
        DoneIsFinal(w1, steps[1..], id);
      }
    }
  }

  /** A server that runs at the end of a run was running since its start. */
  lemma StillRunning(w: Wsd, steps: seq<Step>)
    requires Inv(w) && w.state.Running? && CanRun(w, steps) && Run(w, steps).state.Running? && steps != []
    ensures Apply(w, steps[0]).state.Running?
  {
    StepKeeps(w, steps[0]);
    var w1 := Apply(w, steps[0]);
    if w1.state.Stopped? {
      StoppedIsFinal(w1, steps[1..]);
    }
  }

  lemma {:induction false} StaysStarted(w: Wsd, steps: seq<Step>)
    requires Inv(w) && !w.state.NotStarted? && CanRun(w, steps)
    ensures !Run(w, steps).state.NotStarted?
    decreases |steps|
  {
    if steps != [] {
      StepKeeps(w, steps[0]);
      StaysStarted(Apply(w, steps[0]), steps[1..]);
    }
  }

  /** A server that nobody stops and whose sends do not fail keeps running. */
  lemma KeepsRunning(w: Wsd, steps: seq<Step>)
    requires Inv(w) && w.state.Running? && CanRun(w, steps) && forall id :: !ByeUnderWay(w, id)
    requires forall s :: s in steps ==> Undisturbed(s) && !IsFailure(s)
    ensures Run(w, steps).state.Running?
  {
    StaysStarted(w, steps);
    if Run(w, steps).state.Stopped? {
      var id := StoppedByBye(w, steps);
    }
  }

  /** From its start on, while nothing stops it and no send fails, a server sends its Hello exactly four times, in seven callbacks. */
  lemma HelloInFull(steps: seq<Step>)
    requires CanRun(Apply(CREATED, Start), steps) && forall s :: s in steps ==> Undisturbed(s) && !IsFailure(s)
    ensures var t := Run(Apply(CREATED, Start), steps);
            && t.state.Running? && CountAbout(steps, 0) <= 7
            && (0 !in t.udp.flight <==> CountAbout(steps, 0) == 7)
            && (0 !in t.udp.flight ==> Times(t.udp.sends, 0) == 4)
            && (0 in t.udp.flight ==> Enabled(t, Sent(0, Success)) || Enabled(t, Delayed(0, true)))
  {
    var w := Apply(CREATED, Start);
    StepKeeps(CREATED, Start);
    KeepsRunning(w, steps);
    SentInFull(w, steps, 0);
  }

  /** An answer is sent exactly twice, in three callbacks, if the server keeps running. */
  lemma ReplyInFull(w: Wsd, steps: seq<Step>)
    requires Inv(w) && w.state.Running? && CanRun(Apply(w, Answer), steps) && Run(Apply(w, Answer), steps).state.Running?
    ensures var id := w.udp.nextId; var t := Run(Apply(w, Answer), steps);
            && CountAbout(steps, id) <= 3
            && (id !in t.udp.flight <==> CountAbout(steps, id) == 3)
            && (id !in t.udp.flight ==> Times(t.udp.sends, id) == 2)
            && (id in t.udp.flight ==> Enabled(t, Sent(id, Success)) || Enabled(t, Delayed(id, true)))
  {
    StepKeeps(w, Answer);
    SentInFull(Apply(w, Answer), steps, w.udp.nextId);
  }

  /** Message numbers strictly increase over the whole life of a server, and each continuation runs at most once. */
  lemma WholeLife(steps: seq<Step>)
    requires CanRun(CREATED, steps)
    ensures var t := Run(CREATED, steps);
            && (forall i, j :: 0 <= i < j < |t.numbers| ==> t.numbers[i] < t.numbers[j])
            && (forall i, j :: 0 <= i < j < |t.continued| ==> t.continued[i] != t.continued[j])
            && (forall id :: Times(t.udp.sends, id) <= MULTICAST_REPEAT)
  {
    RunKeeps(CREATED, steps);
  }

  // ----- the two classes -----

  class UdpServer {
    var handler: bool
    var open: bool
    var flight: map<Id, Repeater>  // callbacks of outstanding sends and delays
    var nextId: Id
    ghost var sends: seq<Id>

    ghost function View(): Udp
      reads this
    {
      Udp(handler, open, flight, nextId, sends)
    }

    constructor ()
      ensures View() == CREATED.udp
    {
      handler, open, flight, nextId, sends := false, true, map[], 0, [];
    }

    method Start()
      modifies this`handler
      ensures handler
    {
      handler := true;
    }

    method Stop()
      modifies this`handler, this`open
      ensures View() == Close(old(View()))
    {
      handler := false;
      open := false;
    }

    method Send(purpose: Purpose, number: nat)
      modifies this
      ensures View() == Write(old(View()), purpose, number)
    {
      var repeatCount := if purpose.Reply? then UNICAST_REPEAT else MULTICAST_REPEAT;
      flight := flight[nextId := Repeater(purpose, number, repeatCount, Sending)];
      sends := sends + [nextId];
      nextId := nextId + 1;
    }

    /** The callback of an asynchronous send; the caller carries out what it returns. */
    method OnSent(id: Id, ec: ErrorCode) returns (call: Call)
      requires id in flight
      modifies this
      ensures SentResult(View(), call) == SendDone(old(View()), id, ec)
    {
      var d := flight[id];
      var others := flight - {id};
      if !handler {
        flight := others;
        return Nothing;
      }
      if ec != Success {
        flight := others;
        if ec != Aborted {
          return if d.purpose.Bye? then Continuation else FatalError;
        }
        return Nothing;
      }
      if d.left <= 1 {
        flight := others;
        return if d.purpose.Bye? then Continuation else Nothing;
      }
      flight := flight[id := d.(left := d.left - 1, phase := Waiting)];
      return Nothing;
    }

    method OnDelay(id: Id, ok: bool)
      requires id in flight
      modifies this
      ensures View() == DelayDone(old(View()), id, ok)
    {
      if !ok || !open {
        flight := flight - {id};
        return;
      }
      sends := sends + [id];
      flight := flight[id := flight[id].(phase := Sending)];
    }
  }

  class WsdServerImpl {
    var state: State
    var messageNumber: nat
    const udp: UdpServer
    ghost var numbers: seq<nat>
    ghost var continued: seq<Id>

    ghost function View(): Wsd
      reads this, udp
    {
      Wsd(state, messageNumber, udp.View(), numbers, continued)
    }

    constructor ()
      ensures fresh(udp) && View() == CREATED
    {
      state, messageNumber, numbers, continued := NotStarted, 0, [], [];
      udp := new UdpServer();
    }

    method Broadcast(purpose: Purpose)
      modifies this, udp
      ensures View() == Send(old(View()), purpose)
    {
      var number := messageNumber;
      messageNumber := messageNumber + 1;
      numbers := numbers + [number];
      udp.Send(purpose, number);
    }

    method StartServer()
      requires state.NotStarted?
      modifies this, udp
      ensures View() == Begin(old(View()))
    {
      udp.Start();
      state := Running;
      Broadcast(Hello);
    }

    method StopServer(graceful: bool)
      requires !state.NotStarted?
      modifies this, udp
      ensures View() == if graceful then StopGracefully(old(View())) else StopNow(old(View()))
    {
      if state.Running? {
        if graceful {
          Broadcast(Bye);
        } else {
          udp.Stop();
          state := Stopped;
        }
      }
    }

    method SendCompleted(id: Id, ec: ErrorCode)
      requires Inv(View()) && id in udp.flight
      modifies this, udp
      ensures View() == OnSendDone(old(View()), id, ec)
    {
      assert InFlight(View(), id);
      var call := udp.OnSent(id, ec);
      if call.Continuation? {
        continued := continued + [id];
        StopServer(false);
      } else if call.FatalError? {
        StopServer(false);
      }
    }

    method DelayCompleted(id: Id, ok: bool)
      requires id in udp.flight
      modifies this, udp
      ensures View() == Apply(old(View()), Delayed(id, ok))
    {
      udp.OnDelay(id, ok);
    }

    /** The tail of handleProbe and handleResolve, then the unicast reply. */
    method AnswerRequest()
      requires state.Running?
      modifies this, udp
      ensures View() == Apply(old(View()), Answer)
    {
      Broadcast(Reply);
    }
  }
}
