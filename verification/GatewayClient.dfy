/**
 * The request/response multiplexer of the gateway client (src/ai/client.rs): concurrent callers, listener tasks,
 * timeouts, send failures, lost connections, close and reconnect over one shared `pending` map.
 *
 * A state machine whose steps are the atomic actions of the code; any number of callers, listeners and closers
 * interleave freely. Request ids are fresh (UUIDs), serialization does not fail, and a caller's future is not
 * dropped half-way.
 */
module GatewayClient {
  import opened Text

  type RequestId = nat

  /** A completion frame from the gateway; `isError` holds for error frames and for payloads with an error text. */
  datatype Frame = Frame(requestId: RequestId, isError: bool, payload: nat)

  /** What is sent through a caller's oneshot channel. */
  datatype Message = FromFrame(frame: Frame) | ClientClosed | ConnectionLost

  datatype Outcome =
    | Value(frame: Frame)
    | CompletionError(message: Message)
    | NotConnected
    | NoSink
    | SendError
    | TimeoutError
    | ChannelClosedError

  /** Where a caller is inside `send_and_wait`. */
  datatype Caller =
    | Checked                     // the connection looked alive; the request is not registered yet
    | Registered                  // the sender is in the map, the request is not sent yet
    | Waiting                     // the request is sent
    | Leaving(outcome: Outcome)   // failed, its own entry still to be removed
    | Returned(outcome: Outcome)

  /** The caller's oneshot channel: `Open` while its sender is alive and unused. */
  datatype Channel = Open | Full(message: Message) | Dropped

  /** One pass over the map's keys that fails every request found: the keys it read, and those not yet handled. */
  datatype Drain = Drain(message: Message, taken: set<RequestId>, left: set<RequestId>)

  datatype State = State(
    connected: bool,
    hasSink: bool,
    pending: set<RequestId>,              // keys of the map, each holding that request's sender
    inHand: map<RequestId, Message>,      // senders taken out of the map, about to send
    channels: map<RequestId, Channel>,
    callers: map<RequestId, Caller>,
    drains: seq<Drain>,
    received: set<Frame>)                 // every frame a listener has read

  const INIT := State(false, false, {}, map[], map[], map[], [], {})

  datatype Step =
    | Begin(id: RequestId)
    | Insert(id: RequestId)
    | SendOk(id: RequestId)
    | SendFail(id: RequestId)
    | Take(id: RequestId)
    | SeeDropped(id: RequestId)
    | TimeOut(id: RequestId)
    | Leave(id: RequestId)
    | Receive(frame: Frame)
    | Deliver(id: RequestId)
    | Connect
    | Disconnect
    | DropSink
    | StartDrain(message: Message)
    | DrainOne(drain: nat, id: RequestId)

  predicate IsCaller(s: State, id: RequestId, c: Caller) {
    id in s.callers && s.callers[id] == c
  }

  predicate HasChannel(s: State, id: RequestId) {
    id in s.channels
  }

  predicate Enabled(s: State, step: Step) {
    match step
    case Begin(id) => id !in s.callers
    case Insert(id) => IsCaller(s, id, Checked)
    case SendOk(id) => IsCaller(s, id, Registered)
    case SendFail(id) => IsCaller(s, id, Registered)
    case Take(id) => IsCaller(s, id, Waiting) && HasChannel(s, id) && s.channels[id].Full?
    case SeeDropped(id) => IsCaller(s, id, Waiting) && HasChannel(s, id) && s.channels[id].Dropped?
    case TimeOut(id) => IsCaller(s, id, Waiting) && HasChannel(s, id) && s.channels[id].Open?
    case Leave(id) => id in s.callers && s.callers[id].Leaving?
    case Receive(_) => true
    case Deliver(id) => id in s.inHand
    case Connect => true
    case Disconnect => true
    case DropSink => true
    case StartDrain(message) => !message.FromFrame?
    case DrainOne(d, id) => d < |s.drains| && id in s.drains[d].left
  }

  /** What the awaiting caller makes of a message: an error text turns into a failure. */
  function OutcomeOf(m: Message): Outcome {
    if m.FromFrame? && !m.frame.isError then Value(m.frame) else CompletionError(m)
  }

  function SetCaller(s: State, id: RequestId, c: Caller): State {
    s.(callers := s.callers[id := c])
  }

  /** `pending.remove(id)` by a party that will send `m` through the sender it gets, if there is one. */
  function TakeOut(s: State, id: RequestId, m: Message): State {
    if id in s.pending then s.(pending := s.pending - {id}, inHand := s.inHand[id := m]) else s
  }

  function Next(s: State, step: Step): State
    requires Enabled(s, step)
  {
    match step
    case Begin(id) =>
      SetCaller(s, id,
                if !s.connected then Returned(NotConnected) else if !s.hasSink then Returned(NoSink) else Checked)
    case Insert(id) => SetCaller(s, id, Registered).(pending := s.pending + {id}, channels := s.channels[id := Open])
    case SendOk(id) => SetCaller(s, id, Waiting)
    case SendFail(id) => SetCaller(s, id, Leaving(SendError))
    case Take(id) => SetCaller(s, id, Returned(OutcomeOf(s.channels[id].message)))
    case SeeDropped(id) => SetCaller(s, id, Leaving(ChannelClosedError))
    case TimeOut(id) => SetCaller(s, id, Leaving(TimeoutError))
    case Leave(id) =>
      SetCaller(s, id, Returned(s.callers[id].outcome)).(
        pending := s.pending - {id},
        channels := if id in s.pending then s.channels[id := Dropped] else s.channels)
    case Receive(frame) => TakeOut(s, frame.requestId, FromFrame(frame)).(received := s.received + {frame})
    case Deliver(id) => s.(channels := s.channels[id := Full(s.inHand[id])], inHand := s.inHand - {id})
    case Connect => s.(connected := true, hasSink := true)
    case Disconnect => s.(connected := false)
    case DropSink => s.(hasSink := false)
    case StartDrain(message) => s.(drains := s.drains + [Drain(message, s.pending, s.pending)])
    case DrainOne(d, id) =>
      var drain := s.drains[d];
      TakeOut(s, id, drain.message).(drains := s.drains[d := drain.(left := drain.left - {id})])
  }

  // ---- The invariant ----

  /** The life of one request's sender: it is in the map, in one hand, used, or dropped by its own caller. */
  ghost predicate SenderInv(s: State, id: RequestId) {
    (id in s.channels <==> id in s.callers && s.callers[id] != Checked &&
                           !(s.callers[id].Returned? && s.callers[id].outcome in {NotConnected, NoSink})) &&
    (id in s.pending || id in s.inHand <==> id in s.channels && s.channels[id].Open?) &&
    !(id in s.pending && id in s.inHand) &&
    (id in s.channels && s.channels[id].Dropped? ==> s.callers[id].Returned?)
  }

  ghost predicate CallerInv(s: State, id: RequestId) {
    id in s.callers ==>
      match s.callers[id]
      case Returned(outcome) =>
        id !in s.pending && outcome != ChannelClosedError &&
        (outcome.Value? ==> outcome.frame.requestId == id && outcome.frame in s.received && !outcome.frame.isError) &&
        (outcome.CompletionError? ==>
           OwnMessage(s, id, outcome.message) && (outcome.message.FromFrame? ==> outcome.message.frame.isError))
      case Leaving(outcome) => outcome == SendError || outcome == TimeoutError
      case _ => true
  }

  /** A frame that was received and carries this request's id, or the failure of a pass that read its key. */
  ghost predicate OwnMessage(s: State, id: RequestId, m: Message) {
    if m.FromFrame? then m.frame.requestId == id && m.frame in s.received else FromDrain(s, id, m)
  }

  ghost predicate FromDrain(s: State, id: RequestId, m: Message) {
    exists d <- s.drains :: d.message == m && id in d.taken
  }

  /** Passes are never forgotten. */
  lemma FromDrainStays(s: State, step: Step, id: RequestId, m: Message)
    requires FromDrain(s, id, m) && Enabled(s, step)
    ensures FromDrain(Next(s, step), id, m)
  {
    var d :| d in s.drains && d.message == m && id in d.taken;
    var i: nat :| i < |s.drains| && s.drains[i] == d;
    var t := Next(s, step);
    assert i < |t.drains| && t.drains[i].message == m && id in t.drains[i].taken;
    assert t.drains[i] in t.drains;
  }

  lemma OwnMessageStays(s: State, step: Step, id: RequestId, m: Message)
    requires OwnMessage(s, id, m) && Enabled(s, step)
    ensures OwnMessage(Next(s, step), id, m)
  {
    if !m.FromFrame? { FromDrainStays(s, step, id, m); }
  }

  ghost predicate MessageInv(s: State, id: RequestId) {
    (id in s.inHand ==> OwnMessage(s, id, s.inHand[id])) &&
    (id in s.channels && s.channels[id].Full? ==> OwnMessage(s, id, s.channels[id].message))
  }

  ghost predicate DrainInv(s: State, d: Drain) {
    !d.message.FromFrame? && d.taken * s.pending <= d.left && d.left <= d.taken &&
    forall id <- d.taken :: id in s.channels
  }

  ghost predicate Inv(s: State) {
    (forall id: RequestId :: SenderInv(s, id)) && (forall id: RequestId :: CallerInv(s, id)) &&
    (forall id: RequestId :: MessageInv(s, id)) && (forall d <- s.drains :: DrainInv(s, d))
  }

  lemma InvInit()
    ensures Inv(INIT)
  {
  }

  lemma SenderStep(s: State, step: Step, id: RequestId)
    requires SenderInv(s, id) && CallerInv(s, id) && Enabled(s, step)
    ensures SenderInv(Next(s, step), id)
  {
  }

  lemma CallerStep(s: State, step: Step, id: RequestId)
    requires SenderInv(s, id) && CallerInv(s, id) && MessageInv(s, id) && Enabled(s, step)
    ensures CallerInv(Next(s, step), id)
  {
    if id in s.callers && s.callers[id].Returned? {
      ReturnedStays(s, step, id);
    } else if step == Take(id) {
      OwnMessageStays(s, step, id, s.channels[id].message);
    }
  }

  lemma ReturnedStays(s: State, step: Step, id: RequestId)
    requires id in s.callers && s.callers[id].Returned? && SenderInv(s, id) && CallerInv(s, id) && Enabled(s, step)
    ensures CallerInv(Next(s, step), id)
  {
    var outcome := s.callers[id].outcome;
    assert IsCaller(Next(s, step), id, s.callers[id]) && id !in Next(s, step).pending;
    if outcome.CompletionError? { OwnMessageStays(s, step, id, outcome.message); }
  }

  lemma MessageStep(s: State, step: Step, id: RequestId)
    requires MessageInv(s, id) && Enabled(s, step)
    requires step.DrainOne? ==> DrainInv(s, s.drains[step.drain])
    ensures MessageInv(Next(s, step), id)
  {
    if id in s.inHand { OwnMessageStays(s, step, id, s.inHand[id]); }
    if id in s.channels && s.channels[id].Full? { OwnMessageStays(s, step, id, s.channels[id].message); }
    if step.DrainOne? && step.id == id { DrainedIsFromDrain(s, step.drain, id); }
  }

  lemma DrainedIsFromDrain(s: State, i: nat, id: RequestId)
    requires Enabled(s, DrainOne(i, id)) && DrainInv(s, s.drains[i])
    ensures FromDrain(Next(s, DrainOne(i, id)), id, s.drains[i].message) && !s.drains[i].message.FromFrame?
  {
    FromDrainStays(s, DrainOne(i, id), id, s.drains[i].message);
  }

  lemma InvStep(s: State, step: Step)
    requires Inv(s) && Enabled(s, step)
    ensures Inv(Next(s, step))
  {
    var t := Next(s, step);
    if step.DrainOne? { assert DrainInv(s, s.drains[step.drain]); }
    forall id: RequestId ensures SenderInv(t, id) && CallerInv(t, id) && MessageInv(t, id) {
      assert SenderInv(s, id) && CallerInv(s, id) && MessageInv(s, id);
      SenderStep(s, step, id);
      CallerStep(s, step, id);
      MessageStep(s, step, id);
    }
    forall d <- t.drains ensures DrainInv(t, d) {
      DrainStep(s, step, d);
    }
  }

  lemma DrainStep(s: State, step: Step, d: Drain)
    requires Inv(s) && Enabled(s, step) && d in Next(s, step).drains
    ensures DrainInv(Next(s, step), d)
  {
    match step
    case Insert(id) => assert DrainInv(s, d) && SenderInv(s, id);
    case StartDrain(message) =>
      if d in s.drains { assert DrainInv(s, d); }
      forall id <- s.pending ensures id in s.channels { assert SenderInv(s, id); }
    case DrainOne(i, id) =>
      assert DrainInv(s, s.drains[i]);
      if d in s.drains { assert DrainInv(s, d); }
    case _ => assert DrainInv(s, d);
  }

  // ---- Whole runs ----

  predicate IsRun(s: State, steps: seq<Step>)
    decreases steps
  {
    steps != [] ==> Enabled(s, steps[0]) && IsRun(Next(s, steps[0]), steps[1..])
  }

  function After(s: State, steps: seq<Step>): State
    requires IsRun(s, steps)
    decreases steps
  {
    if steps == [] then s else After(Next(s, steps[0]), steps[1..])
  }

  lemma {:induction false} InvRun(s: State, steps: seq<Step>)
    requires Inv(s) && IsRun(s, steps)
    ensures Inv(After(s, steps))
    decreases steps
  {
    if steps != [] {
      InvStep(s, steps[0]);
      InvRun(Next(s, steps[0]), steps[1..]);
    }
  }

  /**
   * In every run, for every caller that has returned: it has a good frame with its own request id that a listener
   * received, as its value, or a failure. A failure with a message has a received frame with its id and an error text,
   * or is that of a pass over the map which read its key. Its entry is gone from the map, and the branch for a channel
   * that closes without a message was never taken.
   */
  lemma ReturnedCallersAreSettled(steps: seq<Step>, id: RequestId)
    requires IsRun(INIT, steps)
    ensures var s := After(INIT, steps);
            id in s.callers && s.callers[id].Returned? ==>
              var outcome := s.callers[id].outcome;
              id !in s.pending && outcome != ChannelClosedError &&
              (outcome.Value? ==>
                 outcome.frame.requestId == id && !outcome.frame.isError && outcome.frame in s.received) &&
              (outcome.CompletionError? && outcome.message.FromFrame? ==>
                 outcome.message.frame.requestId == id && outcome.message.frame.isError &&
                 outcome.message.frame in s.received) &&
              (outcome.CompletionError? && !outcome.message.FromFrame? ==> FromDrain(s, id, outcome.message))
  {
    InvInit();
    InvRun(INIT, steps);
    assert CallerInv(After(INIT, steps), id);
  }

  /** The map never leaks: in every run each of its entries belongs to a caller still inside the call. */
  lemma PendingCallersAreInside(steps: seq<Step>, id: RequestId)
    requires IsRun(INIT, steps) && id in After(INIT, steps).pending
    ensures var s := After(INIT, steps);
            id in s.callers && (s.callers[id] == Registered || s.callers[id] == Waiting || s.callers[id].Leaving?)
  {
    InvInit();
    InvRun(INIT, steps);
    assert SenderInv(After(INIT, steps), id) && CallerInv(After(INIT, steps), id);
  }

  /** What one reply rules out: a message or an outcome, once there, never changes. */
  ghost predicate Settled(s: State, t: State, id: RequestId) {
    (id in s.channels && s.channels[id].Full? ==> id in t.channels && t.channels[id] == s.channels[id]) &&
    (id in s.callers && s.callers[id].Returned? ==> id in t.callers && t.callers[id] == s.callers[id])
  }

  lemma SettledStep(s: State, step: Step, id: RequestId)
    requires SenderInv(s, id) && Enabled(s, step)
    ensures Settled(s, Next(s, step), id)
  {
  }

  lemma SettledThrough(s: State, t: State, u: State, id: RequestId)
    requires Settled(s, t, id) && Settled(t, u, id)
    ensures Settled(s, u, id)
  {
  }

  lemma {:induction false} AtMostOneReply(s: State, steps: seq<Step>, id: RequestId)
    requires Inv(s) && IsRun(s, steps)
    ensures Settled(s, After(s, steps), id)
    decreases steps
  {
    if steps != [] {
      var t := Next(s, steps[0]);
      SettledStep(s, steps[0], id) by { assert SenderInv(s, id); }
      InvStep(s, steps[0]);
      AtMostOneReply(t, steps[1..], id);
      SettledThrough(s, t, After(s, steps), id);
    }
  }

  // ---- Every caller comes back ----

  function Rank(s: State, id: RequestId): nat {
    if id !in s.callers then 5
    else match s.callers[id]
      case Checked => 4
      case Registered => 3
      case Waiting => 2
      case Leaving(_) => 1
      case Returned(_) => 0
  }

  /** The caller that takes the step itself; the others are steps of listeners and closers. */
  function Owner(step: Step): Option<RequestId> {
    match step
    case Begin(id) => Some(id)
    case Insert(id) => Some(id)
    case SendOk(id) => Some(id)
    case SendFail(id) => Some(id)
    case Take(id) => Some(id)
    case SeeDropped(id) => Some(id)
    case TimeOut(id) => Some(id)
    case Leave(id) => Some(id)
    case _ => None
  }

  lemma RankStep(s: State, step: Step, id: RequestId)
    requires Enabled(s, step)
    ensures Owner(step) == Some(id) ==> Rank(Next(s, step), id) < Rank(s, id)
    ensures Owner(step) != Some(id) ==> Rank(Next(s, step), id) == Rank(s, id)
  {
  }

  function OwnSteps(steps: seq<Step>, id: RequestId): nat {
    if steps == [] then 0 else (if Owner(steps[0]) == Some(id) then 1 else 0) + OwnSteps(steps[1..], id)
  }

  /** Whatever everyone else does, a caller returns after at most five steps of its own. */
  lemma {:induction false} OwnStepsAreFew(s: State, steps: seq<Step>, id: RequestId)
    requires IsRun(s, steps)
    ensures OwnSteps(steps, id) + Rank(After(s, steps), id) <= Rank(s, id) <= 5
    decreases steps
  {
    if steps != [] {
      RankStep(s, steps[0], id);
      OwnStepsAreFew(Next(s, steps[0]), steps[1..], id);
    }
  }

  /** And it is never stuck: in every reachable state a caller that has not returned has a step to take. */
  lemma CallerIsNeverStuck(steps: seq<Step>, id: RequestId)
    requires IsRun(INIT, steps) && Rank(After(INIT, steps), id) > 0
    ensures exists step :: Owner(step) == Some(id) && Enabled(After(INIT, steps), step)
  {
    InvInit();
    InvRun(INIT, steps);
    var s := After(INIT, steps);
    assert SenderInv(s, id);
    var step :=
      if id !in s.callers then Begin(id)
      else match s.callers[id]
        case Checked => Insert(id)
        case Registered => SendOk(id)
        case Waiting => if s.channels[id].Full? then Take(id) else TimeOut(id)
        case _ => Leave(id);
    assert Owner(step) == Some(id) && Enabled(s, step);
  }

  // ---- A frame gets through ----

  /**
   * What a caller has to make of a frame: a good one is its value, one with an error text is a failure that shows it.
   */
  predicate IsReading(outcome: Outcome, frame: Frame) {
    if frame.isError then outcome == CompletionError(FromFrame(frame)) else outcome == Value(frame)
  }

  /**
   * From the moment a listener has taken the waiting request `frame` is for out of the map: where frame and caller
   * can be.
   */
  ghost predicate UnderWay(s: State, frame: Frame, timedOut: bool) {
    var id, m := frame.requestId, FromFrame(frame);
    id in s.callers && id in s.channels && id !in s.pending &&
    match s.callers[id]
    case Waiting =>
      if id in s.inHand then s.inHand[id] == m && s.channels[id].Open? else s.channels[id] == Full(m)
    case Leaving(outcome) => timedOut && outcome == TimeoutError
    case Returned(outcome) => IsReading(outcome, frame) || (timedOut && outcome == TimeoutError)
    case _ => false
  }

  lemma UnderWayStep(s: State, step: Step, frame: Frame, timedOut: bool)
    requires UnderWay(s, frame, timedOut) && Enabled(s, step)
    ensures UnderWay(Next(s, step), frame, timedOut || step == TimeOut(frame.requestId))
  {
  }

  lemma {:induction false} UnderWayRun(s: State, steps: seq<Step>, frame: Frame, timedOut: bool)
    requires UnderWay(s, frame, timedOut) && IsRun(s, steps)
    ensures UnderWay(After(s, steps), frame, timedOut || TimeOut(frame.requestId) in steps)
    decreases steps
  {
    if steps != [] {
      var end := TimeOut(frame.requestId);
      UnderWayStep(s, steps[0], frame, timedOut);
      UnderWayRun(Next(s, steps[0]), steps[1..], frame, timedOut || steps[0] == end);
      assert end in steps <==> steps[0] == end || end in steps[1..];
    }
  }

  /**
   * A frame for a waiting request gets through, whatever happens after a listener has read it: the caller can return
   * only with what that frame means or, if its own timeout came first, with the timeout; and as long as it still waits
   * the frame is about to be handed over or is ready to be taken.
   */
  lemma FrameReachesItsCaller(s: State, frame: Frame, steps: seq<Step>)
    requires Inv(s) && frame.requestId in s.pending && IsCaller(s, frame.requestId, Waiting)
    requires IsRun(Next(s, Receive(frame)), steps)
    ensures var t, id := After(Next(s, Receive(frame)), steps), frame.requestId;
            id in t.callers && id in t.channels &&
            (t.callers[id].Returned? ==>
               IsReading(t.callers[id].outcome, frame) ||
               (t.callers[id].outcome == TimeoutError && TimeOut(id) in steps)) &&
            (t.callers[id] == Waiting ==>
               (id in t.inHand && t.inHand[id] == FromFrame(frame)) || t.channels[id] == Full(FromFrame(frame)))
  {
    assert SenderInv(s, frame.requestId);
    UnderWayRun(Next(s, Receive(frame)), steps, frame, false);
  }

  lemma AnsweredRequestSucceeds(s: State, frame: Frame)
    requires IsCaller(s, frame.requestId, Waiting) && frame.requestId in s.pending && !frame.isError
    ensures var id := frame.requestId;
            var steps := [Receive(frame)] + ([Deliver(id)] + [Take(id)]);
            IsRun(s, steps) && IsCaller(After(s, steps), id, Returned(Value(frame)))
  {
    var id := frame.requestId;
    var s1 := Next(s, Receive(frame));
    var s2 := Next(s1, Deliver(id));
    assert [Take(id)] + [] == [Take(id)];
    RunCons(s2, Take(id), []);
    RunCons(s1, Deliver(id), [Take(id)]);
    RunCons(s, Receive(frame), [Deliver(id)] + [Take(id)]);
  }

  /** On a live connection, with a good frame coming back, a request that is let run ends with that frame. */
  lemma GoodRequestSucceeds(s: State, frame: Frame)
    requires s.connected && s.hasSink && frame.requestId !in s.callers && !frame.isError
    ensures var id := frame.requestId;
            var answer := [Receive(frame)] + ([Deliver(id)] + [Take(id)]);
            var steps := [Begin(id)] + ([Insert(id)] + ([SendOk(id)] + answer));
            IsRun(s, steps) && IsCaller(After(s, steps), id, Returned(Value(frame)))
  {
    var id := frame.requestId;
    var answer := [Receive(frame)] + ([Deliver(id)] + [Take(id)]);
    var s1 := Next(s, Begin(id));
    var s2 := Next(s1, Insert(id));
    AnsweredRequestSucceeds(Next(s2, SendOk(id)), frame);
    RunCons(s2, SendOk(id), answer);
    RunCons(s1, Insert(id), [SendOk(id)] + answer);
    RunCons(s, Begin(id), [Insert(id)] + ([SendOk(id)] + answer));
  }

  lemma RunCons(s: State, step: Step, rest: seq<Step>)
    requires Enabled(s, step) && IsRun(Next(s, step), rest)
    ensures IsRun(s, [step] + rest) && After(s, [step] + rest) == After(Next(s, step), rest)
  {
    assert ([step] + rest)[1..] == rest;
  }

  // ---- Every failure has its cause ----

  /** The outcome a caller has, or is leaving with. */
  function Fate(s: State, id: RequestId): Option<Outcome> {
    if id !in s.callers then None
    else match s.callers[id]
      case Leaving(outcome) => Some(outcome)
      case Returned(outcome) => Some(outcome)
      case _ => None
  }

  /** Whether there is a connection and a sink. */
  datatype Link = Link(connected: bool, hasSink: bool)

  function LinkAfter(link: Link, step: Step): Link {
    match step
    case Connect => Link(true, true)
    case Disconnect => link.(connected := false)
    case DropSink => link.(hasSink := false)
    case _ => link
  }

  /** The connection when the request began, going by the steps before alone. */
  function LinkAtBegin(link: Link, steps: seq<Step>, id: RequestId): Option<Link>
    decreases steps
  {
    if steps == [] then None
    else if steps[0] == Begin(id) then Some(link)
    else LinkAtBegin(LinkAfter(link, steps[0]), steps[1..], id)
  }

  lemma LinkStep(s: State, step: Step)
    requires Enabled(s, step)
    ensures Link(Next(s, step).connected, Next(s, step).hasSink) == LinkAfter(Link(s.connected, s.hasSink), step)
  {
  }

  lemma FateStep(s: State, step: Step, id: RequestId)
    requires Enabled(s, step)
    ensures Fate(Next(s, step), id) == Some(TimeoutError) ==> Fate(s, id) == Some(TimeoutError) || step == TimeOut(id)
    ensures Fate(Next(s, step), id) == Some(SendError) ==> Fate(s, id) == Some(SendError) || step == SendFail(id)
    ensures id in s.callers ==>
              (Fate(Next(s, step), id) == Some(NotConnected) <==> Fate(s, id) == Some(NotConnected)) &&
              (Fate(Next(s, step), id) == Some(NoSink) <==> Fate(s, id) == Some(NoSink))
    ensures id !in s.callers && step == Begin(id) ==>
              (Fate(Next(s, step), id) == Some(NotConnected) <==> !s.connected) &&
              (Fate(Next(s, step), id) == Some(NoSink) <==> s.connected && !s.hasSink)
    ensures id in s.callers || step == Begin(id) <==> id in Next(s, step).callers
  {
  }

  lemma {:induction false} FateRun(s: State, steps: seq<Step>, id: RequestId)
    requires IsRun(s, steps)
    ensures Fate(After(s, steps), id) == Some(TimeoutError) ==>
              Fate(s, id) == Some(TimeoutError) || TimeOut(id) in steps
    ensures Fate(After(s, steps), id) == Some(SendError) ==> Fate(s, id) == Some(SendError) || SendFail(id) in steps
    ensures id in s.callers ==>
              (Fate(After(s, steps), id) == Some(NotConnected) <==> Fate(s, id) == Some(NotConnected)) &&
              (Fate(After(s, steps), id) == Some(NoSink) <==> Fate(s, id) == Some(NoSink))
    decreases steps
  {
    if steps != [] {
      FateStep(s, steps[0], id);
      FateRun(Next(s, steps[0]), steps[1..], id);
      assert steps == [steps[0]] + steps[1..];
    }
  }

  lemma {:induction false} BeginRun(s: State, steps: seq<Step>, id: RequestId)
    requires IsRun(s, steps) && id !in s.callers
    ensures match LinkAtBegin(Link(s.connected, s.hasSink), steps, id)
            case None => id !in After(s, steps).callers
            case Some(Link(connected, hasSink)) =>
              (Fate(After(s, steps), id) == Some(NotConnected) <==> !connected) &&
              (Fate(After(s, steps), id) == Some(NoSink) <==> connected && !hasSink)
    decreases steps
  {
    if steps != [] {
      FateStep(s, steps[0], id);
      if steps[0] == Begin(id) {
        FateRun(Next(s, steps[0]), steps[1..], id);
      } else {
        LinkStep(s, steps[0]);
        BeginRun(Next(s, steps[0]), steps[1..], id);
      }
    }
  }

  /**
   * In every run: a caller fails for lack of a connection or a sink exactly if the client had none when the request
   * began, and with a timeout or a send error only after its own timeout or a failed send of its own.
   */
  lemma FailuresHaveCauses(steps: seq<Step>, id: RequestId)
    requires IsRun(INIT, steps) && id in After(INIT, steps).callers && After(INIT, steps).callers[id].Returned?
    ensures var outcome, began := After(INIT, steps).callers[id].outcome, LinkAtBegin(Link(false, false), steps, id);
            began.Some? &&
            (outcome == NotConnected <==> !began.value.connected) &&
            (outcome == NoSink <==> began.value.connected && !began.value.hasSink) &&
            (outcome == TimeoutError ==> TimeOut(id) in steps) && (outcome == SendError ==> SendFail(id) in steps)
  {
    FateRun(INIT, steps, id);
    BeginRun(INIT, steps, id);
  }

  /**
   * A finished pass over the map, by `close` or after a lost connection, has left nobody behind: a caller that
   * was in the map when the keys were read and still waits has its failure or its frame ready, unless that is
   * just being handed over.
   */
  lemma FinishedDrainWakesEveryone(steps: seq<Step>, d: Drain, id: RequestId)
    requires IsRun(INIT, steps)
    requires var s := After(INIT, steps);
             d in s.drains && d.left == {} && id in d.taken && IsCaller(s, id, Waiting) && id !in s.inHand
    ensures var s := After(INIT, steps);
            id !in s.pending && id in s.channels && s.channels[id].Full? && Enabled(s, Take(id))
  {
    InvInit();
    InvRun(INIT, steps);
    assert DrainInv(After(INIT, steps), d) && SenderInv(After(INIT, steps), id);
    assert id !in d.taken * After(INIT, steps).pending;
  }

  lemma {:induction false} DrainStays(s: State, steps: seq<Step>, i: nat)
    requires IsRun(s, steps) && i < |s.drains|
    ensures i < |After(s, steps).drains| && After(s, steps).drains[i].taken == s.drains[i].taken
    decreases steps
  {
    if steps != [] {
      var t := Next(s, steps[0]);
      assert i < |t.drains| && t.drains[i].taken == s.drains[i].taken;
      DrainStays(t, steps[1..], i);
    }
  }

  /**
   * So a pass, whatever happens while it runs, leaves nobody behind who was in the map when it began: once it is
   * finished, every such caller that still waits has a message ready, or one just being handed over.
   */
  lemma PassReachesEveryone(s: State, message: Message, steps: seq<Step>, id: RequestId)
    requires Inv(s) && Enabled(s, StartDrain(message)) && id in s.pending
    requires IsRun(Next(s, StartDrain(message)), steps)
    ensures var t, i := After(Next(s, StartDrain(message)), steps), |s.drains|;
            i < |t.drains| &&
            (t.drains[i].left == {} && IsCaller(t, id, Waiting) ==>
               id !in t.pending && id in t.channels && (id in t.inHand || t.channels[id].Full?))
  {
    var begun := Next(s, StartDrain(message));
    var t, i := After(begun, steps), |s.drains|;
    InvStep(s, StartDrain(message));
    InvRun(begun, steps);
    DrainStays(begun, steps, i);
    assert id in t.drains[i].taken && t.drains[i] in t.drains;
    assert DrainInv(t, t.drains[i]) && SenderInv(t, id);
    assert t.drains[i].left == {} ==> id !in t.drains[i].taken * t.pending;
  }
}
