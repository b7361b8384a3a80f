/** The serving process driven from outside: whatever happens to it in whatever order, it takes
    steps of the system and has put on the bus exactly its answers. With a caller at the other
    end of a FIFO host, a call returns what its handler made of its request. */
module Service {
  import opened Bytes
  import opened Wire
  import opened ModuleProtocol
  import opened Rpc
  import opened ModuleRuntime
  import RuntimeSafety
  import RuntimeHistory
  import EndToEnd
  import Caller = ModuleCaller

  /** What happens next: an event is polled, a handler returns or sends, a result is taken, the context is
      done, the drain receives, or the host restarts. */
  datatype Cue =
    | Arrives(packet: Packet, now: u64)
    | Returns(id: nat, response: seq<byte>, status: u16, now: u64)
    | Sends(id: nat)
    | Collects
    | ContextDone
    | Drains
    | HostRestarts

  /** While it serves, what the process has put on the bus is exactly its answers, in order. */
  ghost predicate AnswersSent(p: Process, before: seq<Packet>)
    reads p, p.port
  {
    p.phase == Serving ==>
      if MESSAGE_HDR_LEN < p.port.budget <= MAX_PAYLOAD then p.port.sent == before + Outbound(p.answers, p.port.budget)
      else p.answers == [] && p.port.sent == before
  }

  lemma StillSent(before: seq<Packet>, was: seq<Answer>, answers: seq<Answer>, sent: seq<Packet>, now: seq<Packet>, budget: u32)
    requires MESSAGE_HDR_LEN < budget <= MAX_PAYLOAD && sent == before + Outbound(was, budget)
    requires OnlyAnswersSent(was, answers, sent, now, budget)
    ensures now == before + Outbound(answers, budget)
  {
    hide AnswerPackets;
    if answers != was {
      var a := answers[|was|];
      assert answers == was + [a];
      EndToEnd.OutboundAfter(was, a, budget);
      hide Outbound;
      assert before + (Outbound(was, budget) + AnswerPackets(a, budget)) == before + Outbound(was, budget) + AnswerPackets(a, budget);
    }
  }

  lemma StepSound(cfg: Config, s: State)
    requires RuntimeSafety.Inv(cfg, s)
    ensures s.done != [] ==> s.done[0].id < |s.starts|
    ensures s.running != {} ==> |s.done| < MAX_IN_FLIGHT
  {
    hide RuntimeSafety.Accounts, RuntimeSafety.Provenance;
    if s.done != [] { assert RuntimeSafety.Owns(s, s.done[0].id); }
    if s.running != {} {
      var id :| id in s.running;
      RuntimeSafety.SendNeverBlocks(s, id);
    }
  }

  datatype Due = NoAnswer | Due(answer: Answer)

  /** The answer a cue calls for. */
  function DueAt(cfg: Config, s: State, cue: Cue): Due {
    if s.phase != Serving then NoAnswer
    else if cue.Arrives? then
      var d := Decide(cfg, s, cue.packet, cue.now);
      if d.Refused? then Due(d.answer) else NoAnswer
    else if cue.Collects? && s.done != [] && s.done[0].id < |s.starts| then Due(JobAnswer(s, s.done[0]))
    else NoAnswer
  }

  /** Whether the bus lets the process go on after a cue. */
  predicate Lets(cfg: Config, s: State, cue: Cue, budget: u32, turns: seq<Turn>)
    requires budget <= MAX_PAYLOAD
  {
    DueAt(cfg, s, cue).NoAnswer? || GoesOut(DueAt(cfg, s, cue).answer, budget, turns)
  }

  /** The one step a cue leads to, given how the bus will answer. */
  function StepFor(cfg: Config, s: State, cue: Cue, budget: u32, turns: seq<Turn>): Step
    requires budget <= MAX_PAYLOAD
  {
    match cue
    case Arrives(p, now) => Receive(p, now, Lets(cfg, s, cue, budget, turns))
    case Returns(id, response, status, now) => HandlerChecks(id, response, status, now)
    case Sends(id) => HandlerSends(id)
    case Collects => Collect(Lets(cfg, s, cue, budget, turns))
    case ContextDone => Shutdown
    case Drains => DrainOne
    case HostRestarts => Quit
  }

  function TurnsAfter(cfg: Config, s: State, cue: Cue, budget: u32, turns: seq<Turn>): seq<Turn>
    requires budget <= MAX_PAYLOAD
  {
    var due := DueAt(cfg, s, cue);
    if due.Due? && GoesOut(due.answer, budget, turns) then AfterTaken(turns, |AnswerPackets(due.answer, budget)|) else turns
  }

  /** The run a list of cues leads to. */
  function StepsFor(cfg: Config, s: State, cues: seq<Cue>, budget: u32, turns: seq<Turn>): (steps: seq<Step>)
    requires budget <= MAX_PAYLOAD
    decreases |cues|
  {
    if cues == [] then [] else
      var step := StepFor(cfg, s, cues[0], budget, turns);
      [step] + StepsFor(cfg, Apply(cfg, s, step), cues[1..], budget, TurnsAfter(cfg, s, cues[0], budget, turns))
  }

  /** A serving process goes on serving exactly if nobody ends it and the answer it owes, if any,
      goes out. */
  lemma StillServing(cfg: Config, s: State, cue: Cue, budget: u32, turns: seq<Turn>)
    requires RuntimeSafety.Inv(cfg, s) && s.phase == Serving && budget <= MAX_PAYLOAD
    ensures Apply(cfg, s, StepFor(cfg, s, cue, budget, turns)).phase == Serving <==>
      !cue.ContextDone? && !cue.HostRestarts? && Lets(cfg, s, cue, budget, turns)
  {
    hide RuntimeSafety.Inv, Decide, Settle, GoesOut, HandlerOutcome, JobAnswer;
    if cue.Arrives? {
      hide Apply;
      ArrivalServes(cfg, s, cue.packet, cue.now, Lets(cfg, s, cue, budget, turns));
    } else {
      StepSound(cfg, s);
    }
  }

  lemma ArrivalServes(cfg: Config, s: State, p: Packet, now: u64, replied: bool)
    requires s.phase == Serving
    ensures Apply(cfg, s, Receive(p, now, replied)).phase == Serving <==> !Decide(cfg, s, p, now).Refused? || replied
  {
    RuntimeSafety.DecideFits(cfg, s, p, now);
    RuntimeSafety.Settled(cfg, s, p, Decide(cfg, s, p, now), replied);
    hide Decide, Settle, RuntimeSafety.Fits;
  }

  /** Whether an answer goes out does not depend on how often the ring was full in between. */
  lemma GoesOutDespiteWaits(a: Answer, budget: u32, turns: seq<Turn>)
    requires MESSAGE_HDR_LEN < budget <= MAX_PAYLOAD
    ensures GoesOut(a, budget, turns) <==>
      a.corr != 0 && a.stageId != 0 && TakenAtOnce(WithoutWaits(turns)) >= |AnswerPackets(a, budget)|
  {
    hide AnswerPackets, TakenInTime, TakenAtOnce;
    WaitsMakeNoDifference(turns, |AnswerPackets(a, budget)|);
  }

  /** One cue: the step it leads to, and nothing on the bus but its answer. */
  method React(p: Process, cue: Cue, ghost before: seq<Packet>, ghost turns: seq<Turn>) returns (ghost step: Step)
    requires RuntimeSafety.Inv(p.cfg, p.Abstract()) && p.port.budget <= MAX_PAYLOAD && AnswersSent(p, before)
    requires p.phase == Serving ==> p.port.turns == turns
    modifies p, p.port
    ensures step == StepFor(p.cfg, old(p.Abstract()), cue, p.port.budget, turns)
    ensures p.Abstract() == Apply(p.cfg, old(p.Abstract()), step) && AnswersSent(p, before)
    ensures p.phase == Serving ==> p.port.turns == TurnsAfter(p.cfg, old(p.Abstract()), cue, p.port.budget, turns)
  {
    hide Settle, Decide, HandlerOutcome, JobAnswer, Outbound, OnlyAnswersSent, RuntimeSafety.Inv, GoesOut, AnswerPackets, AfterTaken;
    StepSound(p.cfg, p.Abstract());
    ghost var was, sent := p.answers, p.port.sent;
    step := StepFor(p.cfg, p.Abstract(), cue, p.port.budget, turns);
    match cue
    case Arrives(packet, now) =>
      if p.phase == Serving {
        var err := p.HandleEvent(packet, now);
        Answered(p, before, was, sent, err);
      }
    case Returns(id, response, status, now) =>
      if id in p.running && id !in p.checked && id < |p.starts| {
        p.CheckHandler(id, response, status, now);
      }
    case Sends(id) =>
      if id in p.running && id in p.checked {
        p.SendResult(id);
      }
    case Collects =>
      if p.phase == Serving && p.done != [] {
        var err := p.FinishWork();
        Answered(p, before, was, sent, err);
      }
    case ContextDone =>
      if p.phase == Serving { p.BeginShutdown(); }
    case Drains =>
      if p.phase == Draining && p.done != [] { p.DrainResult(); }
    case HostRestarts =>
      if p.phase == Serving { p.Leave(); }
  }

  lemma Answered(p: Process, before: seq<Packet>, was: seq<Answer>, sent: seq<Packet>, err: SendError)
    requires p.port.budget <= MAX_PAYLOAD
    requires err.Sent? ==> OnlyAnswersSent(was, p.answers, sent, p.port.sent, p.port.budget)
    requires if p.port.budget > MESSAGE_HDR_LEN then sent == before + Outbound(was, p.port.budget) else was == [] && sent == before
    requires !err.Sent? ==> p.phase != Serving
    ensures AnswersSent(p, before)
  {
    hide Outbound, AnswerPackets;
    if err.Sent? && p.port.budget > MESSAGE_HDR_LEN {
      StillSent(before, was, p.answers, sent, p.port.sent, p.port.budget);
    }
  }

  /** Any sequence of cues from a fresh process: it takes the steps they lead to, so all the laws
      of runs hold, and while it serves exactly its answers are on the bus. */
  method Drive(p: Process, cues: seq<Cue>, ghost history: seq<Step>, ghost before: seq<Packet>) returns (ghost steps: seq<Step>)
    requires p.Abstract() == Run(p.cfg, Fresh, history) && p.port.budget <= MAX_PAYLOAD && AnswersSent(p, before)
    modifies p, p.port
    ensures steps == StepsFor(p.cfg, Run(p.cfg, Fresh, history), cues, p.port.budget, old(p.port.turns))
    ensures p.Abstract() == Run(p.cfg, Run(p.cfg, Fresh, history), steps) && AnswersSent(p, before)
  {
    hide Apply, RuntimeSafety.Inv, AnswersSent, StepsFor, StepFor, TurnsAfter;
    steps := [];
    RuntimeSafety.FreshInv(p.cfg);
    RuntimeSafety.RunKeepsInv(p.cfg, Fresh, history);
    ghost var start, all := Run(p.cfg, Fresh, history), StepsFor(p.cfg, Run(p.cfg, Fresh, history), cues, p.port.budget, p.port.turns);
    ghost var turns := p.port.turns;
    var i := 0;
    assert cues[0..] == cues && [] + all == all;
    while i < |cues|
      invariant 0 <= i <= |cues|
      invariant p.Abstract() == Run(p.cfg, start, steps) && AnswersSent(p, before)
      invariant RuntimeSafety.Inv(p.cfg, p.Abstract()) && (p.phase == Serving ==> p.port.turns == turns)
      invariant steps + StepsFor(p.cfg, p.Abstract(), cues[i..], p.port.budget, turns) == all
    {
      ghost var s := p.Abstract();
      NextStep(p.cfg, s, cues, i, p.port.budget, turns);
      ghost var step := React(p, cues[i], before, turns);
      RuntimeSafety.StepKeepsInv(p.cfg, s, step);
      RuntimeHistory.RunOneMore(p.cfg, start, steps, step);
      turns := TurnsAfter(p.cfg, s, cues[i], p.port.budget, turns);
      steps, i := steps + [step], i + 1;
    }
    NoMoreCues(p.cfg, p.Abstract(), p.port.budget, turns);
    assert cues[i..] == [] && steps + [] == steps;
  }

  lemma NoMoreCues(cfg: Config, s: State, budget: u32, turns: seq<Turn>)
    requires budget <= MAX_PAYLOAD
    ensures StepsFor(cfg, s, [], budget, turns) == []
  {}

  lemma NextStep(cfg: Config, s: State, cues: seq<Cue>, i: nat, budget: u32, turns: seq<Turn>)
    requires i < |cues| && budget <= MAX_PAYLOAD
    ensures var step := StepFor(cfg, s, cues[i], budget, turns);
      StepsFor(cfg, s, cues[i..], budget, turns) ==
      [step] + StepsFor(cfg, Apply(cfg, s, step), cues[i + 1..], budget, TurnsAfter(cfg, s, cues[i], budget, turns))
  {
    hide StepFor, TurnsAfter, Apply;
    assert cues[i..][0] == cues[i] && cues[i..][1..] == cues[i + 1..];
  }

  /** The process serves the call's stage, the call is new to it, nothing hindered its fragments, and
      at the end it is still serving and the call's job is done. */
  ghost predicate Undisturbed(cfg: Config, history: seq<Step>, steps: seq<Step>, call: Envelope) {
    var s := Run(cfg, Fresh, history);
    && EndToEnd.Served(cfg, call) && EndToEnd.FreshCall(s, call.corr)
    && EndToEnd.Smooth(cfg, s, steps, call.corr, call.deadlineNs)
    && Run(cfg, s, steps).phase == Serving && call.corr !in Run(cfg, s, steps).jobs
  }

  /** The process has served a call, given its packets by a FIFO host: they were all it polled for
      that correlation. */
  ghost predicate HasServed(cfg: Config, history: seq<Step>, steps: seq<Step>, call: Envelope, request: seq<byte>, budget: u32)
    requires MESSAGE_HDR_LEN < budget <= MAX_PAYLOAD && call.pattern == F_REQUEST
  {
    Undisturbed(cfg, history, steps, call) &&
    EndToEnd.OwnPolled(steps, call.corr) == Packets(call, request, budget - MESSAGE_HDR_LEN)
  }

  /** The caller's host hands it exactly what the process put on the bus for it, among anything
      else, and neither its context nor its expiry ends the wait. */
  ghost predicate HandsOver(polls: seq<Caller.Polled>, sent: seq<Packet>, corr: u64) {
    EndToEnd.Calm(polls) && EndToEnd.OwnDelivered(polls, corr) == EndToEnd.Select(sent, corr)
  }

  /** A call over FIFO hosts: what it sends is what the process polls for it, and what the process
      puts on the bus for it is what it polls. The handler ran once, on exactly the request, and
      the call returns its body or its status. */
  method CallServed(
    caller: Caller.ModuleCaller, p: Process, ghost history: seq<Step>, ghost steps: seq<Step>, kind: u32, stageId: u32,
    traceId: u64, deadlineNs: u64, request: seq<byte>, polls: seq<Caller.Polled>)
    returns (r: Caller.CallResult, ghost id: nat, ghost k: nat)
    requires p.Abstract() == Run(p.cfg, Run(p.cfg, Fresh, history), steps) && AnswersSent(p, [])
    requires MESSAGE_HDR_LEN < p.port.budget <= MAX_PAYLOAD && MESSAGE_HDR_LEN < caller.port.budget <= MAX_PAYLOAD
    requires caller.port != p.port && |request| <= MAX_BODY && kind != KIND_CAPABILITY_ABSENT && kind != KIND_ERROR
    requires Caller.WillSend(caller.port.budget, caller.port.turns, NextCall(caller, kind, stageId, deadlineNs, traceId), request)
    requires HasServed(p.cfg, history, steps, NextCall(caller, kind, stageId, deadlineNs, traceId), request, caller.port.budget)
    requires HandsOver(polls, p.port.sent, NextCall(caller, kind, stageId, deadlineNs, traceId).corr)
    modifies caller`correlation, caller.port
    ensures EndToEnd.ReturnsAt(steps, k, id) && r.Returned?
    ensures EndToEnd.Tells(r.outcome, deadlineNs, steps[k].now, steps[k].status, steps[k].response)
    ensures old(caller.port.sent) + EndToEnd.OwnPolled(steps, caller.correlation) <= caller.port.sent
    ensures EndToEnd.RanOnce(Run(p.cfg, Fresh, history), p.Abstract(),
      Work(kind, caller.correlation, stageId, deadlineNs, traceId), request, id)
  {
    hide EndToEnd.Smooth, EndToEnd.Calm, EndToEnd.FreshCall, EndToEnd.RanOnce, EndToEnd.OwnPolled, EndToEnd.OwnDelivered,
      EndToEnd.Select, EndToEnd.Tells, Outbound, Run, Packets, Caller.Await;
    ghost var call := NextCall(caller, kind, stageId, deadlineNs, traceId);
    assert [] + Outbound(p.answers, p.port.budget) == Outbound(p.answers, p.port.budget);
    id, k := EndToEnd.CallEndToEnd(p.cfg, history, steps, kind, call.corr, stageId, deadlineNs, traceId,
      request, caller.port.budget, p.port.budget, polls);
    ghost var used;
    r, used := caller.Call(kind, stageId, traceId, deadlineNs, request, polls);
  }

  /** The envelope of the caller's next call. */
  ghost function NextCall(caller: Caller.ModuleCaller, kind: u32, stageId: u32, deadlineNs: u64, traceId: u64): (e: Envelope)
    reads caller
    ensures e.pattern == F_REQUEST
  {
    Caller.RequestEnvelope(kind, (caller.correlation + 1) % TWO_64, stageId, deadlineNs, traceId)
  }
}
