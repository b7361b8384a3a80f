/** The serving loop of a module process: request assemblies, a job table, handler goroutines,
    a bounded result channel, cancellation, deadlines and shutdown.

    The state carries its own history: the log of polled events with what became of each, the
    answers sent, the handler starts and the handler returns. */
module ModuleRuntime {
  import opened Bytes
  import opened Wire
  import opened ModuleProtocol
  import opened Rpc
  import Client

  const MAX_IN_FLIGHT := 16

  /** The event kinds served, each with its stage, and whether a handler is configured. */
  datatype Config = Config(stages: map<u32, u32>, hasHandler: bool)

  datatype Assembly = Assembly(kind: u32, message: Message, body: seq<byte>)
  datatype Work = Work(kind: u32, corr: u64, stageId: u32, deadlineNs: u64, traceId: u64)
  datatype Start = Start(work: Work, body: seq<byte>)
  datatype Finish = Finish(response: seq<byte>, status: u16, sawCancel: bool, now: u64)
  datatype Outcome = Outcome(status: u16, body: seq<byte>)
  datatype Result = Result(id: nat, outcome: Outcome)

  datatype Origin = ForFrame | ForJob(id: nat)
  datatype Answer = Answer(origin: Origin, kind: u32, corr: u64, stageId: u32, traceId: u64, outcome: Outcome)
  {
    function AsEnvelope(): Envelope {
      Envelope(F_REPLY, kind, corr, OP_RESULT, outcome.status, stageId, 0, traceId)
    }
  }

  datatype Disposition = Ignored | CancelSeen | Absorbed | Refused(answer: Answer) | Started(id: nat)
  datatype Entry = Entry(packet: Packet, disposition: Disposition)
  datatype Phase = Serving | Draining | Stopped

  /** A handler runs until its result is in the channel; checked holds the outcomes of handlers that
      have returned and made their final checks. Jobs are named by the index of their start; the cancel flag of a job is membership in cancelled. */
  datatype State = State(
    assemblies: map<u64, Assembly>, jobs: map<u64, nat>, cancelled: set<nat>,
    running: set<nat>, checked: map<nat, Outcome>, done: seq<Result>, phase: Phase,
    log: seq<Entry>, answers: seq<Answer>, starts: seq<Start>, finishes: map<nat, Finish>)

  const Fresh := State(map[], map[], {}, {}, map[], [], Serving, [], [], [], map[])

  datatype Step =
    | Receive(packet: Packet, now: u64, replied: bool)
    | HandlerChecks(id: nat, response: seq<byte>, status: u16, now: u64)
    | HandlerSends(id: nat)
    | Collect(replied: bool)
    | Shutdown
    | DrainOne
    | Quit

  /** What replyModuleResult makes of a result: an impossible one becomes an internal error, and
      only an OK result keeps its body. */
  function Normal(status: u16, body: seq<byte>): Outcome {
    if !ValidStatus(status) || |body| > MAX_BODY then Outcome(STATUS_INTERNAL, [])
    else if status != STATUS_OK then Outcome(status, [])
    else Outcome(STATUS_OK, body)
  }

  predicate Expired(deadlineNs: u64, now: u64) {
    deadlineNs != 0 && now != 0 && now >= deadlineNs
  }

  /** What runHandler queues for a handler's return. */
  function HandlerOutcome(deadlineNs: u64, f: Finish): Outcome {
    if f.sawCancel then Outcome(STATUS_CANCELLED, [])
    else if Expired(deadlineNs, f.now) then Outcome(STATUS_DEADLINE_EXCEEDED, [])
    else Normal(f.status, f.response)
  }

  function FrameAnswer(p: Packet, stageId: u32, traceId: u64, status: u16): Answer {
    Answer(ForFrame, p.kind, p.corr, stageId, traceId, Outcome(status, []))
  }

  function ExpectedStage(cfg: Config, p: Packet): u32 {
    if p.kind in cfg.stages then cfg.stages[p.kind] else 0
  }

  /** The assembly this fragment extends, before it is added. */
  function Prior(s: State, p: Packet, m: Message): Assembly {
    if p.corr in s.assemblies then s.assemblies[p.corr] else Assembly(p.kind, m, [])
  }

  predicate Continues(a: Assembly, p: Packet, m: Message) {
    a.kind == p.kind && a.message.stageId == m.stageId && a.message.deadlineNs == m.deadlineNs && a.message.traceId == m.traceId
  }

  /** An envelope that invokes the stage its kind is served under, for a correlation that is not
      already a job and, if it continues an assembly, agrees with it. */
  predicate Acceptable(cfg: Config, s: State, p: Packet) {
    var d := ModuleProtocol.Decode(p.payload);
    && ExpectedStage(cfg, p) != 0
    && d.Message? && d.message.operation == OP_INVOKE && d.message.stageId == ExpectedStage(cfg, p)
    && p.corr !in s.jobs
    && Continues(Prior(s, p, d.message), p, d.message)
  }

  /** What becomes of a polled event, branch by branch. */
  function Decide(cfg: Config, s: State, p: Packet, now: u64): Disposition {
    if p.Has(F_CANCEL) then CancelSeen
    else if !p.Has(F_REQUEST) then Ignored
    else if !Acceptable(cfg, s, p) then
      var stage := ExpectedStage(cfg, p);
      Refused(FrameAnswer(p, if stage == 0 then 1 else stage, 0, STATUS_INVALID_REQUEST))
    else DecideFragment(cfg, s, p, ModuleProtocol.Decode(p.payload).message, now)
  }

  /** An acceptable fragment: room in the table, room in the body, then more to come or whole. */
  function DecideFragment(cfg: Config, s: State, p: Packet, m: Message, now: u64): Disposition {
    if p.corr !in s.assemblies && |s.assemblies| >= MAX_IN_FLIGHT then Refused(FrameAnswer(p, ExpectedStage(cfg, p), m.traceId, STATUS_INTERNAL))
    else if |Prior(s, p, m).body| + m.bodyLen > MAX_BODY then Refused(FrameAnswer(p, ExpectedStage(cfg, p), m.traceId, STATUS_INTERNAL))
    else if p.Has(F_MORE) then Absorbed
    else DecideWhole(cfg, s, p, m, now)
  }

  /** A completed request: not expired, served, and a job slot free. */
  function DecideWhole(cfg: Config, s: State, p: Packet, m: Message, now: u64): Disposition {
    if m.DeadlineExpired(now) then Refused(FrameAnswer(p, ExpectedStage(cfg, p), m.traceId, STATUS_DEADLINE_EXCEEDED))
    else if !cfg.hasHandler then Refused(FrameAnswer(p, ExpectedStage(cfg, p), m.traceId, STATUS_CAPABILITY_ABSENT))
    else if |s.jobs| >= MAX_IN_FLIGHT then Refused(FrameAnswer(p, ExpectedStage(cfg, p), m.traceId, STATUS_INTERNAL))
    else Started(|s.starts|)
  }

  /** The state after refusing p: answered, or stopped if the answer could not be sent. */
  function RefuseState(s: State, p: Packet, a: Answer, replied: bool): State {
    var l := s.(log := s.log + [Entry(p, Refused(a))]);
    if replied then l.(answers := s.answers + [a]) else l.(phase := Stopped)
  }

  /** The state after starting job id on a completed request. */
  function StartState(s: State, p: Packet, id: nat, start: Start): State {
    s.(log := s.log + [Entry(p, Started(id))], jobs := s.jobs[p.corr := id], running := s.running + {id},
       starts := s.starts + [start])
  }

  function StartOf(cfg: Config, p: Packet, m: Message, body: seq<byte>): Start {
    Start(Work(p.kind, p.corr, ExpectedStage(cfg, p), m.deadlineNs, m.traceId), body)
  }

  /** The state once the event p has met the fate d. */
  function Settle(cfg: Config, s: State, p: Packet, d: Disposition, replied: bool): State
    requires d.Absorbed? || d.Started? ==> ModuleProtocol.Decode(p.payload).Message?
  {
    var without := s.(assemblies := s.assemblies - {p.corr});
    match d
    case Ignored => s.(log := s.log + [Entry(p, Ignored)])
    case CancelSeen =>
      without.(log := s.log + [Entry(p, CancelSeen)],
         cancelled := if p.corr in s.jobs then s.cancelled + {s.jobs[p.corr]} else s.cancelled)
    case Absorbed =>
      var a := Prior(s, p, ModuleProtocol.Decode(p.payload).message);
      s.(log := s.log + [Entry(p, Absorbed)], assemblies := s.assemblies[p.corr := a.(body := a.body + p.BodyPart())])
    case Refused(answer) => RefuseState(without, p, answer, replied)
    case Started(id) =>
      var m := ModuleProtocol.Decode(p.payload).message;
      StartState(without, p, id, StartOf(cfg, p, m, Prior(s, p, m).body + p.BodyPart()))
  }

  function JobAnswer(s: State, r: Result): Answer
    requires r.id < |s.starts|
  {
    var w := s.starts[r.id].work;
    Answer(ForJob(r.id), w.kind, w.corr, w.stageId, w.traceId, Normal(r.outcome.status, r.outcome.body))
  }

  /** One step of the process. A step that is not possible in the state changes nothing. */
  function Apply(cfg: Config, s: State, step: Step): State {
    match step
    case Receive(p, now, replied) =>
      if s.phase == Serving then Settle(cfg, s, p, Decide(cfg, s, p, now), replied) else s
    case HandlerChecks(id, response, status, now) =>
      if id in s.running && id !in s.checked && id < |s.starts| then
        var f := Finish(response, status, id in s.cancelled, now);
        s.(finishes := s.finishes[id := f], checked := s.checked[id := HandlerOutcome(s.starts[id].work.deadlineNs, f)])
      else s
    case HandlerSends(id) =>
      if id in s.running && id in s.checked
      then s.(running := s.running - {id}, checked := s.checked - {id}, done := s.done + [Result(id, s.checked[id])])
      else s
    case Collect(replied) =>
      if s.phase == Serving && s.done != [] && s.done[0].id < |s.starts| then
        var r := s.done[0];
        var c := s.(done := s.done[1..], jobs := s.jobs - {s.starts[r.id].work.corr});
        if replied then c.(answers := s.answers + [JobAnswer(s, r)]) else c.(phase := Stopped)
      else s
    case Shutdown =>
      if s.phase == Serving
      then s.(cancelled := s.cancelled + s.jobs.Values, phase := if s.jobs == map[] then Stopped else Draining)
      else s
    case DrainOne =>
      if s.phase == Draining && s.done != [] && s.done[0].id < |s.starts| then
        var left := s.jobs - {s.starts[s.done[0].id].work.corr};
        s.(done := s.done[1..], jobs := left, phase := if left == map[] then Stopped else Draining)
      else s
    case Quit =>
      if s.phase == Serving then s.(phase := Stopped) else s
  }

  function Run(cfg: Config, s: State, steps: seq<Step>): State
    decreases |steps|
  {
    if steps == [] then s else Run(cfg, Apply(cfg, s, steps[0]), steps[1..])
  }

  /** The packets one answer is sent as. */
  function AnswerPackets(a: Answer, budget: u32): seq<Packet>
    requires MESSAGE_HDR_LEN < budget <= MAX_PAYLOAD
  {
    Packets(a.AsEnvelope(), a.outcome.body, budget - MESSAGE_HDR_LEN)
  }

  /** What is on the bus for an answer: each packet is a result of the stage with the answer's status and
      trace, its flags are FReply, FInline and FMore on all but the last, and it carries its part. */
  lemma AnswerOnBus(a: Answer, budget: u32, k: nat)
    requires a.corr != 0 && a.stageId != 0 && a.outcome.status <= 5 && |a.outcome.body| <= MAX_BODY
    requires MESSAGE_HDR_LEN < budget <= MAX_PAYLOAD && k < |AnswerPackets(a, budget)|
    ensures var ps, parts := AnswerPackets(a, budget), Parts(a.outcome.body, budget - MESSAGE_HDR_LEN);
      && |ps| == |parts| && ps[k].kind == a.kind && ps[k].corr == a.corr
      && ps[k].flags == (if k < |ps| - 1 then 0x91 else 0x11) && ps[k].BodyPart() == parts[k]
      && ModuleProtocol.Decode(ps[k].payload) ==
        DecodedMessage.Message(Message.Message(2, a.outcome.status, a.stageId, 0, |parts[k]|, 0, a.traceId))
  {
    var e, c := a.AsEnvelope(), budget - MESSAGE_HDR_LEN;
    PacketsCarryParts(e, a.outcome.body, c);
    hide Packets, Parts, Envelope.PacketFor, ModuleProtocol.Decode, Packet.BodyPart;
    PacketSays(e, Parts(a.outcome.body, c)[k], k < |Parts(a.outcome.body, c)| - 1);
  }

  /** An answer can be sent whole: it has room for the header, it is a message of a correlation, and
      the bus takes each of its fragments in time. */
  predicate GoesOut(a: Answer, budget: u32, turns: seq<Turn>)
    requires budget <= MAX_PAYLOAD
  {
    budget > MESSAGE_HDR_LEN && a.corr != 0 && a.stageId != 0 && TakenInTime(turns, |AnswerPackets(a, budget)|)
  }

  /** The answer went out, each packet once and in order, exactly if it could; else a part of it. */
  ghost predicate Replied(a: Answer, budget: u32, err: SendError, turns: seq<Turn>, later: seq<Turn>, before: seq<Packet>, sent: seq<Packet>)
    requires budget <= MAX_PAYLOAD
  {
    && (err.Sent? <==> GoesOut(a, budget, turns))
    && (err.Sent? ==> later == AfterTaken(turns, |AnswerPackets(a, budget)|) && sent == before + AnswerPackets(a, budget))
    && (if budget > MESSAGE_HDR_LEN then before <= sent <= before + AnswerPackets(a, budget) else sent == before)
  }

  /** Everything a list of answers puts on the bus, in order. */
  function Outbound(answers: seq<Answer>, budget: u32): seq<Packet>
    requires MESSAGE_HDR_LEN < budget <= MAX_PAYLOAD
  {
    if answers == [] then [] else
      Outbound(answers[..|answers| - 1], budget) + AnswerPackets(answers[|answers| - 1], budget)
  }

  /** A process as its inventory describes it; a stage is an event kind and a stage id. */
  datatype ProcessConfig = ProcessConfig(
    socketPath: string, moduleName: string, principalClass: u32, principalRef: u32, stages: seq<(u32, u32)>)

  /** The kinds a configuration serves, or a refusal of one without socket, name, principal or
      stages, with a stage without kind or id, or with a kind listed twice. */
  method StageTable(config: ProcessConfig) returns (ok: bool, table: map<u32, u32>)
    ensures ok <==> (
      && config.socketPath != "" && config.moduleName != "" && config.principalClass != 0 && config.principalRef != 0
      && config.stages != []
      && (forall k :: 0 <= k < |config.stages| ==> config.stages[k].0 != 0 && config.stages[k].1 != 0)
      && (forall j, k :: 0 <= j < k < |config.stages| ==> config.stages[j].0 != config.stages[k].0))
    ensures ok ==> forall kind: u32, id: u32 :: kind in table && table[kind] == id <==> (kind, id) in config.stages
  {
    var stages := config.stages;
    table := map[];
    if config.socketPath == "" || config.moduleName == "" || config.principalClass == 0 || config.principalRef == 0 || stages == [] {
      return false, table;
    }
    NoStages(stages);
    hide Tabled;
    var i := 0;
    while i < |stages|
      invariant 0 <= i <= |stages| && Tabled(stages[..i], table)
    {
      var stage := stages[i];
      if stage.0 == 0 || stage.1 == 0 {
        return false, table;
      }
      if stage.0 in table {
        ListedTwice(stages, i, table);
        return false, table;
      }
      assert stages[..i + 1] == stages[..i] + [stage];
      OneStageMore(stages[..i], stage, table);
      table := table[stage.0 := stage.1];
      i := i + 1;
    }
    assert stages[..i] == stages;
    AllTabled(stages, table);
    return true, table;
  }

  /** The table serves exactly these stages, which are legal and of distinct kinds. */
  ghost predicate Tabled(stages: seq<(u32, u32)>, table: map<u32, u32>) {
    && (forall k :: 0 <= k < |stages| ==> stages[k].0 != 0 && stages[k].1 != 0)
    && (forall j, k :: 0 <= j < k < |stages| ==> stages[j].0 != stages[k].0)
    && (forall k :: 0 <= k < |stages| ==> stages[k].0 in table && table[stages[k].0] == stages[k].1)
    && (forall kind :: kind in table ==> (kind, table[kind]) in stages)
  }

  lemma NoStages(stages: seq<(u32, u32)>)
    ensures Tabled(stages[..0], map[])
  {}

  lemma OneStageMore(stages: seq<(u32, u32)>, stage: (u32, u32), table: map<u32, u32>)
    requires Tabled(stages, table) && stage.0 != 0 && stage.1 != 0 && stage.0 !in table
    ensures Tabled(stages + [stage], table[stage.0 := stage.1])
  {
    var more := stages + [stage];
    assert more[|stages|] == stage;
  }

  lemma ListedTwice(stages: seq<(u32, u32)>, i: nat, table: map<u32, u32>)
    requires i < |stages| && Tabled(stages[..i], table) && stages[i].0 in table
    ensures exists j, k :: 0 <= j < k < |stages| && stages[j].0 == stages[k].0
  {
    var j :| 0 <= j < i && stages[..i][j] == (stages[i].0, table[stages[i].0]);
    assert stages[j].0 == stages[i].0;
  }

  lemma AllTabled(stages: seq<(u32, u32)>, table: map<u32, u32>)
    requires Tabled(stages, table)
    ensures forall k :: 0 <= k < |stages| ==> stages[k].0 != 0 && stages[k].1 != 0
    ensures forall j, k :: 0 <= j < k < |stages| ==> stages[j].0 != stages[k].0
    ensures forall kind: u32, id: u32 :: kind in table && table[kind] == id <==> (kind, id) in stages
  {}

  /** The serving process. Its job and assembly tables, flags and channel are mutable fields; the
      event log, the answers and the handler returns are ghost history. */
  class Process {
    const cfg: Config
    const port: Port
    var assemblies: map<u64, Assembly>
    var jobs: map<u64, nat>
    var cancelled: set<nat>
    var running: set<nat>
    var checked: map<nat, Outcome>
    var done: seq<Result>
    var phase: Phase
    var starts: seq<Start>
    ghost var log: seq<Entry>
    ghost var answers: seq<Answer>
    ghost var finishes: map<nat, Finish>

    ghost function Abstract(): State
      reads this
    {
      State(assemblies, jobs, cancelled, running, checked, done, phase, log, answers, starts, finishes)
    }

    constructor (cfg: Config, port: Port)
      ensures this.cfg == cfg && this.port == port && Abstract() == Fresh
    {
      this.cfg, this.port := cfg, port;
      assemblies, jobs, cancelled, running, checked, done, phase := map[], map[], {}, {}, map[], [], Serving;
      starts, log, answers, finishes := [], [], [], map[];
    }

    /** Offers one reply fragment until the bus takes it; each retry leaves nothing behind. */
    method SendReplyPart(e: Envelope, part: seq<byte>, more: bool, frame: array<byte>) returns (err: SendError)
      requires e.pattern == F_REPLY && |part| <= MAX_BODY && frame.Length >= MESSAGE_HDR_LEN + |part|
      modifies port, frame
      ensures err.Sent? <==> e.Valid() && TakenInTime(old(port.turns), 1)
      ensures e.Valid() && !err.Sent? ==>
        var later := AfterWaits(old(port.turns));
        if later != [] && later[0].Fail? then err == ErrBus(later[0].why)
        else if later != [] && !later[0].contextDone then err == ErrBus(Client.ErrEpoch)
        else err == ErrContext
      ensures err.Sent? ==> port.turns == AfterWaits(old(port.turns))[1..]
      ensures err.Sent? ==> port.sent == old(port.sent) + [e.PacketFor(part, more)]
      ensures !err.Sent? ==> port.sent == old(port.sent)
    {
      hide ModuleProtocol.Header;
      var ok, payload := BuildPayload(e, part, frame);
      if !ok {
        return ErrMessage;
      }
      while true
        invariant port.sent == old(port.sent) && AfterWaits(port.turns) == AfterWaits(old(port.turns))
        decreases |port.turns|
      {
        var t := port.Offer(F_REPLY, e.kind, e.corr, payload, more);
        if t.Accept? {
          return Sent;
        }
        if t.Fail? {
          return ErrBus(t.why);
        }
        if t.contextDone {
          return ErrContext;
        }
        if t.epochChanged {
          return ErrBus(Client.ErrEpoch);
        }
      }
    }

    /** Sends one body as its fragments, each exactly once however often the ring was full. */
    method SendFragments(e: Envelope, body: seq<byte>) returns (err: SendError)
      requires MESSAGE_HDR_LEN < port.budget <= MAX_PAYLOAD && e.pattern == F_REPLY
      modifies port
      ensures old(port.sent) <= port.sent <= old(port.sent) + Packets(e, body, port.budget - MESSAGE_HDR_LEN)
      ensures err.Sent? ==> port.sent == old(port.sent) + Packets(e, body, port.budget - MESSAGE_HDR_LEN)
      ensures err.Sent? <==> e.Valid() && TakenInTime(old(port.turns), |Packets(e, body, port.budget - MESSAGE_HDR_LEN)|)
      ensures err.Sent? ==> port.turns == AfterTaken(old(port.turns), |Packets(e, body, port.budget - MESSAGE_HDR_LEN)|)
    {
      hide Packets, ModuleProtocol.Header, Envelope.PacketFor, Remaining;
      var chunk := port.budget - MESSAGE_HDR_LEN;
      var frame := new byte[port.budget](_ => 0);
      var offset, first := 0, true;
      ghost var all := Packets(e, body, chunk);
      RemainingAtFirst(e, body, chunk);
      while first || offset < |body|
        invariant 0 <= offset <= |body|
        invariant old(port.sent) <= port.sent
        invariant port.sent + Remaining(e, body, offset, first, chunk) == old(port.sent) + all
        invariant !first ==> e.Valid()
        invariant TakenInTime(old(port.turns), |all|) == TakenInTime(port.turns, |Remaining(e, body, offset, first, chunk)|)
        invariant AfterTaken(old(port.turns), |all|) == AfterTaken(port.turns, |Remaining(e, body, offset, first, chunk)|)
        decreases first, |body| - offset
      {
        var part := |body| - offset;
        if part > chunk {
          part := chunk;
        }
        RemainingStep(e, body, offset, first, chunk, part);
        first := false;
        err := SendReplyPart(e, body[offset..offset + part], offset + part < |body|, frame);
        if !err.Sent? {
          return err;
        }
        offset := offset + part;
      }
      NoneRemain(e, body, chunk);
      return Sent;
    }

    /** Sends one result: an impossible one as an internal error, a non-OK one without its body. */
    method ReplyResult(a: Answer) returns (err: SendError)
      requires port.budget <= MAX_PAYLOAD
      modifies port
      ensures port.budget <= MESSAGE_HDR_LEN ==> err == ErrRuntime
      ensures Replied(a.(outcome := Normal(a.outcome.status, a.outcome.body)), port.budget, err, old(port.turns), port.turns, old(port.sent), port.sent)
    {
      hide Packets, ModuleProtocol.Header, TakenInTime, AfterTaken;
      var status, body := a.outcome.status, a.outcome.body;
      if !ValidStatus(status) || |body| > MAX_BODY {
        status, body := STATUS_INTERNAL, [];
      } else if status != STATUS_OK {
        body := [];
      }
      if port.budget <= MESSAGE_HDR_LEN {
        return ErrRuntime;
      }
      err := SendFragments(a.(outcome := Outcome(status, body)).AsEnvelope(), body);
    }

    /** Answers a refused frame; a reply the bus will not take ends the process. */
    method Refuse(p: Packet, a: Answer) returns (err: SendError)
      requires port.budget <= MAX_PAYLOAD
      requires a.outcome.status != STATUS_OK && a.outcome.body == [] && ValidStatus(a.outcome.status)
      modifies this`log, this`answers, this`phase, port
      ensures Abstract() == RefuseState(old(Abstract()), p, a, err.Sent?)
      ensures !err.Sent? ==> phase == Stopped
      ensures err.Sent? ==> OnlyAnswersSent(old(answers), answers, old(port.sent), port.sent, port.budget)
      ensures Replied(a, port.budget, err, old(port.turns), port.turns, old(port.sent), port.sent)
    {
      hide AnswerPackets, TakenInTime, AfterTaken;
      log := log + [Entry(p, Refused(a))];
      err := ReplyResult(a);
      if err.Sent? {
        answers := answers + [a];
      } else {
        phase := Stopped;
      }
    }

    /** Enters the job in the table and sets its handler running. */
    method StartJob(p: Packet, start: Start)
      modifies this
      ensures Abstract() == StartState(old(Abstract()), p, |old(starts)|, start)
      ensures answers == old(answers)
    {
      var id := |starts|;
      jobs := jobs[p.corr := id];
      starts := starts + [start];
      running := running + {id};
      log := log + [Entry(p, Started(id))];
    }

    /** Handles one polled event. The new state is the step's, and exactly the answers added were sent. */
    method HandleEvent(p: Packet, now: u64) returns (err: SendError)
      requires phase == Serving && port.budget <= MAX_PAYLOAD
      modifies this, port
      ensures Abstract() == Apply(cfg, old(Abstract()), Receive(p, now, err.Sent?))
      ensures !err.Sent? ==> phase == Stopped
      ensures err.Sent? ==> OnlyAnswersSent(old(answers), answers, old(port.sent), port.sent, port.budget)
      ensures var d := Decide(cfg, old(Abstract()), p, now);
        if d.Refused? then Replied(d.answer, port.budget, err, old(port.turns), port.turns, old(port.sent), port.sent)
        else err.Sent? && port.turns == old(port.turns) && port.sent == old(port.sent)
    {
      hide Replied, DecideFragment, Acceptable, RefuseState, Settle, OnlyAnswersSent, ModuleProtocol.Decode;
      ghost var s0 := Abstract();
      var d := TakeEvent(p, now);
      SettledIsApplied(cfg, s0, p, d, now);
      NothingSent(answers, port.sent, port.budget);
      if d.Refused? {
        err := Refuse(p, d.answer);
      } else {
        err := Sent;
      }
    }

    /** Everything about a polled event but sending its answer. */
    method TakeEvent(p: Packet, now: u64) returns (d: Disposition)
      modifies this
      ensures d == Decide(cfg, old(Abstract()), p, now) && Taken(cfg, old(Abstract()), Abstract(), p, d)
      ensures answers == old(answers)
    {
      hide ModuleProtocol.Decode, DecideFragment, StartState, StartOf, RefuseState;
      var corr := p.corr;
      if p.Has(F_CANCEL) {
        if corr in jobs {
          cancelled := cancelled + {jobs[corr]};
        }
        assemblies := assemblies - {corr};
        log := log + [Entry(p, CancelSeen)];
        return CancelSeen;
      }
      if !p.Has(F_REQUEST) {
        log := log + [Entry(p, Ignored)];
        return Ignored;
      }
      var expected := ExpectedStage(cfg, p);
      var decoded := ModuleProtocol.Decode(p.payload);
      var invalid := expected == 0 || decoded.Malformed? || decoded.message.operation != OP_INVOKE ||
        decoded.message.stageId != expected || corr in jobs;
      if !invalid && corr in assemblies {
        var a := assemblies[corr];
        invalid := a.kind != p.kind || a.message.stageId != decoded.message.stageId ||
          a.message.deadlineNs != decoded.message.deadlineNs || a.message.traceId != decoded.message.traceId;
      }
      assert invalid <==> !Acceptable(cfg, Abstract(), p);
      hide Acceptable, Taken;
      if invalid {
        RefusedIsTaken(cfg, Abstract(), p, FrameAnswer(p, if expected == 0 then 1 else expected, 0, STATUS_INVALID_REQUEST));
        assemblies := assemblies - {corr};
        return Refused(FrameAnswer(p, if expected == 0 then 1 else expected, 0, STATUS_INVALID_REQUEST));
      }
      d := TakeFragment(p, decoded.message, now);
    }

    method TakeFragment(p: Packet, message: Message, now: u64) returns (d: Disposition)
      requires ModuleProtocol.Decode(p.payload) == DecodedMessage.Message(message)
      modifies this
      ensures d == DecideFragment(cfg, old(Abstract()), p, message, now) && Taken(cfg, old(Abstract()), Abstract(), p, d)
      ensures answers == old(answers)
    {
      PayloadBody(p, message);
      hide ModuleProtocol.Decode, DecideWhole, Settle, Taken, Prior, Packet.Has, Packet.BodyPart, FrameAnswer, ExpectedStage;
      var corr := p.corr;
      ghost var s0 := Abstract();
      var internal := Refused(FrameAnswer(p, ExpectedStage(cfg, p), message.traceId, STATUS_INTERNAL));
      RefusedIsTaken(cfg, s0, p, internal.answer);
      var room, assembly := OpenAssembly(p, message);
      if !room {
        return internal;
      }
      var body := p.payload[MESSAGE_HDR_LEN..MESSAGE_HDR_LEN + message.bodyLen];
      if |assembly.body| + |body| > MAX_BODY {
        assemblies := assemblies - {corr};
        return internal;
      }
      assembly := assembly.(body := assembly.body + body);
      if p.Has(F_MORE) {
        assemblies := assemblies[corr := assembly];
        log := log + [Entry(p, Absorbed)];
        assert assemblies == s0.assemblies[corr := assembly];
        AbsorbedIsTaken(cfg, s0, p, message);
        return Absorbed;
      }
      assemblies := assemblies - {corr};
      d := TakeWhole(p, message, assembly.body, now, s0);
    }

    /** The assembly this fragment belongs to, opening one if the table has room. */
    method OpenAssembly(p: Packet, message: Message) returns (room: bool, assembly: Assembly)
      modifies this`assemblies
      ensures room <==> p.corr in old(assemblies) || |old(assemblies)| < MAX_IN_FLIGHT
      ensures assembly == Prior(old(Abstract()), p, message)
      ensures assemblies - {p.corr} == old(assemblies) - {p.corr}
      ensures room ==> assemblies == old(assemblies)[p.corr := assembly]
      ensures !room ==> assemblies == old(assemblies) - {p.corr}
    {
      assembly := Assembly(p.kind, message, []);
      if p.corr !in assemblies {
        if |assemblies| >= MAX_IN_FLIGHT {
          assert assemblies - {p.corr} == assemblies;
          return false, assembly;
        }
        assemblies := assemblies[p.corr := assembly];
      }
      assembly := assemblies[p.corr];
      assert assemblies == old(assemblies)[p.corr := assembly];
      return true, assembly;
    }

    /** The request is complete: refuse it or start its handler. s0 is the state at the poll. */
    method TakeWhole(p: Packet, message: Message, body: seq<byte>, now: u64, ghost s0: State) returns (d: Disposition)
      requires ModuleProtocol.Decode(p.payload) == DecodedMessage.Message(message)
      requires body == Prior(s0, p, message).body + p.BodyPart()
      requires Abstract() == s0.(assemblies := s0.assemblies - {p.corr})
      modifies this
      ensures d == DecideWhole(cfg, s0, p, message, now) && Taken(cfg, s0, Abstract(), p, d)
      ensures answers == old(answers)
    {
      hide ModuleProtocol.Decode, Prior, StartState, StartOf, Taken, Settle, FrameAnswer, ExpectedStage;
      var expected := ExpectedStage(cfg, p);
      forall a { RefusedIsTaken(cfg, s0, p, a); }
      if message.DeadlineExpired(now) {
        return Refused(FrameAnswer(p, expected, message.traceId, STATUS_DEADLINE_EXCEEDED));
      }
      if !cfg.hasHandler {
        return Refused(FrameAnswer(p, expected, message.traceId, STATUS_CAPABILITY_ABSENT));
      }
      if |jobs| >= MAX_IN_FLIGHT {
        return Refused(FrameAnswer(p, expected, message.traceId, STATUS_INTERNAL));
      }
      d := Started(|starts|);
      StartedIsTaken(cfg, s0, p, message, |starts|);
      StartJob(p, StartOf(cfg, p, message, body));
    }

    /** What a handler goroutine makes of its handler's return: the result, after the final checks. */
    method CheckHandler(id: nat, response: seq<byte>, status: u16, now: u64)
      requires id in running && id !in checked && id < |starts|
      modifies this
      ensures Abstract() == Apply(cfg, old(Abstract()), HandlerChecks(id, response, status, now))
    {
      var final, body := status, response;
      if !ValidStatus(final) || |body| > MAX_BODY {
        final, body := STATUS_INTERNAL, [];
      } else if final != STATUS_OK {
        body := [];
      }
      var deadlineNs := starts[id].work.deadlineNs;
      if id in cancelled {
        final, body := STATUS_CANCELLED, [];
      } else if deadlineNs != 0 {
        if now != 0 && now >= deadlineNs {
          final, body := STATUS_DEADLINE_EXCEEDED, [];
        }
      }
      finishes := finishes[id := Finish(response, status, id in cancelled, now)];
      checked := checked[id := Outcome(final, body)];
    }

    /** The goroutine's last act: the send into the channel, which must have room. */
    method SendResult(id: nat)
      requires id in running && id in checked && |done| < MAX_IN_FLIGHT
      modifies this
      ensures Abstract() == Apply(cfg, old(Abstract()), HandlerSends(id))
    {
      done := done + [Result(id, checked[id])];
      running := running - {id};
      checked := checked - {id};
    }

    /** Takes the oldest result off the channel, drops its job and replies. */
    method FinishWork() returns (err: SendError)
      requires phase == Serving && done != [] && done[0].id < |starts| && port.budget <= MAX_PAYLOAD
      modifies this, port
      ensures Abstract() == Apply(cfg, old(Abstract()), Collect(err.Sent?))
      ensures err.Sent? ==> OnlyAnswersSent(old(answers), answers, old(port.sent), port.sent, port.budget)
      ensures Replied(JobAnswer(old(Abstract()), old(done[0])), port.budget, err, old(port.turns), port.turns, old(port.sent), port.sent)
    {
      hide AnswerPackets, Replied, Normal, OnlyAnswersSent;
      var result := done[0];
      var w := starts[result.id].work;
      done := done[1..];
      jobs := jobs - {w.corr};
      var a := Answer(ForJob(result.id), w.kind, w.corr, w.stageId, w.traceId, result.outcome);
      err := ReplyResult(a);
      if err.Sent? {
        ghost var sent := a.(outcome := Normal(result.outcome.status, result.outcome.body));
        AnswerSent(answers, sent, port.budget, err, old(port.turns), port.turns, old(port.sent), port.sent);
        answers := answers + [a.(outcome := Normal(result.outcome.status, result.outcome.body))];
      } else {
        phase := Stopped;
      }
    }

    /** Context done: raises every running job's cancel flag and starts the drain. */
    method BeginShutdown()
      requires phase == Serving
      modifies this
      ensures Abstract() == Apply(cfg, old(Abstract()), Shutdown)
    {
      var left := jobs.Keys;
      while left != {}
        invariant left <= jobs.Keys && jobs == old(jobs)
        invariant Abstract() == old(Abstract()).(cancelled := cancelled)
        invariant cancelled == old(cancelled) + set c | c in jobs && c !in left :: jobs[c]
        decreases left
      {
        var c :| c in left;
        left := left - {c};
        cancelled := cancelled + {jobs[c]};
      }
      phase := if jobs == map[] then Stopped else Draining;
    }

    /** The host restarted or a poll failed: the loop returns at once, jobs and all. */
    method Leave()
      requires phase == Serving
      modifies this
      ensures Abstract() == Apply(cfg, old(Abstract()), Quit)
    {
      phase := Stopped;
    }

    /** One receive of the drain loop. */
    method DrainResult()
      requires phase == Draining && done != [] && done[0].id < |starts|
      modifies this
      ensures Abstract() == Apply(cfg, old(Abstract()), DrainOne)
    {
      var result := done[0];
      done := done[1..];
      jobs := jobs - {starts[result.id].work.corr};
      if jobs == map[] {
        phase := Stopped;
      }
    }
  }

  lemma PayloadBody(p: Packet, message: Message)
    requires ModuleProtocol.Decode(p.payload) == DecodedMessage.Message(message)
    ensures MESSAGE_HDR_LEN + message.bodyLen <= |p.payload|
    ensures p.payload[MESSAGE_HDR_LEN..MESSAGE_HDR_LEN + message.bodyLen] == p.BodyPart()
    ensures |p.BodyPart()| == message.bodyLen
  {
    assert ModuleProtocol.Body(p.payload) == p.BodyPart();
    hide ModuleProtocol.Decode;
  }

  /** The packets sent are exactly those of the answers added. */
  ghost predicate OnlyAnswersSent(before: seq<Answer>, after: seq<Answer>, sent: seq<Packet>, now: seq<Packet>, budget: u32) {
    || (after == before && now == sent)
    || (|after| == |before| + 1 && after[..|before|] == before && MESSAGE_HDR_LEN < budget <= MAX_PAYLOAD
        && now == sent + AnswerPackets(after[|before|], budget))
  }

  lemma AnswerSent(answers: seq<Answer>, a: Answer, budget: u32, err: SendError, turns: seq<Turn>, later: seq<Turn>, before: seq<Packet>, sent: seq<Packet>)
    requires budget <= MAX_PAYLOAD && err.Sent? && Replied(a, budget, err, turns, later, before, sent)
    ensures OnlyAnswersSent(answers, answers + [a], before, sent, budget)
  {
    hide AnswerPackets, TakenInTime, AfterTaken;
  }

  lemma NothingSent(answers: seq<Answer>, sent: seq<Packet>, budget: u32)
    ensures OnlyAnswersSent(answers, answers, sent, sent, budget)
  {}

  /** The tables, flags and log after p met the fate d, a refusal's answer not yet sent. */
  ghost predicate Taken(cfg: Config, s: State, e: State, p: Packet, d: Disposition) {
    if d.Refused? then e == s.(assemblies := s.assemblies - {p.corr})
    else (d.Absorbed? || d.Started? ==> ModuleProtocol.Decode(p.payload).Message?) && e == Settle(cfg, s, p, d, true)
  }

  lemma RefusedIsTaken(cfg: Config, s: State, p: Packet, a: Answer)
    ensures Taken(cfg, s, s.(assemblies := s.assemblies - {p.corr}), p, Refused(a))
  {}

  lemma StartedIsTaken(cfg: Config, s: State, p: Packet, m: Message, id: nat)
    requires ModuleProtocol.Decode(p.payload) == DecodedMessage.Message(m)
    ensures Taken(cfg, s,
      StartState(s.(assemblies := s.assemblies - {p.corr}), p, id, StartOf(cfg, p, m, Prior(s, p, m).body + p.BodyPart())), p, Started(id))
  {
    hide ModuleProtocol.Decode, Prior, StartState, StartOf;
  }

  lemma AbsorbedIsTaken(cfg: Config, s: State, p: Packet, m: Message)
    requires ModuleProtocol.Decode(p.payload) == DecodedMessage.Message(m)
    ensures var a := Prior(s, p, m).(body := Prior(s, p, m).body + p.BodyPart());
      Taken(cfg, s, s.(log := s.log + [Entry(p, Absorbed)], assemblies := s.assemblies[p.corr := a]), p, Absorbed)
  {
    hide ModuleProtocol.Decode, Prior;
  }

  /** Sending the answer is all that is left of a refusal, and nothing of anything else. */
  lemma SettledIsApplied(cfg: Config, s: State, p: Packet, d: Disposition, now: u64)
    requires s.phase == Serving && d == Decide(cfg, s, p, now)
    ensures d.Refused? ==> d.answer.outcome.body == [] && ValidStatus(d.answer.outcome.status) && d.answer.outcome.status != STATUS_OK
    ensures forall replied :: d.Refused? ==>
      Apply(cfg, s, Receive(p, now, replied)) == RefuseState(s.(assemblies := s.assemblies - {p.corr}), p, d.answer, replied)
    ensures forall replied :: !d.Refused? ==> Apply(cfg, s, Receive(p, now, replied)) == Settle(cfg, s, p, d, true)
  {
    hide Acceptable, ModuleProtocol.Decode, StartState, RefuseState;
  }
}
