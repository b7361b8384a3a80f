/** A whole call: the caller's fragments through a FIFO host into the serving process, one run of
    the handler, and its reply fragments back into the caller's reassembly, with any other
    traffic interleaved on both sides. */
module EndToEnd {
  import opened Bytes
  import opened Wire
  import opened ModuleProtocol
  import opened Rpc
  import opened ModuleRuntime
  import RuntimeSafety
  import opened RuntimeHistory
  import Caller = ModuleCaller

  /** The packets of correlation c among the events polled, in order. */
  function OwnPolled(steps: seq<Step>, c: u64): seq<Packet> {
    if steps == [] then []
    else if steps[0].Receive? && steps[0].packet.corr == c then [steps[0].packet] + OwnPolled(steps[1..], c)
    else OwnPolled(steps[1..], c)
  }

  predicate Own(step: Step, c: u64) {
    step.Receive? && step.packet.corr == c
  }

  /** The answers given to correlation c, in order. */
  function OwnAnswers(answers: seq<Answer>, c: u64): seq<Answer> {
    if answers == [] then [] else
      var a := answers[|answers| - 1];
      OwnAnswers(answers[..|answers| - 1], c) + if a.corr == c then [a] else []
  }

  /** The packets of correlation c in a list, in order. */
  function Select(ps: seq<Packet>, c: u64): seq<Packet> {
    if ps == [] then [] else
      var p := ps[|ps| - 1];
      Select(ps[..|ps| - 1], c) + if p.corr == c then [p] else []
  }

  /** The packets of correlation c among a caller's polls, in order. */
  function OwnDelivered(polls: seq<Caller.Polled>, c: u64): seq<Packet> {
    if polls == [] then []
    else if polls[0].Delivered? && polls[0].packet.corr == c then [polls[0].packet] + OwnDelivered(polls[1..], c)
    else OwnDelivered(polls[1..], c)
  }

  /** Whenever a fragment of c is polled the process is serving and has a table slot for it; and
      when the last one is, there is a job slot and the deadline has not passed. */
  ghost predicate Smooth(cfg: Config, s: State, steps: seq<Step>, c: u64, deadlineNs: u64)
    decreases |steps|
  {
    if steps == [] then true else
      && (Own(steps[0], c) ==> Unhindered(s, steps[0].now, c, deadlineNs, steps[0].packet.Has(F_MORE)))
      && Smooth(cfg, Apply(cfg, s, steps[0]), steps[1..], c, deadlineNs)
  }

  ghost predicate Unhindered(s: State, now: u64, c: u64, deadlineNs: u64, more: bool) {
    && s.phase == Serving
    && (c in s.assemblies || |s.assemblies| < MAX_IN_FLIGHT)
    && (!more ==> |s.jobs| < MAX_IN_FLIGHT && !(deadlineNs != 0 && now >= deadlineNs))
  }

  /** The bytes got so far of call e are exactly its assembly, and it is not yet a job. */
  ghost predicate Waiting(s: State, e: Envelope, got: seq<byte>) {
    && e.corr !in s.jobs
    && (e.corr !in s.assemblies ==> got == [])
    && (e.corr in s.assemblies ==>
      var a := s.assemblies[e.corr];
      && a.kind == e.kind && a.message.stageId == e.stageId && a.message.deadlineNs == e.deadlineNs
      && a.message.traceId == e.traceId && a.body == got)
  }

  /** Job id is the call c's, still in the table, and nobody has cancelled it. */
  ghost predicate Held(s: State, c: u64, id: nat) {
    && c in s.jobs && s.jobs[c] == id && id !in s.cancelled
    && (id in s.finishes ==> !s.finishes[id].sawCancel)
  }

  function WorkOf(e: Envelope): Work {
    Work(e.kind, e.corr, e.stageId, e.deadlineNs, e.traceId)
  }

  lemma OwnAnswersAfter(answers: seq<Answer>, a: Answer, c: u64)
    ensures OwnAnswers(answers + [a], c) == OwnAnswers(answers, c) + if a.corr == c then [a] else []
  {
    assert (answers + [a])[..|answers|] == answers;
  }

  ghost predicate SameForOthers(s: State, t: State, c: u64) {
    && (c in t.assemblies <==> c in s.assemblies)
    && (c in s.assemblies ==> t.assemblies[c] == s.assemblies[c])
    && s.starts <= t.starts
    && (forall j :: |s.starts| <= j < |t.starts| ==> t.starts[j].work.corr != c)
  }

  lemma OtherAssembly(cfg: Config, s: State, p: Packet, d: Disposition, replied: bool, c: u64)
    requires RuntimeSafety.Fits(cfg, s, p, d) && p.corr != c
    ensures var t := Settle(cfg, s, p, d, replied);
      (c in t.assemblies <==> c in s.assemblies) && (c in s.assemblies ==> t.assemblies[c] == s.assemblies[c])
  {
    hide ModuleProtocol.Decode, Prior, Packet.Has, Packet.BodyPart, Continues;
  }

  /** Events of other correlations leave c's assembly and starts alone. */
  lemma OtherReceive(cfg: Config, s: State, p: Packet, d: Disposition, replied: bool, c: u64)
    requires RuntimeSafety.Fits(cfg, s, p, d) && p.corr != c
    ensures SameForOthers(s, Settle(cfg, s, p, d, replied), c)
  {
    OtherAssembly(cfg, s, p, d, replied, c);
    RuntimeSafety.Settled(cfg, s, p, d, replied);
    hide Settle, RuntimeSafety.Joins, Packet.Has;
  }

  /** ... and c's job and answers. */
  lemma OtherReceiveJob(cfg: Config, s: State, p: Packet, d: Disposition, replied: bool, c: u64)
    requires RuntimeSafety.Fits(cfg, s, p, d) && p.corr != c
    ensures var t := Settle(cfg, s, p, d, replied);
      && OwnAnswers(t.answers, c) == OwnAnswers(s.answers, c)
      && (c in t.jobs <==> c in s.jobs) && (c in s.jobs ==> t.jobs[c] == s.jobs[c])
      && t.finishes == s.finishes
  {
    hide ModuleProtocol.Decode, Prior, OwnAnswers, StartOf, Packet.Has, Packet.BodyPart, Continues, ExpectedStage, FrameAnswer;
    RuntimeSafety.Settled(cfg, s, p, d, replied);
    hide RuntimeSafety.Joins;
    if d.Refused? { OwnAnswersAfter(s.answers, d.answer, c); }
    assert s.answers + [] == s.answers;
  }

  /** A step that is not a fragment of c neither touches c's assembly nor starts a job for it. */
  lemma OtherStep(cfg: Config, s: State, step: Step, c: u64)
    requires !Own(step, c)
    ensures SameForOthers(s, Apply(cfg, s, step), c)
  {
    hide Settle, Decide, HandlerOutcome, Normal, OwnAnswers;
    if step.Receive? && s.phase == Serving {
      RuntimeSafety.DecideFits(cfg, s, step.packet, step.now);
      OtherReceive(cfg, s, step.packet, Decide(cfg, s, step.packet, step.now), step.replied, c);
    }
  }

  /** While c is not a job and none of its packets arrive, it gets no job and no answer. */
  lemma QuietStep(cfg: Config, s: State, step: Step, c: u64)
    requires RuntimeSafety.JobTable(s) && !Own(step, c) && c !in s.jobs
    ensures c !in Apply(cfg, s, step).jobs
    ensures OwnAnswers(Apply(cfg, s, step).answers, c) == OwnAnswers(s.answers, c)
  {
    hide Settle, Decide, HandlerOutcome, Normal, OwnAnswers;
    if step.Receive? && s.phase == Serving {
      RuntimeSafety.DecideFits(cfg, s, step.packet, step.now);
      OtherReceiveJob(cfg, s, step.packet, Decide(cfg, s, step.packet, step.now), step.replied, c);
    } else if step.Collect? && Apply(cfg, s, step) != s {
      assert RuntimeSafety.Owns(s, s.done[0].id);
      OwnAnswersAfter(s.answers, JobAnswer(s, s.done[0]), c);
    }
  }

  lemma {:induction false} QuietRun(cfg: Config, s: State, steps: seq<Step>, c: u64)
    requires RuntimeSafety.JobTable(s) && c !in s.jobs && OwnPolled(steps, c) == []
    ensures var t := Run(cfg, s, steps);
      && c !in t.jobs && OwnAnswers(t.answers, c) == OwnAnswers(s.answers, c)
      && s.starts <= t.starts && (forall j :: |s.starts| <= j < |t.starts| ==> t.starts[j].work.corr != c)
    decreases |steps|
  {
    if steps != [] {
      QuietStep(cfg, s, steps[0], c);
      OtherStep(cfg, s, steps[0], c);
      RuntimeSafety.StepKeepsTable(cfg, s, steps[0]);
      QuietRun(cfg, Apply(cfg, s, steps[0]), steps[1..], c);
    }
  }

  // ---------- The request reaches the handler ----------

  /** What one fragment of the call does when the process is clear to take it. */
  lemma FragmentDecision(cfg: Config, s: State, e: Envelope, part: seq<byte>, more: bool, got: seq<byte>, now: u64)
    requires Waiting(s, e, got) && Unhindered(s, now, e.corr, e.deadlineNs, more)
    requires e.Valid() && e.pattern == F_REQUEST && e.operation == OP_INVOKE && e.status == STATUS_OK
    requires e.kind in cfg.stages && cfg.stages[e.kind] == e.stageId && cfg.hasHandler
    requires |got| + |part| <= MAX_BODY
    ensures var p := e.PacketFor(part, more);
      && Decide(cfg, s, p, now) == (if more then Absorbed else Started(|s.starts|))
      && ModuleProtocol.Decode(p.payload) == DecodedMessage.Message(e.MessageFor(|part|))
      && p.BodyPart() == part && p.kind == e.kind && p.corr == e.corr
      && Prior(s, p, e.MessageFor(|part|)).body == got
  {
    PacketFlags(e, part, more);
    PacketDecodes(e, part, more);
    var p, m := e.PacketFor(part, more), e.MessageFor(|part|);
    hide ModuleProtocol.Decode, Packet.BodyPart, Packet.Has, Envelope.PacketFor, FrameAnswer;
    CallAcceptable(cfg, s, e, p, m, got);
    hide Acceptable, Prior, ExpectedStage, Waiting;
  }

  /** A packet that invokes the stage of a waiting call joins what was got of it. */
  lemma CallAcceptable(cfg: Config, s: State, e: Envelope, p: Packet, m: Message, got: seq<byte>)
    requires Waiting(s, e, got) && e.Valid() && e.operation == OP_INVOKE
    requires e.kind in cfg.stages && cfg.stages[e.kind] == e.stageId
    requires p.kind == e.kind && p.corr == e.corr
    requires ModuleProtocol.Decode(p.payload) == DecodedMessage.Message(m) && m == e.MessageFor(m.bodyLen)
    ensures Acceptable(cfg, s, p) && Prior(s, p, m).body == got
  {
    hide ModuleProtocol.Decode;
  }

  lemma MiddleFragment(cfg: Config, s: State, e: Envelope, part: seq<byte>, got: seq<byte>, now: u64, replied: bool)
    requires Waiting(s, e, got) && Unhindered(s, now, e.corr, e.deadlineNs, true)
    requires e.Valid() && e.pattern == F_REQUEST && e.operation == OP_INVOKE && e.status == STATUS_OK
    requires e.kind in cfg.stages && cfg.stages[e.kind] == e.stageId && cfg.hasHandler
    requires |got| + |part| <= MAX_BODY
    ensures var t := Apply(cfg, s, Receive(e.PacketFor(part, true), now, replied));
      && Waiting(t, e, got + part) && t.starts == s.starts && t.answers == s.answers
  {
    FragmentDecision(cfg, s, e, part, true, got, now);
    hide Decide, ModuleProtocol.Decode, Envelope.PacketFor, Packet.BodyPart;
  }

  lemma LastFragment(cfg: Config, s: State, e: Envelope, part: seq<byte>, got: seq<byte>, now: u64, replied: bool)
    requires Waiting(s, e, got) && Unhindered(s, now, e.corr, e.deadlineNs, false)
    requires e.Valid() && e.pattern == F_REQUEST && e.operation == OP_INVOKE && e.status == STATUS_OK
    requires e.kind in cfg.stages && cfg.stages[e.kind] == e.stageId && cfg.hasHandler
    requires |got| + |part| <= MAX_BODY
    ensures var t := Apply(cfg, s, Receive(e.PacketFor(part, false), now, replied));
      && t.starts == s.starts + [Start(WorkOf(e), got + part)]
      && e.corr in t.jobs && t.jobs[e.corr] == |s.starts|
      && t.cancelled == s.cancelled && t.finishes == s.finishes && t.answers == s.answers
  {
    FragmentDecision(cfg, s, e, part, false, got, now);
    hide Decide, ModuleProtocol.Decode, Envelope.PacketFor, Packet.BodyPart;
  }

  lemma OtherKeepsWaiting(cfg: Config, s: State, step: Step, e: Envelope, got: seq<byte>)
    requires RuntimeSafety.JobTable(s) && !Own(step, e.corr) && Waiting(s, e, got)
    ensures Waiting(Apply(cfg, s, step), e, got)
  {
    hide Apply;
    OtherStep(cfg, s, step, e.corr);
    QuietStep(cfg, s, step, e.corr);
  }

  /** From s to t exactly one job was started for call e, on the given body; it is still in the
      table, uncancelled, and the call has been answered no more than before. */
  ghost predicate Arrived(s: State, t: State, e: Envelope, body: seq<byte>) {
    && |t.starts| > |s.starts| && s.starts <= t.starts
    && t.starts[|t.starts| - 1] == Start(WorkOf(e), body)
    && (forall j :: |s.starts| <= j < |t.starts| - 1 ==> t.starts[j].work.corr != e.corr)
    && Held(t, e.corr, |t.starts| - 1)
    && OwnAnswers(t.answers, e.corr) == OwnAnswers(s.answers, e.corr)
  }

  /** A request envelope for a stage this process serves with a handler. */
  ghost predicate Served(cfg: Config, e: Envelope) {
    && e.Valid() && e.pattern == F_REQUEST && e.operation == OP_INVOKE && e.status == STATUS_OK
    && e.kind in cfg.stages && cfg.stages[e.kind] == e.stageId && cfg.hasHandler
  }

  lemma ArrivedLater(s: State, t: State, u: State, e: Envelope, body: seq<byte>)
    requires Arrived(t, u, e, body) && s.starts <= t.starts
    requires forall j :: |s.starts| <= j < |t.starts| ==> t.starts[j].work.corr != e.corr
    requires OwnAnswers(t.answers, e.corr) == OwnAnswers(s.answers, e.corr)
    ensures Arrived(s, u, e, body)
  {
    hide OwnAnswers, Held;
  }

  lemma LastArrives(cfg: Config, s: State, e: Envelope, part: seq<byte>, got: seq<byte>, now: u64, replied: bool)
    requires RuntimeSafety.JobTable(s) && IdsKnown(s) && Waiting(s, e, got) && Unhindered(s, now, e.corr, e.deadlineNs, false)
    requires Served(cfg, e) && |got| + |part| <= MAX_BODY
    ensures Arrived(s, Apply(cfg, s, Receive(e.PacketFor(part, false), now, replied)), e, got + part)
  {
    hide Apply, OwnAnswers, Waiting, Envelope.PacketFor;
    LastFragment(cfg, s, e, part, got, now, replied);
  }

  /** One step before the last fragment: the rest of the body still to come shrinks by what arrived. */
  lemma WaitingStep(cfg: Config, s: State, step: Step, later: seq<Step>, e: Envelope, got: seq<byte>, rest: seq<byte>, chunk: nat)
    returns (got': seq<byte>, rest': seq<byte>)
    requires RuntimeSafety.JobTable(s) && Waiting(s, e, got) && Served(cfg, e)
    requires 0 < chunk <= MAX_BODY && |got| + |rest| <= MAX_BODY
    requires OwnPolled([step] + later, e.corr) == Packets(e, rest, chunk)
    requires Own(step, e.corr) ==> Unhindered(s, step.now, e.corr, e.deadlineNs, step.packet.Has(F_MORE)) && |rest| > chunk
    ensures got' + rest' == got + rest
    ensures OwnPolled(later, e.corr) == Packets(e, rest', chunk)
    ensures var t := Apply(cfg, s, step);
      && Waiting(t, e, got') && s.starts <= t.starts
      && (forall j :: |s.starts| <= j < |t.starts| ==> t.starts[j].work.corr != e.corr)
      && OwnAnswers(t.answers, e.corr) == OwnAnswers(s.answers, e.corr)
  {
    hide Apply, Waiting, Envelope.PacketFor, OwnAnswers;
    assert ([step] + later)[1..] == later;
    if Own(step, e.corr) {
      assert OwnPolled([step] + later, e.corr)[0] == step.packet == e.PacketFor(rest[..chunk], true);
      PacketFlags(e, rest[..chunk], true);
      MiddleFragment(cfg, s, e, rest[..chunk], got, step.now, step.replied);
      got', rest' := got + rest[..chunk], rest[chunk..];
      assert OwnPolled([step] + later, e.corr)[1..] == OwnPolled(later, e.corr);
      assert Packets(e, rest, chunk)[1..] == Packets(e, rest', chunk);
    } else {
      got', rest' := got, rest;
      OtherKeepsWaiting(cfg, s, step, e, got);
      OtherStep(cfg, s, step, e.corr);
      WaitingNoJob(s, e, got);
      QuietStep(cfg, s, step, e.corr);
    }
  }

  lemma WaitingNoJob(s: State, e: Envelope, got: seq<byte>)
    requires Waiting(s, e, got)
    ensures e.corr !in s.jobs
  {}

  /** If the polled fragments of the call are its packets, in order, and the process is clear to
      take each, then some prefix of the run starts exactly one job for it, on its whole body. */
  lemma {:induction false} RequestArrives(cfg: Config, s: State, steps: seq<Step>, e: Envelope, got: seq<byte>, rest: seq<byte>, chunk: nat)
    returns (k: nat)
    requires RuntimeSafety.Inv(cfg, s) && IdsKnown(s) && Waiting(s, e, got) && Served(cfg, e)
    requires 0 < chunk <= MAX_BODY && |got| + |rest| <= MAX_BODY
    requires OwnPolled(steps, e.corr) == Packets(e, rest, chunk)
    requires Smooth(cfg, s, steps, e.corr, e.deadlineNs)
    ensures k <= |steps| && OwnPolled(steps[k..], e.corr) == []
    ensures Arrived(s, Run(cfg, s, steps[..k]), e, got + rest)
    ensures RuntimeSafety.Inv(cfg, Run(cfg, s, steps[..k]))
    ensures Run(cfg, s, steps) == Run(cfg, Run(cfg, s, steps[..k]), steps[k..])
    decreases |steps|
  {
    hide Apply, Waiting, Envelope.PacketFor, Arrived, IdsKnown, RuntimeSafety.Inv, Unhindered, Packet.Has;
    assert steps != [] by { assert Packets(e, rest, chunk) != []; }
    var step := steps[0];
    InvTable(cfg, s);
    RuntimeSafety.StepKeepsInv(cfg, s, step);
    StepKeepsIdsKnown(cfg, s, step);
    if Own(step, e.corr) && |rest| <= chunk {
      assert Packets(e, rest, chunk) == [e.PacketFor(rest, false)];
      assert step.packet == OwnPolled(steps, e.corr)[0] == e.PacketFor(rest, false);
      assert OwnPolled(steps[1..], e.corr) == OwnPolled(steps, e.corr)[1..];
      PacketFlags(e, rest, false);
      LastArrives(cfg, s, e, rest, got, step.now, step.replied);
      k := 1;
      RunSplit(cfg, s, steps);
    } else {
      assert [step] + steps[1..] == steps;
      var got', rest' := WaitingStep(cfg, s, step, steps[1..], e, got, rest, chunk);
      var t := Apply(cfg, s, step);
      var k' := RequestArrives(cfg, t, steps[1..], e, got', rest', chunk);
      k := k' + 1;
      assert steps[1..][k'..] == steps[k..];
      assert steps[..k][1..] == steps[1..][..k'];
      ArrivedLater(s, t, Run(cfg, t, steps[1..][..k']), e, got + rest);
    }
  }

  lemma RunSplit(cfg: Config, s: State, steps: seq<Step>)
    requires steps != []
    ensures Run(cfg, s, steps[..1]) == Apply(cfg, s, steps[0])
    ensures Run(cfg, s, steps) == Run(cfg, Apply(cfg, s, steps[0]), steps[1..])
  {
    assert steps[..1][1..] == [];
  }

  // ---------- The handler's result comes back ----------

  /** The answer that reports job id's return. */
  ghost function AnswerOf(s: State, id: nat): Answer
    requires id < |s.starts| && id in s.finishes
  {
    var w := s.starts[id].work;
    Answer(ForJob(id), w.kind, w.corr, w.stageId, w.traceId, HandlerOutcome(w.deadlineNs, s.finishes[id]))
  }

  lemma HeldReturns(cfg: Config, s: State, step: Step, c: u64, id: nat)
    requires RuntimeSafety.JobTable(s) && Held(s, c, id) && (step.HandlerChecks? || step.HandlerSends?)
    ensures Held(Apply(cfg, s, step), c, id)
  {
    hide HandlerOutcome;
    assert RuntimeSafety.Owns(s, id);
  }

  lemma HeldReceives(cfg: Config, s: State, p: Packet, d: Disposition, replied: bool, c: u64, id: nat)
    requires RuntimeSafety.JobTable(s) && Held(s, c, id) && p.corr != c && RuntimeSafety.Fits(cfg, s, p, d)
    ensures Held(Settle(cfg, s, p, d, replied), c, id)
    ensures OwnAnswers(Settle(cfg, s, p, d, replied).answers, c) == OwnAnswers(s.answers, c)
  {
    OtherReceiveJob(cfg, s, p, d, replied, c);
    assert RuntimeSafety.Owns(s, id) && s.starts[id].work.corr == c;
    if p.corr in s.jobs {
      assert RuntimeSafety.Owns(s, s.jobs[p.corr]) && s.starts[s.jobs[p.corr]].work.corr == p.corr;
    }
    hide ModuleProtocol.Decode, Prior, Acceptable, OwnAnswers, StartOf;
  }

  /** While the job is held, a step of a process that stays serving keeps it held, or collects it
      and gives exactly its one answer. */
  lemma HeldStep(cfg: Config, s: State, step: Step, c: u64, id: nat)
    requires RuntimeSafety.Inv(cfg, s) && Held(s, c, id) && !Own(step, c)
    requires s.phase == Serving && Apply(cfg, s, step).phase == Serving
    ensures var t := Apply(cfg, s, step);
      || (Held(t, c, id) && OwnAnswers(t.answers, c) == OwnAnswers(s.answers, c))
      || (c !in t.jobs && id < |t.starts| && t.starts[id] == s.starts[id] && id in t.finishes && !t.finishes[id].sawCancel
          && OwnAnswers(t.answers, c) == OwnAnswers(s.answers, c) + [AnswerOf(t, id)])
  {
    assert RuntimeSafety.JobTable(s) && RuntimeSafety.Owns(s, id) && s.starts[id].work.corr == c;
    hide RuntimeSafety.Inv, RuntimeSafety.JobTable, RuntimeSafety.Owns, Settle, Decide, HandlerOutcome, OwnAnswers, JobAnswer;
    match step
    case Receive(p, now, replied) =>
      RuntimeSafety.DecideFits(cfg, s, p, now);
      HeldReceives(cfg, s, p, Decide(cfg, s, p, now), replied, c, id);
      hide Held, RuntimeSafety.Fits;
    case HandlerChecks(_, _, _, _) => HeldReturns(cfg, s, step, c, id);
    case HandlerSends(_) => HeldReturns(cfg, s, step, c, id);
    case Collect(replied) => HeldCollect(cfg, s, replied, c, id);
    case Shutdown => StaysServing(cfg, s, step);
    case DrainOne => StaysServing(cfg, s, step);
    case Quit => StaysServing(cfg, s, step);
  }

  lemma StaysServing(cfg: Config, s: State, step: Step)
    requires s.phase == Serving && Apply(cfg, s, step).phase == Serving
    ensures !step.Shutdown? && !step.Quit? && (step.DrainOne? ==> Apply(cfg, s, step) == s)
  {
    hide Decide, Settle, HandlerOutcome, JobAnswer;
  }

  lemma HeldCollect(cfg: Config, s: State, replied: bool, c: u64, id: nat)
    requires RuntimeSafety.Inv(cfg, s) && Held(s, c, id)
    requires id < |s.starts| && s.starts[id].work.corr == c
    requires s.phase == Serving && Apply(cfg, s, Collect(replied)).phase == Serving
    ensures var t := Apply(cfg, s, Collect(replied));
      || (Held(t, c, id) && OwnAnswers(t.answers, c) == OwnAnswers(s.answers, c))
      || (c !in t.jobs && t.starts == s.starts && id in t.finishes && !t.finishes[id].sawCancel
          && OwnAnswers(t.answers, c) == OwnAnswers(s.answers, c) + [AnswerOf(t, id)])
  {
    hide HandlerOutcome, Normal, OwnAnswers, RuntimeSafety.Assembled, RuntimeSafety.Provenance, RuntimeSafety.Conserved,
      RuntimeSafety.AnswersMatch, RuntimeSafety.EachStartOnce, RuntimeSafety.TableBounds, RuntimeSafety.EveryRequestSettled;
    if s.done != [] && s.done[0].id < |s.starts| {
      var r := s.done[0];
      assert RuntimeSafety.Owns(s, r.id);
      OwnAnswersAfter(s.answers, JobAnswer(s, r), c);
      assert RuntimeSafety.OutcomeMatches(s, r.id, r.outcome);
      assert r.id in s.finishes && r.outcome == HandlerOutcome(s.starts[r.id].work.deadlineNs, s.finishes[r.id]);
      RuntimeSafety.OutcomeOkIff(s.starts[r.id].work.deadlineNs, s.finishes[r.id]);
    }
  }

  /** Finishing records a return once: later steps never change it. */
  lemma FinishesStay(cfg: Config, s: State, step: Step, id: nat)
    requires RuntimeSafety.JobTable(s) && id < |s.starts| && id in s.finishes && !RuntimeSafety.Owns(s, id)
    ensures var t := Apply(cfg, s, step);
      id < |t.starts| && t.starts[id] == s.starts[id] && id in t.finishes && t.finishes[id] == s.finishes[id]
  {
    hide HandlerOutcome, Decide, Settle, JobAnswer;
    if step.Receive? {
      if s.phase == Serving {
        var d := Decide(cfg, s, step.packet, step.now);
        RuntimeSafety.DecideFits(cfg, s, step.packet, step.now);
        RuntimeSafety.Settled(cfg, s, step.packet, d, step.replied);
        hide RuntimeSafety.Fits, RuntimeSafety.JobTable;
      }
    }
  }

  /** After the job left the table nothing more is said to the call, and its return stands. */
  lemma {:induction false} AfterAnswer(cfg: Config, s: State, steps: seq<Step>, c: u64, id: nat)
    requires RuntimeSafety.JobTable(s) && c !in s.jobs && OwnPolled(steps, c) == []
    requires id < |s.starts| && id in s.finishes && s.starts[id].work.corr == c
    ensures var t := Run(cfg, s, steps);
      && OwnAnswers(t.answers, c) == OwnAnswers(s.answers, c)
      && id < |t.starts| && t.starts[id] == s.starts[id] && id in t.finishes && t.finishes[id] == s.finishes[id]
    decreases |steps|
  {
    if steps != [] {
      hide Apply, OwnAnswers, RuntimeSafety.JobTable;
      FinishesStay(cfg, s, steps[0], id);
      QuietStep(cfg, s, steps[0], c);
      RuntimeSafety.StepKeepsTable(cfg, s, steps[0]);
      AfterAnswer(cfg, Apply(cfg, s, steps[0]), steps[1..], c, id);
    }
  }

  lemma ServingBefore(cfg: Config, s: State, steps: seq<Step>)
    requires Run(cfg, s, steps).phase == Serving
    ensures s.phase == Serving
    decreases |steps|
  {
    if steps != [] {
      hide Settle, Decide;
      ServingBefore(cfg, Apply(cfg, s, steps[0]), steps[1..]);
    }
  }

  /** If at the end of a serving run the job has left the table, the call was given exactly one
      answer: what its handler's one return, seen uncancelled, comes to. */
  lemma {:induction false} ResultReturns(cfg: Config, s: State, steps: seq<Step>, c: u64, id: nat)
    requires RuntimeSafety.Inv(cfg, s) && Held(s, c, id) && OwnPolled(steps, c) == []
    requires Run(cfg, s, steps).phase == Serving && c !in Run(cfg, s, steps).jobs
    ensures var t := Run(cfg, s, steps);
      && id < |s.starts| && id < |t.starts| && t.starts[id] == s.starts[id] && id in t.finishes && !t.finishes[id].sawCancel
      && OwnAnswers(t.answers, c) == OwnAnswers(s.answers, c) + [AnswerOf(t, id)]
    decreases |steps|
  {
    hide Apply, OwnAnswers, RuntimeSafety.Inv;
    HeldIsJob(cfg, s, c, id);
    if steps != [] {
      var t := Apply(cfg, s, steps[0]);
      ServingBefore(cfg, s, steps);
      ServingBefore(cfg, t, steps[1..]);
      HeldStep(cfg, s, steps[0], c, id);
      RuntimeSafety.StepKeepsInv(cfg, s, steps[0]);
      if Held(t, c, id) && OwnAnswers(t.answers, c) == OwnAnswers(s.answers, c) {
        StartsGrow(cfg, s, steps[0]);
        ResultReturns(cfg, t, steps[1..], c, id);
      } else {
        InvTable(cfg, t);
        AfterAnswer(cfg, t, steps[1..], c, id);
      }
    }
  }

  lemma HeldIsJob(cfg: Config, s: State, c: u64, id: nat)
    requires RuntimeSafety.Inv(cfg, s) && Held(s, c, id)
    ensures id < |s.starts| && s.starts[id].work.corr == c && c in s.jobs
  {
    assert RuntimeSafety.Owns(s, id);
  }

  lemma StartsGrow(cfg: Config, s: State, step: Step)
    ensures s.starts <= Apply(cfg, s, step).starts
  {
    hide Decide, Prior, ModuleProtocol.Decode, HandlerOutcome, Normal, StartOf;
    if step.Receive? { RuntimeSafety.DecideFits(cfg, s, step.packet, step.now); }
  }

  // ---------- The reply reaches the caller ----------

  /** A stream in which no poll fails and no empty poll finds the context done or the call expired. */
  ghost predicate Calm(polls: seq<Caller.Polled>) {
    forall k :: 0 <= k < |polls| ==> !polls[k].PollFailed? && (polls[k].Nothing? ==> !polls[k].contextDone && !polls[k].expired)
  }

  /** A module's result envelope on a kind the host does not reserve. */
  ghost predicate ResultEnvelope(e: Envelope) {
    e.Valid() && e.pattern == F_REPLY && e.operation == OP_RESULT && e.kind != KIND_CAPABILITY_ABSENT && e.kind != KIND_ERROR
  }

  lemma ReplyFragment(e: Envelope, part: seq<byte>, more: bool, acc: seq<byte>)
    requires ResultEnvelope(e) && |acc| + |part| <= MAX_BODY
    ensures Caller.Consider(e.PacketFor(part, more), e.kind, e.corr, acc) ==
      if e.status != STATUS_OK then Caller.NonOk(e.status)
      else if more then Caller.Pending(acc + part) else Caller.Reply(acc + part)
  {
    PacketFlags(e, part, more);
    PacketDecodes(e, part, more);
    hide ModuleProtocol.Decode, Packet.Has;
  }

  lemma OthersSkipped(p: Packet, kind: u32, corr: u64, acc: seq<byte>)
    requires p.corr != corr
    ensures Caller.Consider(p, kind, corr, acc) == Caller.Pending(acc)
  {}

  /** Whatever else is interleaved, waiting over the fragments of one OK result returns its body,
      and over those of a non-OK result returns its status. */
  lemma {:induction false} ReplyArrives(polls: seq<Caller.Polled>, e: Envelope, acc: seq<byte>, rest: seq<byte>, chunk: nat)
    requires ResultEnvelope(e) && Calm(polls) && 0 < chunk <= MAX_BODY && |acc| + |rest| <= MAX_BODY
    requires OwnDelivered(polls, e.corr) == Packets(e, rest, chunk)
    ensures Caller.Await(polls, e.kind, e.corr, acc) ==
      if e.status == STATUS_OK then Caller.Reply(acc + rest) else Caller.NonOk(e.status)
    decreases |polls|
  {
    hide Caller.Consider, Envelope.PacketFor;
    assert polls != [] by { assert Packets(e, rest, chunk) != []; }
    var poll := polls[0];
    assert Calm(polls[1..]);
    if poll.Delivered? && poll.packet.corr == e.corr {
      assert OwnDelivered(polls, e.corr)[0] == poll.packet;
      assert OwnDelivered(polls, e.corr)[1..] == OwnDelivered(polls[1..], e.corr);
      if |rest| <= chunk {
        ReplyFragment(e, rest, false, acc);
      } else {
        ReplyFragment(e, rest[..chunk], true, acc);
        if e.status == STATUS_OK {
          assert Packets(e, rest, chunk)[1..] == Packets(e, rest[chunk..], chunk);
          ReplyArrives(polls[1..], e, acc + rest[..chunk], rest[chunk..], chunk);
          assert acc + rest[..chunk] + rest[chunk..] == acc + rest;
        }
      }
    } else {
      if poll.Delivered? { OthersSkipped(poll.packet, e.kind, e.corr, acc); }
      ReplyArrives(polls[1..], e, acc, rest, chunk);
    }
  }

  lemma {:induction false} SelectConcat(a: seq<Packet>, b: seq<Packet>, c: u64)
    ensures Select(a + b, c) == Select(a, c) + Select(b, c)
  {
    if b == [] {
      assert a + b == a;
    } else {
      var last := |b| - 1;
      SelectConcat(a, b[..last], c);
      assert (a + b)[..|a + b| - 1] == a + b[..last];
    }
  }

  lemma {:induction false} SelectPackets(e: Envelope, body: seq<byte>, chunk: nat, c: u64)
    requires 0 < chunk <= MAX_BODY && (e.pattern == F_REQUEST || e.pattern == F_REPLY)
    ensures Select(Packets(e, body, chunk), c) == if e.corr == c then Packets(e, body, chunk) else []
  {
    if |body| > chunk {
      var head, tail := e.PacketFor(body[..chunk], true), Packets(e, body[chunk..], chunk);
      SelectPackets(e, body[chunk..], chunk, c);
      SelectConcat([head], tail, c);
      SelectOne(head, c);
    } else {
      SelectOne(e.PacketFor(body, false), c);
    }
  }

  lemma SelectOne(p: Packet, c: u64)
    ensures Select([p], c) == if p.corr == c then [p] else []
  {
    assert [p][..0] == [];
  }

  /** The packets sent for one correlation are the packets of its answers, in order. */
  lemma {:induction false} SelectOutbound(answers: seq<Answer>, budget: u32, c: u64)
    requires MESSAGE_HDR_LEN < budget <= MAX_PAYLOAD
    ensures Select(Outbound(answers, budget), c) == Outbound(OwnAnswers(answers, c), budget)
  {
    if answers != [] {
      hide AnswerPackets, Select, Outbound, OwnAnswers;
      var before, a := answers[..|answers| - 1], answers[|answers| - 1];
      assert answers == before + [a];
      SelectOutbound(before, budget, c);
      OutboundAfter(before, a, budget);
      OwnAnswersAfter(before, a, c);
      SelectConcat(Outbound(before, budget), AnswerPackets(a, budget), c);
      SelectAnswer(a, budget, c);
      if a.corr == c {
        OutboundAfter(OwnAnswers(before, c), a, budget);
      } else {
        assert OwnAnswers(answers, c) == OwnAnswers(before, c);
      }
    }
  }

  lemma SelectAnswer(a: Answer, budget: u32, c: u64)
    requires MESSAGE_HDR_LEN < budget <= MAX_PAYLOAD
    ensures Select(AnswerPackets(a, budget), c) == if a.corr == c then AnswerPackets(a, budget) else []
  {
    hide Packets, Select;
    SelectPackets(a.AsEnvelope(), a.outcome.body, budget - MESSAGE_HDR_LEN, c);
  }

  lemma OutboundAfter(answers: seq<Answer>, a: Answer, budget: u32)
    requires MESSAGE_HDR_LEN < budget <= MAX_PAYLOAD
    ensures Outbound(answers + [a], budget) == Outbound(answers, budget) + AnswerPackets(a, budget)
  {
    assert (answers + [a])[..|answers|] == answers;
  }

  lemma OutboundOne(a: Answer, budget: u32)
    requires MESSAGE_HDR_LEN < budget <= MAX_PAYLOAD
    ensures Outbound([a], budget) == AnswerPackets(a, budget)
  {
    OutboundAfter([], a, budget);
    assert [] + [a] == [a] && Outbound([], budget) == [];
  }

  // ---------- The call ----------

  /** What the caller is told of a handler's return that no cancel reached: past the deadline that,
      else its body if it is OK and within the limit, and its status or an internal error if not. */
  ghost predicate Tells(r: Caller.Outcome, deadlineNs: u64, now: u64, status: u16, response: seq<byte>) {
    var expired := deadlineNs != 0 && now != 0 && now >= deadlineNs;
    && (expired ==> r == Caller.NonOk(STATUS_DEADLINE_EXCEEDED))
    && (!expired && (status > STATUS_INTERNAL || |response| > MAX_BODY) ==> r == Caller.NonOk(STATUS_INTERNAL))
    && (!expired && STATUS_OK < status <= STATUS_INTERNAL && |response| <= MAX_BODY ==> r == Caller.NonOk(status))
    && (!expired && status == STATUS_OK && |response| <= MAX_BODY ==> r == Caller.Reply(response))
  }

  /** The call's correlation is fresh: no assembly, no job, never answered. */
  ghost predicate FreshCall(s: State, c: u64) {
    c !in s.assemblies && c !in s.jobs && OwnAnswers(s.answers, c) == []
  }

  /** The handler ran exactly once for this correlation, as job id, on the request. */
  ghost predicate RanOnce(s: State, t: State, work: Work, request: seq<byte>, id: nat) {
    && |s.starts| <= id < |t.starts| && t.starts[id] == Start(work, request)
    && forall j :: |s.starts| <= j < |t.starts| && t.starts[j].work.corr == work.corr ==> j == id
  }

  /** At step k the job's handler has returned, and makes its final check. */
  predicate ReturnsAt(steps: seq<Step>, k: nat, id: nat) {
    k < |steps| && steps[k].HandlerChecks? && steps[k].id == id
  }

  /** A return recorded by the end of a run, and not before it, is that of one of its steps. */
  lemma {:induction false} ReturnsWithin(cfg: Config, s: State, steps: seq<Step>, id: nat) returns (k: nat)
    requires id !in s.finishes && id in Run(cfg, s, steps).finishes
    ensures var f := Run(cfg, s, steps).finishes[id];
      ReturnsAt(steps, k, id) && steps[k].response == f.response && steps[k].status == f.status && steps[k].now == f.now
    decreases |steps|
  {
    hide Apply, Checks;
    assert steps != [];
    var n := |steps| - 1;
    assert steps == steps[..n] + [steps[n]];
    RunOneMore(cfg, s, steps[..n], steps[n]);
    hide Run;
    var t := Run(cfg, s, steps[..n]);
    StepChecks(cfg, t, steps[n], id);
    k := n;
    if Checks(t, steps[n], id) {
      assert steps[n].HandlerChecks? && steps[n].id == id by { ChecksIsReturn(t, steps[n], id); }
    } else {
      k := ReturnsWithin(cfg, s, steps[..n], id);
    }
  }

  lemma ChecksIsReturn(s: State, step: Step, id: nat)
    requires Checks(s, step, id)
    ensures step.HandlerChecks? && step.id == id
  {}

  lemma ServesOnce(cfg: Config, s: State, steps: seq<Step>, call: Envelope, request: seq<byte>, chunk: nat) returns (id: nat)
    requires RuntimeSafety.Inv(cfg, s) && IdsKnown(s) && FreshCall(s, call.corr) && Served(cfg, call)
    requires 0 < chunk <= MAX_BODY && |request| <= MAX_BODY
    requires OwnPolled(steps, call.corr) == Packets(call, request, chunk)
    requires Smooth(cfg, s, steps, call.corr, call.deadlineNs)
    requires Run(cfg, s, steps).phase == Serving && call.corr !in Run(cfg, s, steps).jobs
    ensures var t := Run(cfg, s, steps);
      && RanOnce(s, t, WorkOf(call), request, id) && id in t.finishes && !t.finishes[id].sawCancel
      && OwnAnswers(t.answers, call.corr) == [AnswerOf(t, id)]
  {
    hide Apply, OwnAnswers, RuntimeSafety.Inv, Smooth, Served;
    var k := RequestArrives(cfg, s, steps, call, [], request, chunk);
    assert [] + request == request;
    var m := Run(cfg, s, steps[..k]);
    id := |m.starts| - 1;
    ResultReturns(cfg, m, steps[k..], call.corr, id);
    StartsOnlyBefore(cfg, m, steps[k..], call.corr);
  }

  /** No further start for a correlation none of whose packets arrive. */
  lemma {:induction false} StartsOnlyBefore(cfg: Config, s: State, steps: seq<Step>, c: u64)
    requires OwnPolled(steps, c) == []
    ensures var t := Run(cfg, s, steps);
      s.starts <= t.starts && forall j :: |s.starts| <= j < |t.starts| ==> t.starts[j].work.corr != c
    decreases |steps|
  {
    if steps != [] {
      hide Apply;
      OtherStep(cfg, s, steps[0], c);
      StartsOnlyBefore(cfg, Apply(cfg, s, steps[0]), steps[1..], c);
    }
  }

  /** End to end. The process has come to s by some run from a fresh start; the call's correlation
      is fresh; the FIFO host hands the process exactly the call's packets, in order, among any
      other events, each when the process is clear to take it; the run is still serving at the end
      and the job has been collected. Then the handler ran exactly once for the call, on exactly
      the request bytes, and a caller whose own deliveries are exactly the packets sent for its
      correlation gets the handler's body, or its non-OK status, for every body and both budgets. */
  lemma CallEndToEnd(
    cfg: Config, history: seq<Step>, steps: seq<Step>, kind: u32, corr: u64, stageId: u32, deadlineNs: u64, traceId: u64,
    request: seq<byte>, callerBudget: u32, moduleBudget: u32, polls: seq<Caller.Polled>) returns (id: nat, k: nat)
    requires var call := Caller.RequestEnvelope(kind, corr, stageId, deadlineNs, traceId);
      && Served(cfg, call) && kind != KIND_CAPABILITY_ABSENT && kind != KIND_ERROR && |request| <= MAX_BODY
      && MESSAGE_HDR_LEN < callerBudget <= MAX_PAYLOAD && MESSAGE_HDR_LEN < moduleBudget <= MAX_PAYLOAD
      && var s := Run(cfg, Fresh, history);
      && FreshCall(s, corr)
      && OwnPolled(steps, corr) == Packets(call, request, callerBudget - MESSAGE_HDR_LEN)
      && Smooth(cfg, s, steps, corr, deadlineNs)
      && Run(cfg, s, steps).phase == Serving && corr !in Run(cfg, s, steps).jobs
    requires Calm(polls)
    requires OwnDelivered(polls, corr) == Select(Outbound(Run(cfg, Run(cfg, Fresh, history), steps).answers, moduleBudget), corr)
    ensures var s := Run(cfg, Fresh, history);
      var t := Run(cfg, s, steps);
      && RanOnce(s, t, Work(kind, corr, stageId, deadlineNs, traceId), request, id)
      && ReturnsAt(steps, k, id) && id in t.finishes
      && t.finishes[id] == Finish(steps[k].response, steps[k].status, false, steps[k].now)
      && Tells(Caller.Await(polls, kind, corr, []), deadlineNs, steps[k].now, steps[k].status, steps[k].response)
  {
    hide Apply, Run, OwnAnswers, RuntimeSafety.Inv, RuntimeSafety.JobTable, Smooth, HandlerOutcome, Caller.Await, Packets, Tells;
    var call := Caller.RequestEnvelope(kind, corr, stageId, deadlineNs, traceId);
    var s := Run(cfg, Fresh, history);
    RunFromFresh(cfg, history);
    id := ServesOnce(cfg, s, steps, call, request, callerBudget - MESSAGE_HDR_LEN);
    k := ReturnsWithin(cfg, s, steps, id);
    AnswerReaches(Run(cfg, s, steps), call, id, moduleBudget, polls);
  }

  lemma AnswerReaches(t: State, call: Envelope, id: nat, budget: u32, polls: seq<Caller.Polled>)
    requires call == Caller.RequestEnvelope(call.kind, call.corr, call.stageId, call.deadlineNs, call.traceId) && call.Valid()
    requires call.kind != KIND_CAPABILITY_ABSENT && call.kind != KIND_ERROR
    requires id < |t.starts| && t.starts[id].work == WorkOf(call) && id in t.finishes && !t.finishes[id].sawCancel
    requires OwnAnswers(t.answers, call.corr) == [AnswerOf(t, id)]
    requires MESSAGE_HDR_LEN < budget <= MAX_PAYLOAD && Calm(polls)
    requires OwnDelivered(polls, call.corr) == Select(Outbound(t.answers, budget), call.corr)
    ensures var f := t.finishes[id];
      Tells(Caller.Await(polls, call.kind, call.corr, []), call.deadlineNs, f.now, f.status, f.response)
  {
    hide Caller.Await, Packets, Outbound, OwnAnswers, Select, OwnDelivered, HandlerOutcome, Normal, Reports, Tells;
    var a, f := AnswerOf(t, id), t.finishes[id];
    SelectOutbound(t.answers, budget, call.corr);
    OutboundOne(a, budget);
    OutcomeValid(call.deadlineNs, f);
    OutcomeReports(call.deadlineNs, f);
    assert a.AsEnvelope() == Envelope(F_REPLY, call.kind, call.corr, OP_RESULT, a.outcome.status, call.stageId, 0, call.traceId);
    hide AnswerOf, Answer.AsEnvelope;
    ReplyArrives(polls, a.AsEnvelope(), [], a.outcome.body, budget - MESSAGE_HDR_LEN);
    assert [] + a.outcome.body == a.outcome.body;
    ReportTells(a.outcome, Caller.Await(polls, call.kind, call.corr, []), call.deadlineNs, f.now, f.status, f.response);
  }

  lemma ReportTells(o: Outcome, r: Caller.Outcome, deadlineNs: u64, now: u64, status: u16, response: seq<byte>)
    requires Reports(o, false, deadlineNs, now, status, response)
    requires r == if o.status == STATUS_OK then Caller.Reply(o.body) else Caller.NonOk(o.status)
    ensures Tells(r, deadlineNs, now, status, response)
  {}

  lemma OutcomeValid(deadlineNs: u64, f: Finish)
    ensures ValidStatus(HandlerOutcome(deadlineNs, f).status) && |HandlerOutcome(deadlineNs, f).body| <= MAX_BODY
  {}
}
