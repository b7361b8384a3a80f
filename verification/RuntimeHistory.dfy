/** What happened in a run of the module process, told from its steps: which jobs a cancel reached,
    what each handler's final check saw, what every job was answered, and why a frame was refused. */
module RuntimeHistory {
  import opened Bytes
  import opened Wire
  import opened ModuleProtocol
  import opened Rpc
  import opened ModuleRuntime
  import opened RuntimeSafety

  // ---------- Runs, last step first ----------

  lemma {:induction false} RunOneMore(cfg: Config, s: State, steps: seq<Step>, step: Step)
    ensures Run(cfg, s, steps + [step]) == Apply(cfg, Run(cfg, s, steps), step)
    decreases |steps|
  {
    hide Apply;
    if steps == [] {
      assert [step][1..] == [];
    } else {
      assert (steps + [step])[1..] == steps[1..] + [step];
      RunOneMore(cfg, Apply(cfg, s, steps[0]), steps[1..], step);
    }
  }

  /** The state just before step k of a run from a fresh process. */
  function Before(cfg: Config, steps: seq<Step>, k: nat): State
    requires k <= |steps|
  {
    Run(cfg, Fresh, steps[..k])
  }

  lemma LastStep(cfg: Config, steps: seq<Step>)
    requires steps != []
    ensures var n := |steps| - 1;
      Run(cfg, Fresh, steps) == Apply(cfg, Before(cfg, steps, n), steps[n]) && Before(cfg, steps[..n], n) == Before(cfg, steps, n)
  {
    var n := |steps| - 1;
    assert steps == steps[..n] + [steps[n]] && steps[..n][..n] == steps[..n];
    RunOneMore(cfg, Fresh, steps[..n], steps[n]);
  }

  lemma SameBefore(cfg: Config, steps: seq<Step>, n: nat, k: nat)
    requires k <= n <= |steps|
    ensures Before(cfg, steps[..n], k) == Before(cfg, steps, k)
  {
    assert steps[..n][..k] == steps[..k];
  }

  lemma BeforeInv(cfg: Config, steps: seq<Step>, k: nat)
    requires k <= |steps|
    ensures Inv(cfg, Before(cfg, steps, k)) && JobTable(Before(cfg, steps, k))
  {
    FreshInv(cfg);
    RunKeepsInv(cfg, Fresh, steps[..k]);
  }

  // ---------- Which jobs a cancel reached ----------

  /** The step raises the job's cancel flag: while the job is in the table of a serving process, a
      cancel frame of its correlation is polled, or the shutdown begins. */
  ghost predicate Cancels(s: State, step: Step, id: nat) {
    && s.phase == Serving && Owns(s, id)
    && (step.Shutdown? || (step.Receive? && step.packet.Has(F_CANCEL) && step.packet.corr == s.starts[id].work.corr))
  }

  ghost predicate CancelledAt(cfg: Config, steps: seq<Step>, k: nat, id: nat) {
    k < |steps| && Cancels(Before(cfg, steps, k), steps[k], id)
  }

  ghost predicate CancelledBefore(cfg: Config, steps: seq<Step>, n: nat, id: nat) {
    exists k :: 0 <= k < n && CancelledAt(cfg, steps, k, id)
  }

  lemma StepCancels(cfg: Config, s: State, step: Step, id: nat)
    requires JobTable(s)
    ensures id in Apply(cfg, s, step).cancelled <==> id in s.cancelled || Cancels(s, step, id)
  {
    hide Decide, Settle, HandlerOutcome, JobAnswer, Packet.Has;
    if step.Receive? {
      if s.phase == Serving {
        DecideFits(cfg, s, step.packet, step.now);
        ReceiveCancels(cfg, s, step.packet, Decide(cfg, s, step.packet, step.now), step.replied, id);
      }
    } else if step.Shutdown? && s.phase == Serving {
      TableValues(s, id);
    }
  }

  lemma TableValues(s: State, id: nat)
    requires JobTable(s)
    ensures id in s.jobs.Values <==> Owns(s, id)
  {
    if Owns(s, id) { assert s.jobs[s.starts[id].work.corr] == id; }
  }

  lemma ReceiveCancels(cfg: Config, s: State, p: Packet, d: Disposition, replied: bool, id: nat)
    requires JobTable(s) && Fits(cfg, s, p, d)
    ensures id in Settle(cfg, s, p, d, replied).cancelled <==>
      id in s.cancelled || (p.Has(F_CANCEL) && Owns(s, id) && p.corr == s.starts[id].work.corr)
  {
    hide ModuleProtocol.Decode, Prior, Acceptable, StartOf, Packet.Has, Packet.BodyPart;
    if p.corr in s.jobs { assert Owns(s, s.jobs[p.corr]) && s.starts[s.jobs[p.corr]].work.corr == p.corr; }
    hide JobTable;
  }

  lemma PrefixCancels(cfg: Config, steps: seq<Step>, n: nat, id: nat)
    requires n <= |steps|
    ensures CancelledBefore(cfg, steps[..n], n, id) <==> CancelledBefore(cfg, steps, n, id)
  {
    hide Before, Cancels;
    forall k | 0 <= k < n ensures CancelledAt(cfg, steps[..n], k, id) <==> CancelledAt(cfg, steps, k, id) {
      SameBefore(cfg, steps, n, k);
    }
  }

  lemma OneMoreCancel(cfg: Config, steps: seq<Step>, n: nat, id: nat)
    ensures CancelledBefore(cfg, steps, n + 1, id) <==> CancelledBefore(cfg, steps, n, id) || CancelledAt(cfg, steps, n, id)
  {
    hide CancelledAt;
  }

  lemma NoneCancelled(cfg: Config, id: nat)
    ensures id !in Run(cfg, Fresh, []).cancelled && !CancelledBefore(cfg, [], 0, id)
  {}

  lemma CancelledLast(cfg: Config, steps: seq<Step>, id: nat)
    requires steps != []
    ensures var n := |steps| - 1;
      id in Run(cfg, Fresh, steps).cancelled <==> id in Before(cfg, steps, n).cancelled || CancelledAt(cfg, steps, n, id)
  {
    hide Run, Apply, Cancels, Inv, JobTable;
    var n := |steps| - 1;
    BeforeInv(cfg, steps, n);
    LastStep(cfg, steps);
    StepCancels(cfg, Before(cfg, steps, n), steps[n], id);
  }

  /** In every run, a job's cancel flag is up exactly when a cancel frame of its correlation was
      polled, or a shutdown began, while the job was in the table. */
  lemma {:induction false} CancelledIff(cfg: Config, steps: seq<Step>, id: nat)
    ensures id in Run(cfg, Fresh, steps).cancelled <==> CancelledBefore(cfg, steps, |steps|, id)
    decreases |steps|
  {
    hide Run, CancelledAt, CancelledBefore;
    NoneCancelled(cfg, id);
    if steps != [] {
      var n := |steps| - 1;
      CancelledLast(cfg, steps, id);
      CancelledIff(cfg, steps[..n], id);
      PrefixCancels(cfg, steps, n, id);
      OneMoreCancel(cfg, steps, n, id);
    }
  }

  lemma CancelledSoFar(cfg: Config, steps: seq<Step>, n: nat, id: nat)
    requires n <= |steps|
    ensures id in Before(cfg, steps, n).cancelled <==> CancelledBefore(cfg, steps, n, id)
  {
    hide Run, CancelledBefore;
    CancelledIff(cfg, steps[..n], id);
    PrefixCancels(cfg, steps, n, id);
  }

  // ---------- What each final check saw ----------

  /** Ids not yet given out are neither cancelled nor finished. */
  ghost predicate IdsKnown(s: State) {
    (forall id :: id in s.cancelled ==> id < |s.starts|) && (forall id :: id in s.finishes ==> id < |s.starts|)
  }

  lemma StepKeepsIdsKnown(cfg: Config, s: State, step: Step)
    requires JobTable(s) && IdsKnown(s)
    ensures IdsKnown(Apply(cfg, s, step))
  {
    hide Decide, Settle, HandlerOutcome, JobAnswer;
    forall c | c in s.jobs ensures s.jobs[c] < |s.starts| { assert Owns(s, s.jobs[c]); }
    hide JobTable;
    if step.Receive? {
      if s.phase == Serving {
        DecideFits(cfg, s, step.packet, step.now);
        ReceiveKeepsIdsKnown(cfg, s, step.packet, Decide(cfg, s, step.packet, step.now), step.replied);
      }
    }
  }

  lemma ReceiveKeepsIdsKnown(cfg: Config, s: State, p: Packet, d: Disposition, replied: bool)
    requires Fits(cfg, s, p, d) && IdsKnown(s) && forall c :: c in s.jobs ==> s.jobs[c] < |s.starts|
    ensures IdsKnown(Settle(cfg, s, p, d, replied))
  {
    hide ModuleProtocol.Decode, Packet.Has, Packet.BodyPart, Prior, Continues, StartOf;
  }

  lemma InvTable(cfg: Config, s: State)
    requires Inv(cfg, s)
    ensures JobTable(s) && AnswersMatch(s)
  {}

  /** A running handler was checked exactly if its outcome is there to be sent. */
  ghost predicate CheckedOnce(s: State) {
    && IdsKnown(s)
    && (forall id :: id in s.checked ==> id in s.finishes)
    && (forall id :: id in s.running && id in s.finishes ==> id in s.checked)
  }

  lemma StepKeepsOnce(cfg: Config, s: State, step: Step)
    requires JobTable(s) && CheckedOnce(s)
    ensures CheckedOnce(Apply(cfg, s, step))
  {
    StepKeepsIdsKnown(cfg, s, step);
    hide Decide, Settle, HandlerOutcome, JobAnswer, JobTable;
    if step.Receive? {
      if s.phase == Serving {
        DecideFits(cfg, s, step.packet, step.now);
        ReceiveKeepsOnce(cfg, s, step.packet, Decide(cfg, s, step.packet, step.now), step.replied);
      }
    } else {
      hide IdsKnown, Fits;
    }
  }

  lemma ReceiveKeepsOnce(cfg: Config, s: State, p: Packet, d: Disposition, replied: bool)
    requires Fits(cfg, s, p, d) && CheckedOnce(s)
    requires IdsKnown(Settle(cfg, s, p, d, replied))
    ensures CheckedOnce(Settle(cfg, s, p, d, replied))
  {
    Settled(cfg, s, p, d, replied);
    hide Settle, Fits;
  }

  lemma {:induction false} RunKeepsOnce(cfg: Config, s: State, steps: seq<Step>)
    requires Inv(cfg, s) && CheckedOnce(s)
    ensures CheckedOnce(Run(cfg, s, steps))
    decreases |steps|
  {
    if steps != [] {
      hide Apply, Inv, CheckedOnce;
      InvTable(cfg, s);
      StepKeepsOnce(cfg, s, steps[0]);
      StepKeepsInv(cfg, s, steps[0]);
      RunKeepsOnce(cfg, Apply(cfg, s, steps[0]), steps[1..]);
    }
  }

  lemma RunFromFresh(cfg: Config, steps: seq<Step>)
    ensures var e := Run(cfg, Fresh, steps);
      Inv(cfg, e) && JobTable(e) && AnswersMatch(e) && CheckedOnce(e) && IdsKnown(e)
  {
    FreshInv(cfg);
    RunKeepsInv(cfg, Fresh, steps);
    RunKeepsOnce(cfg, Fresh, steps);
    hide Run;
    InvTable(cfg, Run(cfg, Fresh, steps));
  }

  /** The step is the final check of the job's handler, which has returned. */
  ghost predicate Checks(s: State, step: Step, id: nat) {
    step.HandlerChecks? && step.id == id && id in s.running && id !in s.checked && id < |s.starts|
  }

  ghost predicate CheckedAt(cfg: Config, steps: seq<Step>, k: nat, id: nat) {
    k < |steps| && Checks(Before(cfg, steps, k), steps[k], id)
  }

  lemma StepChecks(cfg: Config, s: State, step: Step, id: nat)
    ensures var t := Apply(cfg, s, step);
      && (id in t.finishes <==> id in s.finishes || Checks(s, step, id))
      && (id in t.finishes ==>
        t.finishes[id] == if Checks(s, step, id) then Finish(step.response, step.status, id in s.cancelled, step.now) else s.finishes[id])
  {
    hide Decide, Settle, HandlerOutcome, JobAnswer;
    if step.Receive? && s.phase == Serving {
      DecideFits(cfg, s, step.packet, step.now);
      Settled(cfg, s, step.packet, Decide(cfg, s, step.packet, step.now), step.replied);
      hide Fits;
    }
  }

  lemma ChecksLast(cfg: Config, steps: seq<Step>, id: nat)
    requires steps != []
    ensures var n := |steps| - 1;
      var s, t := Before(cfg, steps, n), Run(cfg, Fresh, steps);
      && (id in t.finishes <==> id in s.finishes || CheckedAt(cfg, steps, n, id))
      && (id in t.finishes && !CheckedAt(cfg, steps, n, id) ==> t.finishes[id] == s.finishes[id])
      && (CheckedAt(cfg, steps, n, id) ==> id !in s.finishes)
      && (CheckedAt(cfg, steps, n, id) ==>
        t.finishes[id] == Finish(steps[n].response, steps[n].status, CancelledBefore(cfg, steps, n, id), steps[n].now))
  {
    var n := |steps| - 1;
    LastStep(cfg, steps);
    RunFromFresh(cfg, steps[..n]);
    CancelledSoFar(cfg, steps, n, id);
    hide Run, Apply, Inv, JobTable, AnswersMatch, CancelledBefore;
    StepChecks(cfg, Before(cfg, steps, n), steps[n], id);
  }

  lemma PrefixChecks(cfg: Config, steps: seq<Step>, n: nat, k: nat, id: nat)
    requires k < n <= |steps|
    ensures CheckedAt(cfg, steps[..n], k, id) <==> CheckedAt(cfg, steps, k, id)
  {
    hide Before, Checks;
    SameBefore(cfg, steps, n, k);
  }

  /** The return recorded of a job is that of its one final check, and whether it saw a cancel is
      whether one had reached the job by then. */
  lemma {:induction false} CheckIsRecorded(cfg: Config, steps: seq<Step>, k: nat, id: nat)
    requires CheckedAt(cfg, steps, k, id)
    ensures var e := Run(cfg, Fresh, steps);
      id in e.finishes && e.finishes[id] == Finish(steps[k].response, steps[k].status, CancelledBefore(cfg, steps, k, id), steps[k].now)
    decreases |steps|
  {
    hide Run, CancelledBefore, CheckedAt;
    var n := |steps| - 1;
    assert k <= n by { CheckedInside(cfg, steps, k, id); }
    ChecksLast(cfg, steps, id);
    if k < n {
      PrefixChecks(cfg, steps, n, k, id);
      CheckIsRecorded(cfg, steps[..n], k, id);
      CancelsEarlier(cfg, steps, n, k, id);
      CheckedOnlyOnce(cfg, steps, n, id);
    }
  }

  lemma CheckedInside(cfg: Config, steps: seq<Step>, k: nat, id: nat)
    requires CheckedAt(cfg, steps, k, id)
    ensures k < |steps|
  {}

  lemma CancelsEarlier(cfg: Config, steps: seq<Step>, n: nat, k: nat, id: nat)
    requires k <= n <= |steps|
    ensures CancelledBefore(cfg, steps[..n], k, id) <==> CancelledBefore(cfg, steps, k, id)
  {
    hide CancelledBefore;
    PrefixCancels(cfg, steps, k, id);
    PrefixCancels(cfg, steps[..n], k, id);
    assert steps[..n][..k] == steps[..k];
  }

  lemma CheckedOnlyOnce(cfg: Config, steps: seq<Step>, n: nat, id: nat)
    requires n < |steps| && id in Before(cfg, steps, n).finishes
    ensures !CheckedAt(cfg, steps, n, id)
  {
    RunFromFresh(cfg, steps[..n]);
    hide Run, Inv, JobTable, AnswersMatch, IdsKnown;
  }

  /** A recorded return was checked at some step. */
  lemma {:induction false} RecordedWasChecked(cfg: Config, steps: seq<Step>, id: nat) returns (k: nat)
    requires id in Run(cfg, Fresh, steps).finishes
    ensures CheckedAt(cfg, steps, k, id)
    decreases |steps|
  {
    hide CheckedAt;
    assert steps != [];
    hide Run;
    var n := |steps| - 1;
    ChecksLast(cfg, steps, id);
    k := n;
    if !CheckedAt(cfg, steps, n, id) {
      k := RecordedWasChecked(cfg, steps[..n], id);
      assert k < n by { CheckedInside(cfg, steps[..n], k, id); }
      PrefixChecks(cfg, steps, n, k, id);
    }
  }

  // ---------- What every job was answered ----------

  /** What a job's outcome must be, given how its handler returned and what the final check saw. */
  ghost predicate Reports(o: Outcome, cancelled: bool, deadlineNs: u64, now: u64, status: u16, response: seq<byte>) {
    var expired := deadlineNs != 0 && now != 0 && now >= deadlineNs;
    && (cancelled ==> o == Outcome(STATUS_CANCELLED, []))
    && (!cancelled && expired ==> o == Outcome(STATUS_DEADLINE_EXCEEDED, []))
    && (!cancelled && !expired && (status > STATUS_INTERNAL || |response| > MAX_BODY) ==> o == Outcome(STATUS_INTERNAL, []))
    && (!cancelled && !expired && STATUS_OK < status <= STATUS_INTERNAL && |response| <= MAX_BODY ==> o == Outcome(status, []))
    && (!cancelled && !expired && status == STATUS_OK && |response| <= MAX_BODY ==> o == Outcome(STATUS_OK, response))
  }

  lemma OutcomeReports(deadlineNs: u64, f: Finish)
    ensures Reports(HandlerOutcome(deadlineNs, f), f.sawCancel, deadlineNs, f.now, f.status, f.response)
  {}

  /** Every answer to a job, in every run: it goes to the correlation, kind, stage and trace the job
      was started for, and reports its handler's return as its one final check found it. */
  lemma JobAnswersReport(cfg: Config, steps: seq<Step>, i: nat) returns (id: nat, k: nat)
    requires i < |Run(cfg, Fresh, steps).answers| && Run(cfg, Fresh, steps).answers[i].origin.ForJob?
    ensures var e := Run(cfg, Fresh, steps);
      && e.answers[i].origin == ForJob(id) && id < |e.starts| && CheckedAt(cfg, steps, k, id)
      && var a, w, r := e.answers[i], e.starts[id].work, steps[k];
      && a.corr == w.corr && a.kind == w.kind && a.stageId == w.stageId && a.traceId == w.traceId
      && Reports(a.outcome, CancelledBefore(cfg, steps, k, id), w.deadlineNs, r.now, r.status, r.response)
  {
    hide Run, CancelledBefore, CheckedAt, Reports, HandlerOutcome;
    RunFromFresh(cfg, steps);
    var e := Run(cfg, Fresh, steps);
    id := e.answers[i].origin.id;
    assert AnswerMatches(e, e.answers[i]);
    k := RecordedWasChecked(cfg, steps, id);
    CheckIsRecorded(cfg, steps, k, id);
    OutcomeReports(e.starts[id].work.deadlineNs, e.finishes[id]);
  }

  /** Once a cancel reached a job whose handler was not yet checked, the job is answered nothing but
      that it was cancelled: never OK, and never with a body. */
  lemma CancelWins(cfg: Config, steps: seq<Step>, j: nat, id: nat, i: nat)
    requires CancelledAt(cfg, steps, j, id) && id !in Before(cfg, steps, j).finishes
    requires i < |Run(cfg, Fresh, steps).answers| && Run(cfg, Fresh, steps).answers[i].origin == ForJob(id)
    ensures Run(cfg, Fresh, steps).answers[i].outcome == Outcome(STATUS_CANCELLED, [])
  {
    hide Run, Cancels, Checks;
    var id', k := JobAnswersReport(cfg, steps, i);
    if k < j {
      PrefixChecks(cfg, steps, j, k, id);
      CheckIsRecorded(cfg, steps[..j], k, id);
    }
    assert k != j by { hide Before; CancelIsNoCheck(cfg, steps, j, id); }
  }

  lemma CancelIsNoCheck(cfg: Config, steps: seq<Step>, j: nat, id: nat)
    requires CancelledAt(cfg, steps, j, id)
    ensures !CheckedAt(cfg, steps, j, id)
  {
    hide Before;
  }

  // ---------- Why a frame meets its fate ----------

  /** The packet invokes the stage that its kind is served under. */
  ghost predicate Invokes(cfg: Config, p: Packet) {
    var d := ModuleProtocol.Decode(p.payload);
    && p.kind in cfg.stages && cfg.stages[p.kind] != 0
    && d.Message? && d.message.operation == OP_INVOKE && d.message.stageId == cfg.stages[p.kind]
  }

  /** It can go on from what arrived for its correlation since the last reset, and is no job yet. */
  ghost predicate GoesOn(s: State, p: Packet)
    requires ModuleProtocol.Decode(p.payload).Message?
  {
    var m := ModuleProtocol.Decode(p.payload).message;
    p.corr !in s.jobs && Coherent(Since(s.log, p.corr), p.corr, p.kind, m.stageId, m.deadlineNs, m.traceId)
  }

  /** There is room for it: a free assembly if it opens one, and its bytes within the limit. */
  ghost predicate HasRoom(s: State, p: Packet) {
    var earlier := Since(s.log, p.corr);
    (earlier == [] ==> |s.assemblies| < 16) && |BodyOf(earlier + [p])| <= MAX_BODY
  }

  function Refusing(p: Packet, stageId: u32, traceId: u64, status: u16): Disposition {
    Refused(Answer(ForFrame, p.kind, p.corr, stageId, traceId, Outcome(status, [])))
  }

  /** What becomes of a request frame, and which status a refusal gives, in any state of any run, by
      what arrived before it. */
  lemma FateOfRequest(cfg: Config, s: State, p: Packet, now: u64)
    requires Inv(cfg, s) && p.Has(F_REQUEST) && !p.Has(F_CANCEL)
    ensures !Invokes(cfg, p) || !GoesOn(s, p) ==>
      var stage := if p.kind in cfg.stages && cfg.stages[p.kind] != 0 then cfg.stages[p.kind] else 1;
      Decide(cfg, s, p, now) == Refusing(p, stage, 0, STATUS_INVALID_REQUEST)
    ensures Invokes(cfg, p) && GoesOn(s, p) ==>
      var d, m := Decide(cfg, s, p, now), ModuleProtocol.Decode(p.payload).message;
      var expired := m.deadlineNs != 0 && now >= m.deadlineNs;
      && (!HasRoom(s, p) ==> d == Refusing(p, m.stageId, m.traceId, STATUS_INTERNAL))
      && (HasRoom(s, p) && p.Has(F_MORE) ==> d == Absorbed)
      && (HasRoom(s, p) && !p.Has(F_MORE) && expired ==> d == Refusing(p, m.stageId, m.traceId, STATUS_DEADLINE_EXCEEDED))
      && (HasRoom(s, p) && !p.Has(F_MORE) && !expired && !cfg.hasHandler ==> d == Refusing(p, m.stageId, m.traceId, STATUS_CAPABILITY_ABSENT))
      && (HasRoom(s, p) && !p.Has(F_MORE) && !expired && cfg.hasHandler && |s.jobs| >= 16 ==>
        d == Refusing(p, m.stageId, m.traceId, STATUS_INTERNAL))
      && (HasRoom(s, p) && !p.Has(F_MORE) && !expired && cfg.hasHandler && |s.jobs| < 16 ==> d == Started(|s.starts|))
  {
    assert AssemblyMatches(s, p.corr);
    AcceptableIff(cfg, s, p);
    RequestDecision(cfg, s, p, now);
    hide Inv, AssemblyMatches, Acceptable, GoesOn, Decide, Packet.Has, ModuleProtocol.Decode;
    if Invokes(cfg, p) {
      RoomIff(cfg, s, p);
      var m := ModuleProtocol.Decode(p.payload).message;
      hide HasRoom, Prior;
      FragmentFate(cfg, s, p, m, now, HasRoom(s, p));
    }
    hide Invokes, DecideFragment;
  }

  lemma RequestDecision(cfg: Config, s: State, p: Packet, now: u64)
    requires p.Has(F_REQUEST) && !p.Has(F_CANCEL)
    ensures var stage := if p.kind in cfg.stages && cfg.stages[p.kind] != 0 then cfg.stages[p.kind] else 1;
      !Acceptable(cfg, s, p) ==> Decide(cfg, s, p, now) == Refusing(p, stage, 0, STATUS_INVALID_REQUEST)
    ensures Acceptable(cfg, s, p) ==> ModuleProtocol.Decode(p.payload).Message?
    ensures Acceptable(cfg, s, p) ==> Decide(cfg, s, p, now) == DecideFragment(cfg, s, p, ModuleProtocol.Decode(p.payload).message, now)
  {
    hide Packet.Has, ModuleProtocol.Decode, Continues, Prior, DecideFragment;
  }

  lemma FragmentFate(cfg: Config, s: State, p: Packet, m: Message, now: u64, room: bool)
    requires room <==> (p.corr in s.assemblies || |s.assemblies| < 16) && |Prior(s, p, m).body| + m.bodyLen <= MAX_BODY
    requires p.kind in cfg.stages && m.stageId == cfg.stages[p.kind]
    ensures var d, expired := DecideFragment(cfg, s, p, m, now), m.deadlineNs != 0 && now >= m.deadlineNs;
      && (!room ==> d == Refusing(p, m.stageId, m.traceId, STATUS_INTERNAL))
      && (room && p.Has(F_MORE) ==> d == Absorbed)
      && (room && !p.Has(F_MORE) && expired ==> d == Refusing(p, m.stageId, m.traceId, STATUS_DEADLINE_EXCEEDED))
      && (room && !p.Has(F_MORE) && !expired && !cfg.hasHandler ==> d == Refusing(p, m.stageId, m.traceId, STATUS_CAPABILITY_ABSENT))
      && (room && !p.Has(F_MORE) && !expired && cfg.hasHandler && |s.jobs| >= 16 ==> d == Refusing(p, m.stageId, m.traceId, STATUS_INTERNAL))
      && (room && !p.Has(F_MORE) && !expired && cfg.hasHandler && |s.jobs| < 16 ==> d == Started(|s.starts|))
  {
    hide Packet.Has, Prior;
  }

  lemma AcceptableIff(cfg: Config, s: State, p: Packet)
    requires AssemblyMatches(s, p.corr)
    ensures Acceptable(cfg, s, p) <==> Invokes(cfg, p) && GoesOn(s, p)
  {
    hide ModuleProtocol.Decode, Packet.Has, BodyOf, Since;
    var ps := Since(s.log, p.corr);
    if Invokes(cfg, p) && p.corr in s.assemblies { assert ps[0] in ps; }
  }

  lemma RoomIff(cfg: Config, s: State, p: Packet)
    requires AssemblyMatches(s, p.corr) && Invokes(cfg, p)
    ensures var m := ModuleProtocol.Decode(p.payload).message;
      HasRoom(s, p) <==> (p.corr in s.assemblies || |s.assemblies| < 16) && |Prior(s, p, m).body| + m.bodyLen <= MAX_BODY
  {
    hide ModuleProtocol.Decode, Packet.Has, BodyOf, Since, Coherent, AllMore;
    BodyOfAppend(Since(s.log, p.corr), p);
    EmptyBody();
  }

  lemma EmptyBody()
    ensures BodyOf([]) == []
  {}

  /** A cancel frame is always taken as one, and a frame that is no request is passed over. */
  lemma FateOfOthers(cfg: Config, s: State, p: Packet, now: u64)
    ensures Decide(cfg, s, p, now) == CancelSeen <==> p.Has(F_CANCEL)
    ensures Decide(cfg, s, p, now) == Ignored <==> !p.Has(F_CANCEL) && !p.Has(F_REQUEST)
  {
    hide Packet.Has, Acceptable;
  }
}
