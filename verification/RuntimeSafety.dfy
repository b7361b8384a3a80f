/** What every run of the module process keeps: job accounting, provenance of handler bodies,
    and conservation of requests. */
module RuntimeSafety {
  import Sequences
  import opened Bytes
  import opened Wire
  import opened ModuleProtocol
  import opened Rpc
  import opened ModuleRuntime

  // ---------- The job table ----------

  function DoneIds(done: seq<Result>): set<nat> {
    set k | 0 <= k < |done| :: done[k].id
  }

  /** The job is in the table under its own correlation. */
  ghost predicate Owns(s: State, id: nat) {
    id < |s.starts| && s.starts[id].work.corr in s.jobs && s.jobs[s.starts[id].work.corr] == id
  }

  ghost predicate DistinctIds(done: seq<Result>) {
    forall i, j :: 0 <= i < j < |done| ==> done[i].id != done[j].id
  }

  /** The table is in bijection with the handlers still running plus the results queued. */
  ghost predicate JobTable(s: State) {
    && (forall c :: c in s.jobs ==> Owns(s, s.jobs[c]) && s.starts[s.jobs[c]].work.corr == c)
    && (forall id :: id in s.running ==> Owns(s, id))
    && (forall k :: 0 <= k < |s.done| ==> Owns(s, s.done[k].id) && s.done[k].id !in s.running)
    && DistinctIds(s.done)
    && (forall c :: c in s.jobs ==> s.jobs[c] in s.running || s.jobs[c] in DoneIds(s.done))
  }

  ghost predicate TableBounds(s: State) {
    && |s.jobs| <= MAX_IN_FLIGHT && |s.assemblies| <= MAX_IN_FLIGHT
    && s.jobs.Keys !! s.assemblies.Keys
    && (s.phase == Draining ==> s.jobs != map[])
  }

  lemma DoneIdsAppend(done: seq<Result>, r: Result)
    ensures DoneIds(done + [r]) == DoneIds(done) + {r.id}
  {
    var all := done + [r];
    assert all[|done|] == r;
    forall id | id in DoneIds(done) + {r.id} ensures id in DoneIds(all) {
      if id in DoneIds(done) {
        var k :| 0 <= k < |done| && done[k].id == id;
        assert all[k].id == id;
      }
    }
  }

  lemma DoneIdsTail(done: seq<Result>)
    requires done != [] && DistinctIds(done)
    ensures DoneIds(done[1..]) == DoneIds(done) - {done[0].id} && DistinctIds(done[1..])
  {
    forall id | id in DoneIds(done) - {done[0].id} ensures id in DoneIds(done[1..]) {
      var k :| 0 <= k < |done| && done[k].id == id;
      assert done[1..][k - 1].id == id;
    }
  }

  lemma {:induction false} DoneIdsCount(done: seq<Result>)
    requires DistinctIds(done)
    ensures |DoneIds(done)| == |done|
  {
    if done == [] {
      assert DoneIds(done) == {};
    } else {
      DoneIdsTail(done);
      DoneIdsCount(done[1..]);
      assert done[0].id in DoneIds(done);
    }
  }

  lemma ValuesWithout(m: map<u64, nat>, c: u64)
    requires c in m && forall d :: d in m && m[d] == m[c] ==> d == c
    ensures m.Values == (m - {c}).Values + {m[c]} && m[c] !in (m - {c}).Values
  {
    var rest := m - {c};
    forall v | v in m.Values ensures v in rest.Values + {m[c]} {
      var d :| d in m && m[d] == v;
      if d != c { assert rest[d] == v; }
    }
  }

  /** A map whose values determine their keys has as many values as keys. */
  lemma {:induction false} InjectiveCount(m: map<u64, nat>)
    requires forall c, d :: c in m && d in m && m[c] == m[d] ==> c == d
    ensures |m.Values| == |m|
  {
    if m == map[] {
      assert m.Values == {};
    } else {
      var c :| c in m;
      var rest := m - {c};
      InjectiveCount(rest);
      ValuesWithout(m, c);
      assert m.Keys == rest.Keys + {c};
    }
  }

  lemma JobValues(s: State)
    requires JobTable(s)
    ensures DistinctIds(s.done) && s.jobs.Values == s.running + DoneIds(s.done) && s.running !! DoneIds(s.done)
    ensures forall c, d :: c in s.jobs && d in s.jobs && s.jobs[c] == s.jobs[d] ==> c == d
  {
    forall id | id in s.running + DoneIds(s.done) ensures id in s.jobs.Values {
      assert Owns(s, id);
    }
  }

  /** Running handlers plus queued results are exactly the jobs, at most 16. */
  lemma JobsAreRunningPlusQueued(s: State)
    requires JobTable(s) && TableBounds(s)
    ensures |s.running| + |s.done| == |s.jobs| <= MAX_IN_FLIGHT
  {
    JobValues(s);
    hide JobTable, DoneIds, DistinctIds;
    InjectiveCount(s.jobs);
    DoneIdsCount(s.done);
  }

  /** A handler that returns always finds room in the 16-slot channel, in every phase: also after
      an early return, when nobody receives any more. */
  lemma SendNeverBlocks(s: State, id: nat)
    requires JobTable(s) && TableBounds(s) && id in s.running
    ensures |s.done| < MAX_IN_FLIGHT
  {
    JobsAreRunningPlusQueued(s);
    assert |s.running| >= 1;
  }

  lemma StartKeepsTable(cfg: Config, s: State, p: Packet, replied: bool)
    requires JobTable(s) && p.corr !in s.jobs && ModuleProtocol.Decode(p.payload).Message?
    ensures JobTable(Settle(cfg, s, p, Started(|s.starts|), replied))
  {
    hide Prior, ModuleProtocol.Decode;
    var e := Settle(cfg, s, p, Started(|s.starts|), replied);
    forall id | Owns(s, id) ensures Owns(e, id) && id != |s.starts| {}
    assert Owns(e, |s.starts|);
  }

  lemma ReturnKeepsTable(cfg: Config, s: State, step: Step)
    requires JobTable(s) && step.HandlerSends?
    ensures JobTable(Apply(cfg, s, step))
  {
    var e := Apply(cfg, s, step);
    if e != s {
      DoneIdsAppend(s.done, e.done[|s.done|]);
      forall id | Owns(s, id) ensures Owns(e, id) {}
      forall k | 0 <= k < |e.done| ensures Owns(e, e.done[k].id) && e.done[k].id !in e.running {
        if k < |s.done| { assert e.done[k] == s.done[k]; }
      }
    }
  }

  /** Taking the first queued result out of the channel and its job out of the table. */
  lemma ReceiveResultKeepsTable(s: State, e: State)
    requires JobTable(s) && s.done != []
    requires e.starts == s.starts && e.running == s.running && e.done == s.done[1..]
    requires s.done[0].id < |s.starts| && e.jobs == s.jobs - {s.starts[s.done[0].id].work.corr}
    ensures JobTable(e)
  {
    var gone := s.done[0].id;
    assert Owns(s, gone);
    DoneIdsTail(s.done);
    forall id | Owns(s, id) && id != gone ensures Owns(e, id) {}
    forall k | 0 <= k < |e.done| ensures Owns(e, e.done[k].id) && e.done[k].id !in e.running {
      assert e.done[k] == s.done[k + 1];
    }
    forall c | c in e.jobs ensures e.jobs[c] in e.running || e.jobs[c] in DoneIds(e.done) {
      assert e.jobs[c] == s.jobs[c] && Owns(s, s.jobs[c]);
    }
  }

  lemma SameTable(s: State, e: State)
    requires JobTable(s) && e.jobs == s.jobs && e.running == s.running && e.done == s.done && e.starts == s.starts
    ensures JobTable(e)
  {
    forall id | Owns(s, id) ensures Owns(e, id) {}
  }

  /** What each fate of a polled event says about the tables it was decided in. */
  ghost predicate Fits(cfg: Config, s: State, p: Packet, d: Disposition) {
    match d
    case Ignored => !p.Has(F_CANCEL) && !p.Has(F_REQUEST)
    case CancelSeen => p.Has(F_CANCEL)
    case Refused(a) =>
      && !p.Has(F_CANCEL) && p.Has(F_REQUEST)
      && a.origin == ForFrame && a.kind == p.kind && a.corr == p.corr
      && a.outcome.status != STATUS_OK && a.outcome.body == []
    case Absorbed => p.Has(F_MORE) && Joins(cfg, s, p)
    case Started(id) => !p.Has(F_MORE) && Joins(cfg, s, p) && id == |s.starts| && |s.jobs| < MAX_IN_FLIGHT && cfg.hasHandler
  }

  /** The fragment is acceptable and has room, in the table and in its body. */
  ghost predicate Joins(cfg: Config, s: State, p: Packet) {
    && !p.Has(F_CANCEL) && p.Has(F_REQUEST) && Acceptable(cfg, s, p)
    && (p.corr in s.assemblies || |s.assemblies| < MAX_IN_FLIGHT)
    && |Prior(s, p, ModuleProtocol.Decode(p.payload).message).body| + |p.BodyPart()| <= MAX_BODY
  }

  lemma DecideFits(cfg: Config, s: State, p: Packet, now: u64)
    ensures Fits(cfg, s, p, Decide(cfg, s, p, now))
  {
    hide ModuleProtocol.Decode;
  }

  lemma ReceiveKeepsTable(cfg: Config, s: State, p: Packet, d: Disposition, replied: bool)
    requires JobTable(s) && Fits(cfg, s, p, d)
    ensures JobTable(Settle(cfg, s, p, d, replied))
  {
    hide JobTable, Prior, ModuleProtocol.Decode;
    if d.Started? {
      StartKeepsTable(cfg, s, p, replied);
    } else {
      SameTable(s, Settle(cfg, s, p, d, replied));
    }
  }

  lemma StepKeepsTable(cfg: Config, s: State, step: Step)
    requires JobTable(s)
    ensures JobTable(Apply(cfg, s, step))
  {
    hide JobTable, Decide, Settle;
    var e := Apply(cfg, s, step);
    if e != s {
      match step
      case Receive(p, now, replied) =>
        DecideFits(cfg, s, p, now);
        ReceiveKeepsTable(cfg, s, p, Decide(cfg, s, p, now), replied);
      case HandlerChecks(_, _, _, _) => SameTable(s, e);
      case HandlerSends(_) => ReturnKeepsTable(cfg, s, step);
      case Collect(_) => ReceiveResultKeepsTable(s, e);
      case DrainOne => ReceiveResultKeepsTable(s, e);
      case Shutdown => SameTable(s, e);
      case Quit => SameTable(s, e);
    }
  }

  lemma WithoutKey<V>(m: map<u64, V>, c: u64)
    ensures (m - {c}).Keys == m.Keys - {c}
    ensures |m - {c}| == if c in m then |m| - 1 else |m|
  {
    assert (m - {c}).Keys == m.Keys - {c};
    if c !in m { assert m - {c} == m; }
  }

  lemma WithKey<V>(m: map<u64, V>, c: u64, v: V)
    ensures m[c := v].Keys == m.Keys + {c}
    ensures |m[c := v]| == if c in m then |m| else |m| + 1
  {
    assert m[c := v].Keys == m.Keys + {c};
  }

  lemma AbsorbKeepsBounds(cfg: Config, s: State, p: Packet, replied: bool)
    requires TableBounds(s) && s.phase == Serving && Joins(cfg, s, p)
    ensures TableBounds(Settle(cfg, s, p, Absorbed, replied))
  {
    hide Prior, ModuleProtocol.Decode, Packet.Has, Packet.BodyPart, Continues;
    var e := Settle(cfg, s, p, Absorbed, replied);
    WithKey(s.assemblies, p.corr, e.assemblies[p.corr]);
  }

  lemma StartKeepsBounds(cfg: Config, s: State, p: Packet, replied: bool)
    requires TableBounds(s) && s.phase == Serving && Joins(cfg, s, p) && |s.jobs| < MAX_IN_FLIGHT
    ensures TableBounds(Settle(cfg, s, p, Started(|s.starts|), replied))
  {
    hide Prior, ModuleProtocol.Decode, Packet.Has, Packet.BodyPart, Continues;
    WithoutKey(s.assemblies, p.corr);
    WithKey(s.jobs, p.corr, |s.starts|);
  }

  /** What settling a polled event changes but for what a fragment adds to its assembly. */
  lemma Settled(cfg: Config, s: State, p: Packet, d: Disposition, replied: bool)
    requires Fits(cfg, s, p, d)
    ensures var e := Settle(cfg, s, p, d, replied);
      && e.done == s.done && e.checked == s.checked && e.finishes == s.finishes && e.log == s.log + [Entry(p, d)]
      && e.answers == s.answers + (if d.Refused? && replied then [d.answer] else [])
      && e.phase == (if d.Refused? && !replied then Stopped else s.phase)
      && (d.Started? ==>
        && e.jobs == s.jobs[p.corr := d.id] && e.running == s.running + {d.id}
        && d.id == |s.starts| && |e.starts| == |s.starts| + 1 && s.starts <= e.starts && e.starts[d.id].work.corr == p.corr)
      && (!d.Absorbed? ==> e.assemblies.Keys <= s.assemblies.Keys)
      && (!d.Started? ==> e.jobs == s.jobs && e.running == s.running && e.starts == s.starts)
  {
    hide Prior, ModuleProtocol.Decode, Packet.Has, Packet.BodyPart, Continues, ExpectedStage, FrameAnswer;
    var e := Settle(cfg, s, p, d, replied);
    if d.Refused? {
      hide StartState, StartOf;
      assert replied || e.answers == s.answers + [];
    } else if d.Started? {
      hide RefuseState, StartOf;
      assert e.answers == s.answers + [];
    } else {
      hide RefuseState, StartState, StartOf;
      assert e.answers == s.answers + [];
    }
  }

  /** What handler and shutdown steps leave alone. */
  lemma PlainTables(cfg: Config, s: State, step: Step)
    requires !step.Receive? && !step.Collect? && !step.DrainOne?
    ensures var e := Apply(cfg, s, step);
      && e.assemblies == s.assemblies && e.log == s.log && e.starts == s.starts && e.jobs == s.jobs
      && (e.phase == Draining ==> s.phase == Draining || s.jobs != map[])
  {
    hide HandlerOutcome, Settle, Decide, JobAnswer;
  }

  /** Taking a result out leaves everything but its job alone. */
  lemma ResultTables(cfg: Config, s: State, step: Step)
    requires step.Collect? || step.DrainOne?
    ensures var e := Apply(cfg, s, step);
      && e.assemblies == s.assemblies && e.log == s.log && e.starts == s.starts
      && (e.phase == Draining ==> s.phase == Draining) && (e.phase == Draining && e.jobs == map[] ==> e == s)
      && (e == s || (s.done != [] && s.done[0].id < |s.starts| && e.jobs == s.jobs - {s.starts[s.done[0].id].work.corr}))
  {
    hide HandlerOutcome, Settle, Decide, JobAnswer;
  }

  /** Steps other than a polled event leave the assemblies alone and can only take jobs away. */
  lemma OtherTables(cfg: Config, s: State, step: Step)
    requires !step.Receive?
    ensures var e := Apply(cfg, s, step);
      && e.assemblies == s.assemblies && e.log == s.log && e.starts == s.starts
      && e.jobs.Keys <= s.jobs.Keys
      && (e.phase == Draining && e.jobs == map[] ==> s.phase == Draining && s.jobs == map[])
  {
    hide Apply;
    if step.Collect? || step.DrainOne? {
      ResultTables(cfg, s, step);
    } else {
      PlainTables(cfg, s, step);
    }
  }

  lemma FewerKeys<V>(m: map<u64, V>, n: map<u64, V>)
    requires n.Keys <= m.Keys
    ensures |n| <= |m| && (n != map[] ==> m != map[])
  {
    assert m.Keys == n.Keys + (m.Keys - n.Keys);
    assert |m| == |m.Keys| && |n| == |n.Keys|;
    assert n != map[] ==> n.Keys != {};
  }

  lemma OtherKeepsBounds(s: State, e: State)
    requires TableBounds(s) && e.assemblies.Keys <= s.assemblies.Keys && e.jobs.Keys <= s.jobs.Keys
    requires e.phase == Draining && e.jobs == map[] ==> s.phase == Draining && s.jobs == map[]
    ensures TableBounds(e)
  {
    FewerKeys(s.jobs, e.jobs);
    FewerKeys(s.assemblies, e.assemblies);
  }

  lemma ReceiveKeepsBounds(cfg: Config, s: State, p: Packet, d: Disposition, replied: bool)
    requires TableBounds(s) && s.phase == Serving && Fits(cfg, s, p, d)
    ensures TableBounds(Settle(cfg, s, p, d, replied))
  {
    hide Prior, ModuleProtocol.Decode, Joins, Packet.Has;
    if d.Started? {
      StartKeepsBounds(cfg, s, p, replied);
    } else if d.Absorbed? {
      AbsorbKeepsBounds(cfg, s, p, replied);
    } else {
      Settled(cfg, s, p, d, replied);
      hide Settle, TableBounds;
      OtherKeepsBounds(s, Settle(cfg, s, p, d, replied));
    }
  }

  lemma StepKeepsBounds(cfg: Config, s: State, step: Step)
    requires TableBounds(s)
    ensures TableBounds(Apply(cfg, s, step))
  {
    hide Settle, Decide, HandlerOutcome, JobAnswer, Fits, TableBounds;
    if step.Receive? {
      if s.phase == Serving {
        DecideFits(cfg, s, step.packet, step.now);
        ReceiveKeepsBounds(cfg, s, step.packet, Decide(cfg, s, step.packet, step.now), step.replied);
      }
    } else {
      OtherTables(cfg, s, step);
      hide Apply;
      OtherKeepsBounds(s, Apply(cfg, s, step));
    }
  }

  // ---------- Where handler bodies come from ----------

  /** The fragments of c polled since its last reset: a cancel, a refusal, or a start. */
  function Since(log: seq<Entry>, c: u64): seq<Packet> {
    if log == [] then [] else
      var last, before := log[|log| - 1], log[..|log| - 1];
      if last.packet.corr != c || last.disposition.Ignored? then Since(before, c)
      else if last.disposition.Absorbed? then Since(before, c) + [last.packet]
      else []
  }

  /** The bodies of a run of fragments, joined in order. */
  function BodyOf(ps: seq<Packet>): seq<byte> {
    if ps == [] then [] else BodyOf(ps[..|ps| - 1]) + ps[|ps| - 1].BodyPart()
  }

  /** Every fragment invokes the same stage of the same kind with the same deadline and trace. */
  ghost predicate Coherent(ps: seq<Packet>, c: u64, kind: u32, stageId: u32, deadlineNs: u64, traceId: u64) {
    forall k :: 0 <= k < |ps| ==>
      var d := ModuleProtocol.Decode(ps[k].payload);
      && ps[k].corr == c && ps[k].kind == kind && ps[k].Has(F_REQUEST)
      && d.Message? && d.message.operation == OP_INVOKE
      && d.message.stageId == stageId && d.message.deadlineNs == deadlineNs && d.message.traceId == traceId
  }

  ghost predicate AllMore(ps: seq<Packet>) {
    forall k :: 0 <= k < |ps| ==> ps[k].Has(F_MORE)
  }

  /** The assembly of c is exactly what arrived for it since its last reset. */
  ghost predicate AssemblyMatches(s: State, c: u64) {
    var ps := Since(s.log, c);
    && (c in s.assemblies <==> ps != [])
    && (c in s.assemblies ==>
      var a := s.assemblies[c];
      && a.body == BodyOf(ps) && |a.body| <= MAX_BODY && AllMore(ps)
      && Coherent(ps, c, a.kind, a.message.stageId, a.message.deadlineNs, a.message.traceId))
  }

  ghost predicate Assembled(s: State) {
    forall c: u64 :: AssemblyMatches(s, c)
  }

  /** The start recorded at entry i ran on the fragments since the last reset plus entry i's own. */
  ghost predicate StartedFrom(cfg: Config, starts: seq<Start>, log: seq<Entry>, i: nat)
    requires i < |log| && log[i].disposition.Started?
  {
    var id, p := log[i].disposition.id, log[i].packet;
    var ps := Since(log[..i], p.corr) + [p];
    id < |starts| &&
      var w := starts[id].work;
      && w.corr == p.corr && w.kind in cfg.stages && w.stageId == cfg.stages[w.kind]
      && starts[id].body == BodyOf(ps) && |starts[id].body| <= MAX_BODY
      && Coherent(ps, p.corr, w.kind, w.stageId, w.deadlineNs, w.traceId)
      && AllMore(ps[..|ps| - 1]) && !p.Has(F_MORE)
  }

  /** Every handler start has such a provenance. */
  ghost predicate Provenance(cfg: Config, s: State) {
    forall i :: 0 <= i < |s.log| && s.log[i].disposition.Started? ==> StartedFrom(cfg, s.starts, s.log, i)
  }

  /** The ids started, in log order. */
  function StartedIds(log: seq<Entry>): seq<nat> {
    if log == [] then [] else
      var d := log[|log| - 1].disposition;
      StartedIds(log[..|log| - 1]) + if d.Started? then [d.id] else []
  }

  /** Each start has exactly one log entry: the ids started are 0, 1, 2, ... in order. */
  ghost predicate EachStartOnce(s: State) {
    |StartedIds(s.log)| == |s.starts| && forall k :: 0 <= k < |s.starts| ==> StartedIds(s.log)[k] == k
  }

  lemma SinceAfter(log: seq<Entry>, p: Packet, d: Disposition, c: u64)
    ensures Since(log + [Entry(p, d)], c) ==
      if p.corr != c || d.Ignored? then Since(log, c)
      else if d.Absorbed? then Since(log, c) + [p] else []
  {
    assert (log + [Entry(p, d)])[..|log|] == log;
  }

  lemma BodyOfAppend(ps: seq<Packet>, p: Packet)
    ensures BodyOf(ps + [p]) == BodyOf(ps) + p.BodyPart()
  {
    assert (ps + [p])[..|ps|] == ps;
  }

  lemma JoinedBody(cfg: Config, s: State, p: Packet)
    requires AssemblyMatches(s, p.corr) && Joins(cfg, s, p)
    ensures var m := ModuleProtocol.Decode(p.payload).message;
      var ps := Since(s.log, p.corr) + [p];
      Prior(s, p, m).body + p.BodyPart() == BodyOf(ps) && |BodyOf(ps)| <= MAX_BODY
  {
    hide ModuleProtocol.Decode, Coherent, Acceptable, AllMore, Since;
    BodyOfAppend(Since(s.log, p.corr), p);
  }

  lemma JoinedFragments(cfg: Config, s: State, p: Packet)
    requires AssemblyMatches(s, p.corr) && Joins(cfg, s, p)
    ensures var m := ModuleProtocol.Decode(p.payload).message;
      var ps := Since(s.log, p.corr) + [p];
      && AllMore(ps[..|ps| - 1])
      && Coherent(ps, p.corr, p.kind, m.stageId, m.deadlineNs, m.traceId)
      && m.stageId == ExpectedStage(cfg, p) != 0
  {
    hide ModuleProtocol.Decode, BodyOf, Since;
    var ps := Since(s.log, p.corr);
    assert (ps + [p])[..|ps|] == ps;
  }

  lemma ReceiveKeepsAssembled(cfg: Config, s: State, p: Packet, d: Disposition, replied: bool)
    requires Assembled(s) && Fits(cfg, s, p, d)
    ensures Assembled(Settle(cfg, s, p, d, replied))
  {
    forall c: u64 ensures AssemblyMatches(Settle(cfg, s, p, d, replied), c) {
      SinceAfter(s.log, p, d, c);
      assert AssemblyMatches(s, c);
      if c == p.corr { ReceiveOwnAssembly(cfg, s, p, d, replied); } else { ReceiveOtherAssembly(cfg, s, p, d, replied, c); }
    }
  }

  lemma ReceiveOtherAssembly(cfg: Config, s: State, p: Packet, d: Disposition, replied: bool, c: u64)
    requires AssemblyMatches(s, c) && Fits(cfg, s, p, d) && c != p.corr
    ensures AssemblyMatches(Settle(cfg, s, p, d, replied), c)
  {
    hide Coherent, AllMore, BodyOf, Prior, Since, Acceptable, ModuleProtocol.Decode;
    SinceAfter(s.log, p, d, c);
  }

  lemma ReceiveOwnAssembly(cfg: Config, s: State, p: Packet, d: Disposition, replied: bool)
    requires AssemblyMatches(s, p.corr) && Fits(cfg, s, p, d)
    ensures AssemblyMatches(Settle(cfg, s, p, d, replied), p.corr)
  {
    hide Coherent, BodyOf, Since, ModuleProtocol.Decode;
    SinceAfter(s.log, p, d, p.corr);
    if d.Absorbed? {
      JoinedBody(cfg, s, p);
      JoinedFragments(cfg, s, p);
    }
  }

  lemma OldStartsStand(cfg: Config, s: State, e: State, entry: Entry, i: nat)
    requires e.log == s.log + [entry] && s.starts <= e.starts && i < |s.log| && s.log[i].disposition.Started?
    requires StartedFrom(cfg, s.starts, s.log, i)
    ensures e.log[i].disposition.Started? && StartedFrom(cfg, e.starts, e.log, i)
  {
    hide Coherent, BodyOf, Since, AllMore, Packet.Has, Packet.BodyPart, ModuleProtocol.Decode;
    assert e.log[i] == s.log[i] && e.log[..i] == s.log[..i];
    var id := s.log[i].disposition.id;
    assert id < |s.starts| ==> e.starts[id] == s.starts[id];
  }

  lemma NewStart(cfg: Config, s: State, p: Packet, d: Disposition, replied: bool)
    requires AssemblyMatches(s, p.corr) && Fits(cfg, s, p, d) && d.Started?
    ensures var e := Settle(cfg, s, p, d, replied);
      |s.log| < |e.log| && e.log[|s.log|].disposition.Started? && StartedFrom(cfg, e.starts, e.log, |s.log|)
  {
    hide Coherent, BodyOf, Since, AllMore, ModuleProtocol.Decode, Packet.Has, Packet.BodyPart;
    var e := Settle(cfg, s, p, d, replied);
    assert e.log[..|s.log|] == s.log;
    JoinedBody(cfg, s, p);
    JoinedFragments(cfg, s, p);
  }

  lemma ReceiveKeepsProvenance(cfg: Config, s: State, p: Packet, d: Disposition, replied: bool)
    requires Assembled(s) && Provenance(cfg, s) && Fits(cfg, s, p, d)
    ensures Provenance(cfg, Settle(cfg, s, p, d, replied))
  {
    var e := Settle(cfg, s, p, d, replied);
    Settled(cfg, s, p, d, replied);
    assert AssemblyMatches(s, p.corr);
    hide Settle, StartedFrom, AssemblyMatches, Fits, Assembled;
    forall i | 0 <= i < |e.log| && e.log[i].disposition.Started? ensures StartedFrom(cfg, e.starts, e.log, i) {
      if i < |s.log| {
        assert s.log[i] == e.log[i];
        OldStartsStand(cfg, s, e, Entry(p, d), i);
      } else {
        NewStart(cfg, s, p, d, replied);
      }
    }
  }

  lemma ReceiveKeepsEachStartOnce(cfg: Config, s: State, p: Packet, d: Disposition, replied: bool)
    requires EachStartOnce(s) && Fits(cfg, s, p, d)
    ensures EachStartOnce(Settle(cfg, s, p, d, replied))
  {
    Settled(cfg, s, p, d, replied);
    hide Settle, Joins, Packet.Has;
    var e := Settle(cfg, s, p, d, replied);
    assert e.log[..|s.log|] == s.log;
  }

  /** Assemblies, starts and their histories are untouched by everything but a polled event. */
  lemma OtherStepsKeepProvenance(cfg: Config, s: State, step: Step)
    requires Assembled(s) && Provenance(cfg, s) && EachStartOnce(s) && !step.Receive?
    ensures Assembled(Apply(cfg, s, step)) && Provenance(cfg, Apply(cfg, s, step)) && EachStartOnce(Apply(cfg, s, step))
  {
    hide Coherent, BodyOf, Since, AllMore, StartedFrom, Apply;
    OtherTables(cfg, s, step);
    var e := Apply(cfg, s, step);
    forall c: u64 ensures AssemblyMatches(e, c) { assert AssemblyMatches(s, c); }
  }

  // ---------- Conservation ----------

  /** The answers the log's refusals call for, in order. */
  function RefusalsOf(log: seq<Entry>): seq<Answer> {
    if log == [] then [] else
      var d := log[|log| - 1].disposition;
      RefusalsOf(log[..|log| - 1]) + if d.Refused? then [d.answer] else []
  }

  /** The answers that refuse a frame. */
  function FrameAnswers(answers: seq<Answer>): seq<Answer> {
    if answers == [] then [] else
      var a := answers[|answers| - 1];
      FrameAnswers(answers[..|answers| - 1]) + if a.origin.ForFrame? then [a] else []
  }

  /** The jobs answered, in order. */
  function AnsweredJobs(answers: seq<Answer>): seq<nat> {
    if answers == [] then [] else
      var a := answers[|answers| - 1];
      AnsweredJobs(answers[..|answers| - 1]) + if a.origin.ForJob? then [a.origin.id] else []
  }

  lemma AnswersAfter(answers: seq<Answer>, a: Answer)
    ensures FrameAnswers(answers + [a]) == FrameAnswers(answers) + if a.origin.ForFrame? then [a] else []
    ensures AnsweredJobs(answers + [a]) == AnsweredJobs(answers) + if a.origin.ForJob? then [a.origin.id] else []
  {
    assert (answers + [a])[..|answers|] == answers;
  }

  lemma RefusalsAfter(log: seq<Entry>, p: Packet, d: Disposition)
    ensures RefusalsOf(log + [Entry(p, d)]) == RefusalsOf(log) + if d.Refused? then [d.answer] else []
  {
    assert (log + [Entry(p, d)])[..|log|] == log;
  }

  /** A job that has returned and left the table. */
  ghost predicate Retired(s: State, id: nat) {
    id < |s.starts| && id in s.finishes && id !in s.running && !Owns(s, id)
  }

  ghost predicate OutcomeMatches(s: State, id: nat, o: Outcome) {
    id < |s.starts| && id in s.finishes && o == HandlerOutcome(s.starts[id].work.deadlineNs, s.finishes[id])
  }

  /** Each queued result, and each about to be sent, is what its handler's return comes to. */
  ghost predicate ResultsMatch(s: State) {
    && (forall k :: 0 <= k < |s.done| ==> OutcomeMatches(s, s.done[k].id, s.done[k].outcome))
    && (forall id :: id in s.checked ==> id in s.running && OutcomeMatches(s, id, s.checked[id]))
  }

  /** What one answer must say. */
  ghost predicate AnswerMatches(s: State, a: Answer) {
    match a.origin
    case ForFrame => a.outcome.status != STATUS_OK && a.outcome.body == []
    case ForJob(id) =>
      && Retired(s, id)
      && var w := s.starts[id].work;
        a == Answer(ForJob(id), w.kind, w.corr, w.stageId, w.traceId, HandlerOutcome(w.deadlineNs, s.finishes[id]))
  }

  ghost predicate AnswersMatch(s: State) {
    forall k :: 0 <= k < |s.answers| ==> AnswerMatches(s, s.answers[k])
  }

  /** While serving: every refusal decided was answered once, in order, and every job started is
      either answered once or still in the table. */
  ghost predicate Conserved(s: State) {
    && Sequences.Distinct(AnsweredJobs(s.answers))
    && (forall i :: 0 <= i < |AnsweredJobs(s.answers)| ==> Retired(s, AnsweredJobs(s.answers)[i]))
    && (s.phase == Serving ==>
      && FrameAnswers(s.answers) == RefusalsOf(s.log)
      && |s.starts| == |AnsweredJobs(s.answers)| + |s.jobs|)
  }

  /** An outcome is OK exactly when the handler returned OK within the body limit and was seen
      neither cancelled nor expired at its final check; any other outcome has no body. */
  lemma OutcomeOkIff(deadlineNs: u64, f: Finish)
    ensures HandlerOutcome(deadlineNs, f).status == STATUS_OK <==>
      f.status == STATUS_OK && |f.response| <= MAX_BODY && !f.sawCancel && !Expired(deadlineNs, f.now)
    ensures HandlerOutcome(deadlineNs, f).status == STATUS_OK ==> HandlerOutcome(deadlineNs, f).body == f.response
    ensures HandlerOutcome(deadlineNs, f).status != STATUS_OK ==> HandlerOutcome(deadlineNs, f).body == []
    ensures Normal(HandlerOutcome(deadlineNs, f).status, HandlerOutcome(deadlineNs, f).body) == HandlerOutcome(deadlineNs, f)
  {}

  ghost predicate Accounts(s: State) {
    ResultsMatch(s) && AnswersMatch(s) && Conserved(s)
  }

  /** Retired jobs stay retired, with the start and the return they had. */
  ghost predicate KeepsRetired(s: State, e: State) {
    forall id: nat :: Retired(s, id) ==> Retired(e, id) && e.starts[id] == s.starts[id] && e.finishes[id] == s.finishes[id]
  }

  lemma AnswersCarryOver(s: State, e: State)
    requires AnswersMatch(s) && KeepsRetired(s, e)
    requires s.answers <= e.answers
    requires forall k :: |s.answers| <= k < |e.answers| ==> AnswerMatches(e, e.answers[k])
    ensures AnswersMatch(e)
  {
    hide HandlerOutcome, Retired;
    forall k | 0 <= k < |e.answers| ensures AnswerMatches(e, e.answers[k]) {
      if k < |s.answers| {
        assert e.answers[k] == s.answers[k] && AnswerMatches(s, s.answers[k]);
      }
    }
  }

  /** At most one job more, with an id never given out before, and nothing finished. */
  ghost predicate OneMore(s: State, e: State, c: u64) {
    && e.finishes == s.finishes && e.done == s.done && e.checked == s.checked && s.starts <= e.starts
    && (|e.starts| == |s.starts| ==> e.jobs == s.jobs && e.running == s.running)
    && (|e.starts| != |s.starts| ==>
        e.jobs == s.jobs[c := |s.starts|] && e.running == s.running + {|s.starts|} && c !in s.jobs)
  }

  lemma SettledIsOneMore(cfg: Config, s: State, p: Packet, d: Disposition, replied: bool)
    requires Fits(cfg, s, p, d)
    ensures OneMore(s, Settle(cfg, s, p, d, replied), p.corr)
  {
    Settled(cfg, s, p, d, replied);
    if d.Started? { NotYetAJob(cfg, s, p); }
    hide Settle, Joins, Packet.Has;
  }

  lemma NotYetAJob(cfg: Config, s: State, p: Packet)
    requires Joins(cfg, s, p)
    ensures p.corr !in s.jobs
  {
    hide ModuleProtocol.Decode, Packet.Has, Packet.BodyPart, Prior, Continues;
  }

  lemma OneMoreKeepsRetired(s: State, e: State, c: u64)
    requires OneMore(s, e, c)
    ensures KeepsRetired(s, e)
  {
    forall id: nat | Retired(s, id) ensures Retired(e, id) && e.starts[id] == s.starts[id] && e.finishes[id] == s.finishes[id] {
      assert e.starts[id] == s.starts[id];
    }
  }

  lemma OneMoreKeepsResults(s: State, e: State, c: u64)
    requires OneMore(s, e, c) && ResultsMatch(s)
    ensures ResultsMatch(e)
  {
    hide HandlerOutcome;
  }

  lemma ReceiveKeepsResults(cfg: Config, s: State, p: Packet, d: Disposition, replied: bool)
    requires ResultsMatch(s) && AnswersMatch(s) && Fits(cfg, s, p, d)
    ensures ResultsMatch(Settle(cfg, s, p, d, replied)) && AnswersMatch(Settle(cfg, s, p, d, replied))
    ensures KeepsRetired(s, Settle(cfg, s, p, d, replied))
  {
    var e := Settle(cfg, s, p, d, replied);
    Settled(cfg, s, p, d, replied);
    SettledIsOneMore(cfg, s, p, d, replied);
    hide Settle, Joins, Packet.Has, Retired, KeepsRetired, OneMore, ResultsMatch;
    OneMoreKeepsRetired(s, e, p.corr);
    OneMoreKeepsResults(s, e, p.corr);
    forall k | |s.answers| <= k < |e.answers| ensures AnswerMatches(e, e.answers[k]) {
      assert e.answers[k] == d.answer;
    }
    AnswersCarryOver(s, e);
  }

  lemma LogKeepsConserved(s: State, e: State, p: Packet, d: Disposition, replied: bool)
    requires Conserved(s) && s.phase == Serving && KeepsRetired(s, e) && (d.Refused? ==> d.answer.origin == ForFrame)
    requires e.log == s.log + [Entry(p, d)] && e.answers == s.answers + (if d.Refused? && replied then [d.answer] else [])
    requires e.phase == (if d.Refused? && !replied then Stopped else s.phase)
    requires |e.jobs| - |s.jobs| == |e.starts| - |s.starts|
    ensures Conserved(e)
  {
    hide Retired, RefusalsOf, FrameAnswers, AnsweredJobs;
    RefusalsAfter(s.log, p, d);
    if d.Refused? { AnswersAfter(s.answers, d.answer); }
    assert s.answers + [] == s.answers;
  }

  lemma ReceiveKeepsConserved(cfg: Config, s: State, p: Packet, d: Disposition, replied: bool)
    requires Conserved(s) && Fits(cfg, s, p, d) && s.phase == Serving
    requires KeepsRetired(s, Settle(cfg, s, p, d, replied))
    ensures Conserved(Settle(cfg, s, p, d, replied))
  {
    var e := Settle(cfg, s, p, d, replied);
    Settled(cfg, s, p, d, replied);
    SettledIsOneMore(cfg, s, p, d, replied);
    hide Settle, Joins, Packet.Has, Conserved, KeepsRetired;
    if |e.starts| != |s.starts| { WithKey(s.jobs, p.corr, |s.starts|); }
    LogKeepsConserved(s, e, p, d, replied);
  }

  /** A handler that runs, checking or sending, touches no job, answer or log. */
  ghost predicate SameBooks(s: State, e: State) {
    e.starts == s.starts && e.jobs == s.jobs && e.answers == s.answers && e.log == s.log && e.phase == s.phase
  }

  lemma SameBooksKeep(s: State, e: State)
    requires SameBooks(s, e) && KeepsRetired(s, e) && AnswersMatch(s) && Conserved(s)
    ensures AnswersMatch(e) && Conserved(e)
  {
    hide Retired, KeepsRetired, RefusalsOf, FrameAnswers, AnsweredJobs;
    AnswersCarryOver(s, e);
    assert forall id: nat :: Retired(s, id) ==> Retired(e, id) by { RetiredStay(s, e); }
  }

  lemma RetiredStay(s: State, e: State)
    requires KeepsRetired(s, e)
    ensures forall id: nat :: Retired(s, id) ==> Retired(e, id)
  {
    hide Retired;
  }

  lemma CheckKeepsResults(s: State, e: State, id: nat, f: Finish)
    requires JobTable(s) && ResultsMatch(s) && id in s.running && id !in s.checked && id < |s.starts|
    requires e == s.(finishes := s.finishes[id := f], checked := s.checked[id := HandlerOutcome(s.starts[id].work.deadlineNs, f)])
    ensures ResultsMatch(e) && KeepsRetired(s, e) && SameBooks(s, e)
  {
    assert forall other :: Owns(e, other) <==> Owns(s, other);
    hide HandlerOutcome, Owns, DoneIds, DistinctIds;
  }

  lemma SendKeepsResults(s: State, e: State, id: nat)
    requires JobTable(s) && ResultsMatch(s) && id in s.running && id in s.checked
    requires e == s.(running := s.running - {id}, checked := s.checked - {id}, done := s.done + [Result(id, s.checked[id])])
    ensures ResultsMatch(e) && KeepsRetired(s, e) && SameBooks(s, e)
  {
    assert Owns(s, id);
    hide HandlerOutcome, Owns, DoneIds, DistinctIds;
    forall k | 0 <= k < |e.done| ensures OutcomeMatches(e, e.done[k].id, e.done[k].outcome) {
      if k < |s.done| { assert e.done[k] == s.done[k]; }
    }
  }

  lemma ReturnKeepsAccounts(cfg: Config, s: State, step: Step)
    requires JobTable(s) && Accounts(s) && (step.HandlerChecks? || step.HandlerSends?)
    ensures Accounts(Apply(cfg, s, step))
  {
    hide HandlerOutcome, JobTable, ResultsMatch, AnswersMatch, Conserved, KeepsRetired, SameBooks;
    var e := Apply(cfg, s, step);
    if e != s {
      if step.HandlerChecks? {
        CheckKeepsResults(s, e, step.id, Finish(step.response, step.status, step.id in s.cancelled, step.now));
      } else {
        SendKeepsResults(s, e, step.id);
      }
      SameBooksKeep(s, e);
    }
  }

  /** Taking a result out retires its job and no other. */
  lemma TakenResultRetires(s: State, e: State)
    requires JobTable(s) && ResultsMatch(s) && s.done != []
    requires e.starts == s.starts && e.running == s.running && e.done == s.done[1..]
    requires e.checked == s.checked && e.finishes == s.finishes
    requires s.done[0].id < |s.starts| && e.jobs == s.jobs - {s.starts[s.done[0].id].work.corr}
    ensures Retired(e, s.done[0].id) && !Retired(s, s.done[0].id)
    ensures KeepsRetired(s, e)
    ensures ResultsMatch(e) && |e.jobs| == |s.jobs| - 1
  {
    assert s.done[0].id in s.finishes by { assert OutcomeMatches(s, s.done[0].id, s.done[0].outcome); }
    hide JobTable, Retired, KeepsRetired, ResultsMatch;
    LeavingRetires(s, e);
    LaterResultsMatch(s, e);
  }

  lemma LeavingRetires(s: State, e: State)
    requires JobTable(s) && s.done != [] && s.done[0].id in s.finishes
    requires e.starts == s.starts && e.running == s.running && e.finishes == s.finishes
    requires s.done[0].id < |s.starts| && e.jobs == s.jobs - {s.starts[s.done[0].id].work.corr}
    ensures Retired(e, s.done[0].id) && !Retired(s, s.done[0].id)
    ensures KeepsRetired(s, e) && |e.jobs| == |s.jobs| - 1
  {
    assert Owns(s, s.done[0].id);
    WithoutKey(s.jobs, s.starts[s.done[0].id].work.corr);
  }

  lemma LaterResultsMatch(s: State, e: State)
    requires ResultsMatch(s) && s.done != []
    requires e.starts == s.starts && e.running == s.running && e.done == s.done[1..]
    requires e.checked == s.checked && e.finishes == s.finishes
    ensures ResultsMatch(e)
  {
    hide HandlerOutcome;
    forall k | 0 <= k < |e.done| ensures OutcomeMatches(e, e.done[k].id, e.done[k].outcome) {
      assert e.done[k] == s.done[k + 1];
    }
  }

  /** Answering the job just retired keeps the books. */
  lemma AnswerKeepsConserved(s: State, e: State, a: Answer)
    requires Conserved(s) && KeepsRetired(s, e) && a.origin.ForJob?
    requires Retired(e, a.origin.id) && !Retired(s, a.origin.id)
    requires e.answers == s.answers + [a] && e.log == s.log && e.starts == s.starts
    requires |e.jobs| == |s.jobs| - 1 && e.phase == s.phase
    ensures Conserved(e)
  {
    hide RefusalsOf, FrameAnswers, AnsweredJobs, Retired;
    AnswersAfter(s.answers, a);
  }

  lemma NoAnswerKeepsConserved(s: State, e: State)
    requires Conserved(s) && KeepsRetired(s, e) && e.answers == s.answers && e.log == s.log && e.phase != Serving
    ensures Conserved(e)
  {
    hide RefusalsOf, FrameAnswers, AnsweredJobs, Retired;
  }

  lemma JobAnswerMatches(s: State, e: State)
    requires ResultsMatch(s) && s.done != [] && s.done[0].id < |s.starts|
    requires e.starts == s.starts && e.finishes == s.finishes && Retired(e, s.done[0].id)
    ensures AnswerMatches(e, JobAnswer(s, s.done[0]))
  {
    hide HandlerOutcome, Normal, Retired;
    var r := s.done[0];
    OutcomeOkIff(s.starts[r.id].work.deadlineNs, s.finishes[r.id]);
  }

  /** What taking a result out changes. */
  lemma Collected(cfg: Config, s: State, step: Step)
    requires (step.Collect? || step.DrainOne?) && Apply(cfg, s, step) != s
    ensures var e := Apply(cfg, s, step);
      && s.done != [] && s.done[0].id < |s.starts|
      && e.starts == s.starts && e.running == s.running && e.done == s.done[1..]
      && e.checked == s.checked && e.finishes == s.finishes && e.log == s.log
      && e.jobs == s.jobs - {s.starts[s.done[0].id].work.corr}
      && (step.Collect? && step.replied ==> e.answers == s.answers + [JobAnswer(s, s.done[0])] && e.phase == s.phase)
      && (step.DrainOne? || !step.replied ==> e.answers == s.answers && e.phase != Serving)
  {
    hide JobAnswer;
  }

  lemma CollectKeepsAccounts(cfg: Config, s: State, step: Step)
    requires JobTable(s) && Accounts(s) && (step.Collect? || step.DrainOne?)
    ensures Accounts(Apply(cfg, s, step))
  {
    hide JobTable, Conserved, KeepsRetired, JobAnswer, ResultsMatch, Retired, AnswersMatch;
    var e := Apply(cfg, s, step);
    if e != s {
      Collected(cfg, s, step);
      hide Apply;
      TakenResultRetires(s, e);
      if step.Collect? && step.replied {
        JobAnswerMatches(s, e);
        JobAnswerOrigin(s, s.done[0]);
        AnswerKeepsConserved(s, e, JobAnswer(s, s.done[0]));
      } else {
        NoAnswerKeepsConserved(s, e);
      }
      AnswersCarryOver(s, e);
    }
  }

  lemma JobAnswerOrigin(s: State, r: Result)
    requires r.id < |s.starts|
    ensures JobAnswer(s, r).origin == ForJob(r.id)
  {}

  lemma QuitKeepsAccounts(cfg: Config, s: State, step: Step)
    requires Accounts(s) && (step.Shutdown? || step.Quit?)
    ensures Accounts(Apply(cfg, s, step))
  {
    hide HandlerOutcome, AnswersMatch, Conserved;
    var e := Apply(cfg, s, step);
    if e != s {
      assert KeepsRetired(s, e);
      AnswersCarryOver(s, e);
      NoAnswerKeepsConserved(s, e);
    }
  }

  // ---------- All runs ----------

  /** Every request frame polled was absorbed, refused, or started a job. */
  ghost predicate EveryRequestSettled(s: State) {
    forall i :: 0 <= i < |s.log| && s.log[i].packet.Has(F_REQUEST) && !s.log[i].packet.Has(F_CANCEL) ==>
      s.log[i].disposition.Absorbed? || s.log[i].disposition.Refused? || s.log[i].disposition.Started?
  }

  ghost predicate Inv(cfg: Config, s: State) {
    && JobTable(s) && TableBounds(s) && Assembled(s) && Provenance(cfg, s) && EachStartOnce(s) && Accounts(s)
    && EveryRequestSettled(s)
  }

  lemma LogAfter(cfg: Config, s: State, p: Packet, d: Disposition, replied: bool)
    requires d.Absorbed? || d.Started? ==> ModuleProtocol.Decode(p.payload).Message?
    ensures Settle(cfg, s, p, d, replied).log == s.log + [Entry(p, d)]
  {
    hide Prior, ModuleProtocol.Decode;
  }

  lemma StepKeepsSettled(cfg: Config, s: State, step: Step)
    requires EveryRequestSettled(s)
    ensures EveryRequestSettled(Apply(cfg, s, step))
  {
    hide Decide, Settle, Packet.Has;
    if step.Receive? {
      if s.phase == Serving {
        var d := Decide(cfg, s, step.packet, step.now);
        DecideFits(cfg, s, step.packet, step.now);
        LogAfter(cfg, s, step.packet, d, step.replied);
      }
    } else {
      OtherTables(cfg, s, step);
      hide Apply;
    }
  }

  lemma StepKeepsAccounts(cfg: Config, s: State, step: Step)
    requires JobTable(s) && Accounts(s)
    ensures Accounts(Apply(cfg, s, step))
  {
    hide JobTable, ResultsMatch, AnswersMatch, Conserved, Decide, Settle;
    match step
    case Receive(p, now, replied) =>
      if s.phase == Serving {
        var d := Decide(cfg, s, p, now);
        DecideFits(cfg, s, p, now);
        ReceiveKeepsResults(cfg, s, p, d, replied);
        ReceiveKeepsConserved(cfg, s, p, d, replied);
      }
    case HandlerChecks(_, _, _, _) => ReturnKeepsAccounts(cfg, s, step);
    case HandlerSends(_) => ReturnKeepsAccounts(cfg, s, step);
    case Collect(_) => CollectKeepsAccounts(cfg, s, step);
    case DrainOne => CollectKeepsAccounts(cfg, s, step);
    case Shutdown => QuitKeepsAccounts(cfg, s, step);
    case Quit => QuitKeepsAccounts(cfg, s, step);
  }

  lemma StepKeepsInv(cfg: Config, s: State, step: Step)
    requires Inv(cfg, s)
    ensures Inv(cfg, Apply(cfg, s, step))
  {
    hide JobTable, TableBounds, Assembled, Provenance, EachStartOnce, Accounts, EveryRequestSettled, Decide, Settle;
    StepKeepsSettled(cfg, s, step);
    StepKeepsTable(cfg, s, step);
    StepKeepsBounds(cfg, s, step);
    StepKeepsAccounts(cfg, s, step);
    if !step.Receive? {
      OtherStepsKeepProvenance(cfg, s, step);
    } else if s.phase == Serving {
      var d := Decide(cfg, s, step.packet, step.now);
      DecideFits(cfg, s, step.packet, step.now);
      ReceiveKeepsAssembled(cfg, s, step.packet, d, step.replied);
      ReceiveKeepsProvenance(cfg, s, step.packet, d, step.replied);
      ReceiveKeepsEachStartOnce(cfg, s, step.packet, d, step.replied);
    }
  }

  /** Every run from a fresh process keeps all of it. */
  lemma {:induction false} RunKeepsInv(cfg: Config, s: State, steps: seq<Step>)
    requires Inv(cfg, s)
    ensures Inv(cfg, Run(cfg, s, steps))
    decreases |steps|
  {
    if steps != [] {
      StepKeepsInv(cfg, s, steps[0]);
      RunKeepsInv(cfg, Apply(cfg, s, steps[0]), steps[1..]);
    }
  }

  lemma FreshInv(cfg: Config)
    ensures Inv(cfg, Fresh)
  {}

  /** In every state of every run: a handler body is exactly the fragments of its correlation since
      that correlation's last reset, in order and coherent, each start happens once, and the two
      tables stay disjoint and bounded. */
  lemma RunProvenance(cfg: Config, steps: seq<Step>)
    ensures var e := Run(cfg, Fresh, steps);
      && Provenance(cfg, e) && EachStartOnce(e) && Assembled(e)
      && e.jobs.Keys !! e.assemblies.Keys && |e.assemblies| <= 16 && |e.jobs| <= 16
  {
    FreshInv(cfg);
    RunKeepsInv(cfg, Fresh, steps);
  }

  /** In every run still serving: every request frame polled was absorbed, refused with one non-OK
      bodyless answer (the answers to frames are the log's refusals, in order), or started a job;
      and jobs started are the jobs answered, each once, plus those in the table. Every job answer
      says what the handler's return came to. */
  lemma RunConserves(cfg: Config, steps: seq<Step>)
    requires Run(cfg, Fresh, steps).phase == Serving
    ensures var e := Run(cfg, Fresh, steps);
      && EveryRequestSettled(e)
      && FrameAnswers(e.answers) == RefusalsOf(e.log)
      && |e.starts| == |AnsweredJobs(e.answers)| + |e.jobs|
      && Sequences.Distinct(AnsweredJobs(e.answers))
      && Conserved(e) && AnswersMatch(e)
  {
    FreshInv(cfg);
    RunKeepsInv(cfg, Fresh, steps);
  }

  /** In every state of every run the running handlers and queued results are exactly the jobs,
      at most the channel's 16, and a handler about to return finds room for its result. */
  lemma RunNeverBlocks(cfg: Config, steps: seq<Step>)
    ensures var e := Run(cfg, Fresh, steps);
      && |e.running| + |e.done| == |e.jobs| <= 16
      && (e.running != {} ==> |e.done| < 16)
  {
    FreshInv(cfg);
    RunKeepsInv(cfg, Fresh, steps);
    var e := Run(cfg, Fresh, steps);
    JobsAreRunningPlusQueued(e);
    if e.running != {} {
      var id :| id in e.running;
      SendNeverBlocks(e, id);
    }
  }

  /** How many results the drain loop receives over a run. */
  function DrainReceives(cfg: Config, s: State, steps: seq<Step>): nat
    decreases |steps|
  {
    if steps == [] then 0
    else (if steps[0].DrainOne? && Apply(cfg, s, steps[0]) != s then 1 else 0) + DrainReceives(cfg, Apply(cfg, s, steps[0]), steps[1..])
  }

  lemma DrainStep(cfg: Config, s: State, step: Step)
    requires JobTable(s) && TableBounds(s) && (s.phase == Draining || (s.phase == Stopped && s.jobs == map[]))
    ensures var e := Apply(cfg, s, step);
      && (e.phase == Draining || (e.phase == Stopped && e.jobs == map[]))
      && |e.jobs| + (if step.DrainOne? && e != s then 1 else 0) == |s.jobs|
  {
    hide JobTable, Settle, Decide, HandlerOutcome, JobAnswer, TableBounds;
    if step.DrainOne? && s.phase == Draining && s.done != [] {
      DrainTakesOne(cfg, s);
    } else {
      var e := Apply(cfg, s, step);
      assert e.phase == s.phase && e.jobs == s.jobs && (step.DrainOne? ==> e == s);
      hide Apply;
    }
  }

  /** One receive of the drain loop takes the job of the result it receives out of the table. */
  lemma DrainTakesOne(cfg: Config, s: State)
    requires JobTable(s) && s.phase == Draining && s.done != []
    ensures var e := Apply(cfg, s, DrainOne);
      && e != s && |e.jobs| + 1 == |s.jobs|
      && (e.phase == Draining || (e.phase == Stopped && e.jobs == map[]))
  {
    assert Owns(s, s.done[0].id);
    hide JobTable;
    WithoutKey(s.jobs, s.starts[s.done[0].id].work.corr);
    assert |Apply(cfg, s, DrainOne).done| < |s.done|;
  }

  /** After shutdown begins the drain loop ends exactly when it has received one result per job,
      and until then a result is queued or a handler is still running. */
  lemma {:induction false} DrainEndsAfterJobs(cfg: Config, s: State, steps: seq<Step>)
    requires JobTable(s) && TableBounds(s) && (s.phase == Draining || (s.phase == Stopped && s.jobs == map[]))
    ensures var e := Run(cfg, s, steps);
      && DrainReceives(cfg, s, steps) + |e.jobs| == |s.jobs|
      && (e.phase == Stopped <==> DrainReceives(cfg, s, steps) == |s.jobs|)
      && (e.phase == Draining ==> e.done != [] || e.running != {})
    decreases |steps|
  {
    if steps == [] {
      JobsAreRunningPlusQueued(s);
    } else {
      DrainStep(cfg, s, steps[0]);
      StepKeepsTable(cfg, s, steps[0]);
      StepKeepsBounds(cfg, s, steps[0]);
      DrainEndsAfterJobs(cfg, Apply(cfg, s, steps[0]), steps[1..]);
    }
  }
}
