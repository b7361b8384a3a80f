/** What one client emits is what the other polls: over one ring, call by call, and over every
    interleaving of the atomic steps both sides take. */
module ClientOrder {
  import opened Bytes
  import opened Wire
  import opened Ring
  import Bits
  import C = Client
  import P = RingProtocol

  // ---------- Call by call ----------

  datatype Op =
    | Emit(flags: u16, kind: u32, corr: u64, payload: seq<byte>, epoch: u64)
    | Poll(epoch: u64)

  /** The event a slot delivers, if it decodes. */
  function EventIn(slot: seq<byte>): seq<C.Delivery> {
    var d := C.Deliver(slot, |slot|);
    if d.Dropped? then [] else [d]
  }

  /** The events a run of slots delivers, undecodable slots skipped. */
  function Events(slots: seq<seq<byte>>): seq<C.Delivery> {
    if slots == [] then [] else EventIn(slots[0]) + Events(slots[1..])
  }

  lemma {:induction false} EventsConcat(a: seq<seq<byte>>, b: seq<seq<byte>>)
    ensures Events(a + b) == Events(a) + Events(b)
  {
    hide EventIn;
    if a == [] {
      assert a + b == b;
    } else {
      EventsConcat(a[1..], b);
      FirstOfTwo(a, b);
      var first, later, last := EventIn(a[0]), Events(a[1..]), Events(b);
      assert first + (later + last) == first + later + last;
    }
  }

  lemma FirstOfTwo(a: seq<seq<byte>>, b: seq<seq<byte>>)
    requires a != []
    ensures Events(a + b) == EventIn(a[0]) + Events(a[1..] + b)
  {
    hide EventIn;
    assert (a + b)[0] == a[0] && (a + b)[1..] == a[1..] + b;
  }

  /** The event a successful emit of op by the client with this handle stands for. */
  function EventOf(op: Op, handle: u32): C.Delivery
    requires op.Emit? && |op.payload| < 0x1_0000_0000
  {
    C.Event(C.Built(op.flags, op.kind, op.corr, handle, |op.payload|), op.payload)
  }

  /** The frames and payloads of the emits that succeeded, in order. */
  function Emitted(ops: seq<Op>, errs: seq<C.BusError>, handle: u32): seq<C.Delivery>
    requires |ops| == |errs|
  {
    if ops == [] then [] else
      var n := |ops| - 1;
      Emitted(ops[..n], errs[..n], handle) +
      if ops[n].Emit? && errs[n] == C.NoError && |ops[n].payload| < 0x1_0000_0000 then [EventOf(ops[n], handle)] else []
  }

  predicate Decodable(slots: seq<seq<byte>>) {
    forall k :: 0 <= k < |slots| ==> !C.Deliver(slots[k], |slots[k]|).Dropped?
  }

  /** What has been got and what is still unread are what was unread at first and then everything
      emitted. */
  ghost predicate Balanced(before: seq<seq<byte>>, sent: seq<C.Delivery>, got: seq<C.Delivery>, unread: seq<seq<byte>>) {
    && got + Events(unread) == Events(before) + sent
    && (Decodable(before) ==> Decodable(unread))
  }

  lemma BalancedEmit(before: seq<seq<byte>>, sent: seq<C.Delivery>, got: seq<C.Delivery>, unread: seq<seq<byte>>,
    slot: seq<byte>, d: C.Delivery)
    requires Balanced(before, sent, got, unread) && C.Deliver(slot, |slot|) == d && d.Event?
    ensures Balanced(before, sent + [d], got, unread + [slot])
  {
    hide C.Deliver;
    EventsConcat(unread, [slot]);
    assert Events([slot]) == [d] + Events([]);
    assert got + (Events(unread) + [d]) == got + Events(unread) + [d];
    assert Events(before) + (sent + [d]) == Events(before) + sent + [d];
  }

  lemma BalancedPoll(before: seq<seq<byte>>, sent: seq<C.Delivery>, got: seq<C.Delivery>, unread: seq<seq<byte>>)
    requires Balanced(before, sent, got, unread) && unread != []
    ensures var d := C.Deliver(unread[0], |unread[0]|);
      Balanced(before, sent, if d.Dropped? then got else got + [d], unread[1..])
  {
    hide C.Deliver;
    var d, rest := C.Deliver(unread[0], |unread[0]|), Events(unread[1..]);
    assert Events(unread) == EventIn(unread[0]) + rest;
    hide Events, Decodable;
    StillDecodable(unread);
    if d.Dropped? {
      assert [] + rest == rest;
    } else {
      assert got + ([d] + rest) == got + [d] + rest;
    }
  }

  lemma StillDecodable(slots: seq<seq<byte>>)
    requires slots != []
    ensures Decodable(slots) ==> Decodable(slots[1..])
  {
    hide C.Deliver;
    assert forall k :: 0 <= k < |slots| - 1 ==> slots[1..][k] == slots[k + 1];
  }

  /** One emit: the other end's unread slots gain one that delivers the event, or stay. */
  method EmitOver(a: C.Client, b: C.Client, op: Op) returns (err: C.BusError, ghost slot: seq<byte>)
    requires a.Valid() && b.Valid() && a.outbound == b.inbound && a != b && op.Emit?
    modifies a.outbound`head, a.outbound.mem
    ensures a.Valid() && b.Valid()
    ensures err != C.NoError ==> b.Unread() == old(b.Unread())
    ensures err == C.NoError ==> |op.payload| < 0x1_0000_0000 && b.Unread() == old(b.Unread()) + [slot]
    ensures err == C.NoError ==> C.Deliver(slot, |slot|) == EventOf(op, a.handle)
  {
    hide C.Deliver, C.Built, C.EmitOutcome, SlotsFrom;
    ghost var before := b.inbound.Contents();
    err := a.Emit(op.flags, op.kind, op.corr, op.payload, op.epoch);
    ghost var after := b.inbound.Contents();
    slot := if err == C.NoError then after[|before|] else [];
    if err == C.NoError {
      assert after == before + [slot];
      assert before != [] ==> after[1..] == before[1..] + [slot];
    }
  }

  /** One step of either end. */
  method StepOver(a: C.Client, b: C.Client, op: Op, before: seq<C.Delivery>, ghost start: seq<seq<byte>>, ghost sent: seq<C.Delivery>)
    returns (err: C.BusError, got: seq<C.Delivery>)
    requires a.Valid() && b.Valid() && a.outbound == b.inbound && a != b
    requires Balanced(start, sent, before, b.Unread())
    modifies a.outbound`head, a.outbound`tail, a.outbound.mem, b`pendingRead
    ensures a.Valid() && b.Valid()
    ensures op.Emit? && err == C.NoError ==> |op.payload| < 0x1_0000_0000 && Balanced(start, sent + [EventOf(op, a.handle)], got, b.Unread())
    ensures op.Poll? || err != C.NoError ==> Balanced(start, sent, got, b.Unread())
  {
    hide C.Deliver, C.Built, SlotsFrom, Balanced;
    got := before;
    ghost var unread := b.Unread();
    if op.Emit? {
      ghost var slot;
      err, slot := EmitOver(a, b, op);
      if err == C.NoError {
        BalancedEmit(start, sent, before, unread, slot, EventOf(op, a.handle));
      }
    } else {
      var d, ok;
      d, ok, err := b.Poll(op.epoch);
      if err == C.NoError && unread != [] {
        BalancedPoll(start, sent, before, unread);
      }
      if ok {
        got := got + [d];
      }
    }
  }

  /** Any sequence of emits at one end and polls at the other. The events got, then the events
      still unread, are those unread at first and then exactly the frames and payloads of the
      emits that succeeded, in order; from an empty ring the events got are a prefix of them, and
      the unread slots deliver the rest one for one. */
  method Exchange(a: C.Client, b: C.Client, ops: seq<Op>) returns (errs: seq<C.BusError>, got: seq<C.Delivery>)
    requires a.Valid() && b.Valid() && a.outbound == b.inbound && a != b
    modifies a.outbound`head, a.outbound`tail, a.outbound.mem, b`pendingRead
    ensures a.Valid() && b.Valid() && |errs| == |ops|
    ensures got + Events(b.Unread()) == Events(old(b.Unread())) + Emitted(ops, errs, a.handle)
    ensures old(b.Unread()) == [] ==> got <= Emitted(ops, errs, a.handle)
    ensures old(b.Unread()) == [] ==> DeliverOneForOne(b.Unread(), Emitted(ops, errs, a.handle)[|got|..])
  {
    errs, got := [], [];
    ghost var before := b.Unread();
    ghost var sent: seq<C.Delivery> := [];
    BalancedStart(before);
    hide C.Client.Valid, C.Client.Unread, Balanced, EventOf, Tallied;
    NothingTallied(ops, a.handle);
    var i := 0;
    while i < |ops|
      invariant 0 <= i <= |ops| && |errs| == i && Tallied(ops, errs, a.handle, sent)
      invariant a.Valid() && b.Valid()
      invariant Balanced(before, sent, got, b.Unread())
    {
      var err;
      err, got := StepOver(a, b, ops[i], got, before, sent);
      TallyOne(ops, errs, a.handle, sent, err);
      sent := if ops[i].Emit? && err == C.NoError then sent + [EventOf(ops[i], a.handle)] else sent;
      errs, i := errs + [err], i + 1;
    }
    AllTallied(ops, errs, a.handle, sent);
    BalancedEnd(before, sent, got, b.Unread());
  }

  /** The emits so far that succeeded stand for these events. */
  ghost predicate Tallied(ops: seq<Op>, errs: seq<C.BusError>, handle: u32, sent: seq<C.Delivery>) {
    |errs| <= |ops| && sent == Emitted(ops[..|errs|], errs, handle)
  }

  lemma NothingTallied(ops: seq<Op>, handle: u32)
    ensures Tallied(ops, [], handle, [])
  {}

  lemma TallyOne(ops: seq<Op>, errs: seq<C.BusError>, handle: u32, sent: seq<C.Delivery>, err: C.BusError)
    requires Tallied(ops, errs, handle, sent) && |errs| < |ops|
    requires ops[|errs|].Emit? && err == C.NoError ==> |ops[|errs|].payload| < 0x1_0000_0000
    ensures var op := ops[|errs|];
      Tallied(ops, errs + [err], handle, if op.Emit? && err == C.NoError then sent + [EventOf(op, handle)] else sent)
  {
    var n := |errs|;
    var more := errs + [err];
    assert ops[..n + 1][..n] == ops[..n] && more[..n] == errs;
    hide EventOf;
  }

  lemma AllTallied(ops: seq<Op>, errs: seq<C.BusError>, handle: u32, sent: seq<C.Delivery>)
    requires Tallied(ops, errs, handle, sent) && |errs| == |ops|
    ensures sent == Emitted(ops, errs, handle)
  {
    assert ops[..|errs|] == ops;
  }

  lemma BalancedStart(before: seq<seq<byte>>)
    ensures Balanced(before, [], [], before)
  {}

  ghost predicate DeliverOneForOne(slots: seq<seq<byte>>, events: seq<C.Delivery>) {
    |slots| == |events| && forall k :: 0 <= k < |slots| ==> C.Deliver(slots[k], |slots[k]|) == events[k]
  }

  lemma BalancedEnd(before: seq<seq<byte>>, sent: seq<C.Delivery>, got: seq<C.Delivery>, unread: seq<seq<byte>>)
    requires Balanced(before, sent, got, unread)
    ensures got + Events(unread) == Events(before) + sent
    ensures before == [] ==> got <= sent && DeliverOneForOne(unread, sent[|got|..])
  {
    hide C.Deliver;
    if before == [] {
      assert got + Events(unread) == sent;
      EventsOfDecodable(unread);
      assert sent[|got|..] == Events(unread);
    }
  }

  lemma {:induction false} EventsOfDecodable(slots: seq<seq<byte>>)
    requires Decodable(slots)
    ensures DeliverOneForOne(slots, Events(slots))
  {
    if slots != [] {
      hide C.Deliver;
      StillDecodable(slots);
      EventsOfDecodable(slots[1..]);
      var d, later, all := C.Deliver(slots[0], |slots[0]|), Events(slots[1..]), Events(slots);
      assert all == [d] + later;
      hide Events, Decodable;
      forall k | 0 <= k < |slots| ensures C.Deliver(slots[k], |slots[k]|) == all[k] {
        if k > 0 { assert slots[k] == slots[1..][k - 1]; }
      }
    }
  }

  // ---------- Step by step ----------

  /** A step of either side. Fill is the producer's write of a frame and its payload into the begun
      slot; rest is what the slot holds behind them. */
  datatype ClientStep = Fill(frame: Wire.Frame, payload: seq<byte>, rest: seq<byte>) | Ring(step: P.Step<seq<byte>>)

  function Lower(c: ClientStep): P.Step<seq<byte>> {
    if c.Fill? then P.Write(Wire.Header(c.frame) + c.payload + c.rest) else c.step
  }

  /** What emit writes: a valid frame, its payload inline behind the header, in a whole slot. */
  ghost predicate IsFill(c: ClientStep, slotSize: u32) {
    c.Fill? ==>
      && HDR_LEN + |c.payload| + |c.rest| == slotSize && c.frame.Validate() == Wire.Ok
      && c.frame.payloadLen == |c.payload|
      && (c.payload != [] ==> c.frame.Has(F_INLINE) && c.frame.payloadRef == HDR_LEN)
  }

  /** The producer's events begun but not yet committed: at most one, the last one filled in. */
  function Begun(s: P.State<seq<byte>>, c: ClientStep, begun: seq<C.Delivery>): seq<C.Delivery> {
    if c.Fill? && s.producer.Writing? then [C.Event(c.frame, c.payload)]
    else if c.Ring? && c.step.CommitStore? && s.producer.CommitLoaded? then []
    else if c.Ring? && c.step.ProducerLoadTail? && s.producer.HeadLoaded? then []
    else if c.Ring? && c.step.Abandon? && s.producer.Writing? then []
    else begun
  }

  /** The events a run commits, in order. */
  function Committed(s: P.State<seq<byte>>, steps: seq<ClientStep>, begun: seq<C.Delivery>): seq<C.Delivery>
    requires s.capacity > 0 && |s.slots| == s.capacity
    decreases |steps|
  {
    if steps == [] then [] else
      (if steps[0].Ring? && steps[0].step.CommitStore? && s.producer.CommitLoaded? then begun else []) +
      Committed(P.Apply(s, Lower(steps[0])), steps[1..], Begun(s, steps[0], begun))
  }

  /** The producer follows emit: it writes only whole frames, and commits only what it has filled. */
  ghost predicate FollowsEmit(s: P.State<seq<byte>>, steps: seq<ClientStep>, begun: seq<C.Delivery>, slotSize: u32)
    requires s.capacity > 0 && |s.slots| == s.capacity
    decreases |steps|
  {
    steps == [] ||
    (&& IsFill(steps[0], slotSize)
     && (steps[0].Ring? ==> !steps[0].step.Write? && (steps[0].step.CommitLoad? && s.producer.Writing? ==> begun != []))
     && FollowsEmit(P.Apply(s, Lower(steps[0])), steps[1..], Begun(s, steps[0], begun), slotSize))
  }

  function RunClients(s: P.State<seq<byte>>, steps: seq<ClientStep>): (e: P.State<seq<byte>>)
    requires s.capacity > 0 && |s.slots| == s.capacity
    ensures e.capacity == s.capacity && |e.slots| == e.capacity
    decreases |steps|
  {
    if steps == [] then s else RunClients(P.Apply(s, Lower(steps[0])), steps[1..])
  }

  /** The slot begun delivers the event begun. */
  ghost predicate HoldsBegun(s: P.State<seq<byte>>, begun: seq<C.Delivery>)
    requires s.capacity > 0 && |s.slots| == s.capacity
  {
    && |begun| <= 1
    && (s.producer.CommitLoaded? ==> begun != [])
    && ((s.producer.Writing? || s.producer.CommitLoaded?) && begun != [] ==>
        var slot := s.slots[s.producer.head % s.capacity];
        begun[0].Event? && C.Deliver(slot, |slot|) == begun[0])
  }

  lemma FillDelivers(c: ClientStep, slotSize: u32)
    requires c.Fill? && IsFill(c, slotSize)
    ensures var slot := Wire.Header(c.frame) + c.payload + c.rest;
      C.Deliver(slot, |slot|) == C.Event(c.frame, c.payload)
  {
    hide Wire.Header, C.Deliver;
    var slot := Wire.Header(c.frame) + c.payload + c.rest;
    assert slot[..HDR_LEN] == Wire.Header(c.frame);
    assert slot[HDR_LEN..HDR_LEN + |c.payload|] == c.payload;
    C.BuiltSlotDelivers(slot, slotSize, c.frame, c.payload);
  }

  lemma FillStep(s: P.State<seq<byte>>, c: ClientStep, begun: seq<C.Delivery>, slotSize: u32)
    requires P.Inv(s) && HoldsBegun(s, begun) && c.Fill? && IsFill(c, slotSize)
    ensures var t := P.Apply(s, Lower(c));
      HoldsBegun(t, Begun(s, c, begun)) && Grown(s.produced, t.produced, [])
  {
    hide C.Deliver, Wire.Header, P.Inv;
    InvShape(s);
    FillDelivers(c, slotSize);
  }

  lemma OtherStep(s: P.State<seq<byte>>, step: P.Step<seq<byte>>, begun: seq<C.Delivery>)
    requires P.Inv(s) && HoldsBegun(s, begun)
    requires !step.Write? && (step.CommitLoad? && s.producer.Writing? ==> begun != [])
    ensures var t := P.Apply(s, step);
      && HoldsBegun(t, Begun(s, Ring(step), begun))
      && Grown(s.produced, t.produced, if step.CommitStore? && s.producer.CommitLoaded? then begun else [])
  {
    hide C.Deliver;
    assert s.producer.Writing? ==> s.producer.head == s.head;
    InvShape(s);
    hide P.Inv;
  }

  /** One step keeps the begun slot delivering, and grows the committed slots by what it commits. */
  lemma StepCommits(s: P.State<seq<byte>>, c: ClientStep, begun: seq<C.Delivery>, slotSize: u32)
    requires P.Inv(s) && HoldsBegun(s, begun) && IsFill(c, slotSize)
    requires c.Ring? ==> !c.step.Write? && (c.step.CommitLoad? && s.producer.Writing? ==> begun != [])
    ensures var t := P.Apply(s, Lower(c));
      && P.Inv(t) && HoldsBegun(t, Begun(s, c, begun))
      && Grown(s.produced, t.produced, if c.Ring? && c.step.CommitStore? && s.producer.CommitLoaded? then begun else [])
  {
    hide P.Apply, P.Inv, C.Deliver, HoldsBegun, Begun, Grown, IsFill, Wire.Header;
    P.StepRefinesQueue(s, Lower(c));
    if c.Fill? {
      FillStep(s, c, begun, slotSize);
    } else {
      OtherStep(s, c.step, begun);
    }
  }

  /** Over every interleaving, the slots committed deliver exactly the events emitted, in order. */
  lemma {:induction false} RunCommits(s: P.State<seq<byte>>, steps: seq<ClientStep>, begun: seq<C.Delivery>, slotSize: u32)
    requires P.Inv(s) && HoldsBegun(s, begun) && FollowsEmit(s, steps, begun, slotSize)
    ensures var e := RunClients(s, steps);
      P.Inv(e) && Grown(s.produced, e.produced, Committed(s, steps, begun))
    decreases |steps|
  {
    if steps != [] {
      hide P.Apply, P.Inv, HoldsBegun, Grown, Begun, IsFill, Lower;
      var t := P.Apply(s, Lower(steps[0]));
      InvShape(s);
      StepCommits(s, steps[0], begun, slotSize);
      RunCommits(t, steps[1..], Begun(s, steps[0], begun), slotSize);
      GrownTwice(s.produced, t.produced, RunClients(t, steps[1..]).produced,
        if steps[0].Ring? && steps[0].step.CommitStore? && s.producer.CommitLoaded? then begun else [],
        Committed(t, steps[1..], Begun(s, steps[0], begun)));
    }
  }

  /** The slots grew, at their end, by slots that deliver these events one for one. */
  ghost predicate Grown(before: seq<seq<byte>>, after: seq<seq<byte>>, events: seq<C.Delivery>) {
    before <= after && DeliverOneForOne(after[|before|..], events)
  }

  lemma GrownTwice(a: seq<seq<byte>>, b: seq<seq<byte>>, c: seq<seq<byte>>, d: seq<C.Delivery>, e: seq<C.Delivery>)
    requires Grown(a, b, d) && Grown(b, c, e)
    ensures Grown(a, c, d + e)
  {
    hide C.Deliver;
    assert c[|a|..] == b[|a|..] + c[|b|..];
  }

  lemma InvShape(s: P.State<seq<byte>>)
    requires P.Inv(s)
    ensures s.capacity > 0 && |s.slots| == s.capacity
  {}

  /** The slots handed to polls so far: those released, and the one still pinned. */
  function Handed(s: P.State<seq<byte>>): seq<seq<byte>>
    requires s.capacity > 0 && |s.slots| == s.capacity
  {
    s.consumed + if s.consumer.Reading? || s.consumer.Releasing? then [s.slots[s.consumer.tail % s.capacity]] else []
  }

  lemma HandedIsPrefix(s: P.State<seq<byte>>)
    requires P.Inv(s)
    ensures Handed(s) <= s.produced
  {
    P.InvGivesFifo(s);
    if s.consumer.Reading? || s.consumer.Releasing? {
      P.ReadIsOldestAndDisjoint(s);
      assert s.Queue()[0] == s.produced[|s.consumed|];
    }
  }

  /** Whatever the interleaving of the two sides' loads, stores and slot writes: the slots handed
      to polls, the pinned one included, are in order a prefix of the slots committed, and those
      committed in the run deliver exactly the frames and payloads emitted. So from an empty ring
      the events polled are a prefix of the events emitted. */
  lemma PolledThenQueued(s: P.State<seq<byte>>, steps: seq<ClientStep>, slotSize: u32)
    requires P.Inv(s) && (s.producer.Idle? || s.producer.HeadLoaded?)
    requires FollowsEmit(s, steps, [], slotSize)
    ensures var e := RunClients(s, steps);
      var emitted := Committed(s, steps, []);
      && Handed(e) <= e.produced && Grown(s.produced, e.produced, emitted)
      && (s.produced == [] ==>
        |Handed(e)| <= |emitted| && DeliverOneForOne(Handed(e), emitted[..|Handed(e)|]))
  {
    hide C.Deliver, FollowsEmit, Committed, RunClients;
    RunCommits(s, steps, [], slotSize);
    var e := RunClients(s, steps);
    assert e.produced[0..] == e.produced;
    HandedIsPrefix(e);
    hide P.Inv, Handed;
  }
}
