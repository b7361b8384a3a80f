/** A call over real rings: the bus surface the caller and the process use is a client over a ring,
    and a call whose fragments cross two rings and a forwarding host each way returns what its
    handler made of its request. */
module BusCall {
  import opened Bytes
  import opened Wire
  import opened ModuleProtocol
  import opened Rpc
  import opened ModuleRuntime
  import opened Service
  import C = Client
  import O = ClientOrder
  import E = EndToEnd
  import Caller = ModuleCaller

  // ---------- The port is a client ----------

  /** The slots deliver these packets, one for one. */
  ghost predicate Carry(slots: seq<seq<byte>>, ps: seq<Packet>) {
    |slots| == |ps| && forall k :: 0 <= k < |slots| ==> Carries(slots[k], ps[k])
  }

  ghost predicate Carries(slot: seq<byte>, p: Packet) {
    var d := C.Deliver(slot, |slot|);
    d.Event? && PacketOf(d) == p
  }

  /** What a fragment offered to a client comes to. */
  function FragmentOutcome(
    attached: bool, epochChanged: bool, full: bool, slotSize: u32, inlineBudget: u32,
    pattern: u16, kind: u32, corr: u64, handle: u32, n: nat, more: bool): C.BusError
    requires pattern == F_REQUEST || pattern == F_REPLY
  {
    if corr == 0 || (more && n == 0) then C.ErrProtocol
    else C.EmitOutcome(attached, epochChanged, full, slotSize, inlineBudget, if more then pattern + F_MORE else pattern, kind, corr, handle, n)
  }

  function TurnOf(err: C.BusError, contextDone: bool, epochChanged: bool): Turn {
    if err == C.NoError then Accept
    else if err == C.ErrWouldBlock then Full(contextDone, epochChanged)
    else Fail(err)
  }

  lemma BuiltPacket(pattern: u16, kind: u32, corr: u64, handle: u32, payload: seq<byte>, more: bool)
    requires (pattern == F_REQUEST || pattern == F_REPLY) && |payload| < 0x1_0000_0000
    ensures PacketOf(C.Event(C.Built(if more then pattern + F_MORE else pattern, kind, corr, handle, |payload|), payload)) ==
      OfferedPacket(pattern, kind, corr, payload, more)
  {}

  /** Offering a fragment through a client is an offer to the port, the turn being what the ring and
      the host make of it: what the queue carries grows by the packet offered exactly when the turn
      accepts it. contextDone and epochLater are what a sender finds that then waits. */
  method OfferThrough(
    c: C.Client, pattern: u16, kind: u32, corr: u64, payload: seq<byte>, more: bool, epoch: u64, contextDone: bool, epochLater: bool)
    returns (t: Turn, ghost slot: seq<byte>)
    requires c.Valid() && (pattern == F_REQUEST || pattern == F_REPLY)
    modifies c.outbound`head, c.outbound.mem
    ensures c.Valid()
    ensures t == TurnOf(FragmentOutcome(c.attached, epoch != c.attachedEpoch, |old(c.outbound.Contents())| == c.outbound.capacity,
      c.slotSize, c.inlineBudget, pattern, kind, corr, c.handle, |payload|, more), contextDone, epochLater)
    ensures corr == 0 || (more && payload == []) ==> t == Fail(C.ErrProtocol)
    ensures t.Accept? ==> c.outbound.Contents() == old(c.outbound.Contents()) + [slot]
    ensures t.Accept? ==> Carries(slot, OfferedPacket(pattern, kind, corr, payload, more))
    ensures !t.Accept? ==> c.outbound.Contents() == old(c.outbound.Contents())
  {
    hide C.Deliver, C.Built, C.EmitOutcome, OfferedPacket;
    ghost var before := c.outbound.Contents();
    var err := c.Fragment(pattern, kind, corr, payload, more, epoch);
    ghost var after := c.outbound.Contents();
    slot := [];
    if err == C.NoError {
      slot := after[|before|];
      assert after == before + [slot];
      BuiltPacket(pattern, kind, corr, c.handle, payload, more);
      return Accept, slot;
    }
    if err == C.ErrWouldBlock {
      return Full(contextDone, epochLater), slot;
    }
    return Fail(err), slot;
  }

  // ---------- Two rings and a host ----------

  /** The packets events stand for. */
  function PacketsIn(ds: seq<C.Delivery>): seq<Packet> {
    if ds == [] then [] else (if ds[0].Event? then [PacketOf(ds[0])] else []) + PacketsIn(ds[1..])
  }

  lemma {:induction false} PacketsInConcat(a: seq<C.Delivery>, b: seq<C.Delivery>)
    ensures PacketsIn(a + b) == PacketsIn(a) + PacketsIn(b)
  {
    if a == [] {
      assert a + b == b;
    } else {
      assert (a + b)[0] == a[0] && (a + b)[1..] == a[1..] + b;
      PacketsInConcat(a[1..], b);
      hide PacketOf;
    }
  }

  /** One way through the host: the events emitted on the near ring and those polled off it, and
      the same for the far ring. */
  datatype Path = Path(nearSent: seq<C.Delivery>, nearGot: seq<C.Delivery>, farSent: seq<C.Delivery>, farGot: seq<C.Delivery>)

  /** The events polled are the first of those emitted, and no packet of c is still on the ring. */
  ghost predicate Crossed(sent: seq<C.Delivery>, got: seq<C.Delivery>, c: u64) {
    got <= sent && E.Select(PacketsIn(sent[|got|..]), c) == []
  }

  /** Both rings were crossed, and the host emitted on the far one, in order and unchanged, what it
      had polled off the near one. */
  ghost predicate Carried(path: Path, c: u64) {
    Crossed(path.nearSent, path.nearGot, c) && PacketsIn(path.farSent) == PacketsIn(path.nearGot) && Crossed(path.farSent, path.farGot, c)
  }

  lemma CrossedWhole(sent: seq<C.Delivery>, got: seq<C.Delivery>, c: u64)
    requires Crossed(sent, got, c)
    ensures E.Select(PacketsIn(got), c) == E.Select(PacketsIn(sent), c)
  {
    assert sent == got + sent[|got|..];
    PacketsInConcat(got, sent[|got|..]);
    E.SelectConcat(PacketsIn(got), PacketsIn(sent[|got|..]), c);
  }

  /** Everything of c emitted at one end is polled at the other, in order. */
  lemma CarriedWhole(path: Path, c: u64)
    requires Carried(path, c)
    ensures E.Select(PacketsIn(path.farGot), c) == E.Select(PacketsIn(path.nearSent), c)
  {
    CrossedWhole(path.nearSent, path.nearGot, c);
    CrossedWhole(path.farSent, path.farGot, c);
  }

  /** Two clients that exchanged frames over an empty ring have crossed it once the slots still
      unread carry nothing of c. */
  method Cross(a: C.Client, b: C.Client, ops: seq<O.Op>) returns (errs: seq<C.BusError>, got: seq<C.Delivery>)
    requires a.Valid() && b.Valid() && a.outbound == b.inbound && a != b && b.Unread() == []
    modifies a.outbound`head, a.outbound`tail, a.outbound.mem, b`pendingRead
    ensures a.Valid() && b.Valid() && |errs| == |ops|
    ensures forall c :: Crossed(O.Emitted(ops, errs, a.handle), got, c) <==> E.Select(PacketsIn(O.Events(b.Unread())), c) == []
  {
    hide C.Deliver, C.Client.Valid, C.Client.Unread, O.Emitted, O.Events, PacketsIn, E.Select, O.DeliverOneForOne;
    NoEvents();
    errs, got := O.Exchange(a, b, ops);
    ghost var sent, left := O.Emitted(ops, errs, a.handle), O.Events(b.Unread());
    assert got + left == sent;
    assert sent[|got|..] == left;
  }

  lemma NoEvents()
    ensures O.Events([]) == [] && forall ds: seq<C.Delivery> :: [] + ds == ds
  {}

  // ---------- The call ----------

  /** The packets of the events polled in a run. */
  function PolledPackets(steps: seq<Step>): seq<Packet> {
    if steps == [] then []
    else (if steps[0].Receive? then [steps[0].packet] else []) + PolledPackets(steps[1..])
  }

  lemma {:induction false} OwnOfPolled(steps: seq<Step>, c: u64)
    ensures E.OwnPolled(steps, c) == E.Select(PolledPackets(steps), c)
  {
    if steps != [] {
      OwnOfPolled(steps[1..], c);
      var later := PolledPackets(steps[1..]);
      if steps[0].Receive? {
        E.SelectConcat([steps[0].packet], later, c);
        E.SelectOne(steps[0].packet, c);
      } else {
        assert [] + later == later;
      }
      hide E.Select;
    }
  }

  /** The packets a caller's polls delivered. */
  function DeliveredPackets(polls: seq<Caller.Polled>): seq<Packet> {
    if polls == [] then []
    else (if polls[0].Delivered? then [polls[0].packet] else []) + DeliveredPackets(polls[1..])
  }

  lemma {:induction false} OwnOfDelivered(polls: seq<Caller.Polled>, c: u64)
    ensures E.OwnDelivered(polls, c) == E.Select(DeliveredPackets(polls), c)
  {
    if polls != [] {
      OwnOfDelivered(polls[1..], c);
      var later := DeliveredPackets(polls[1..]);
      if polls[0].Delivered? {
        E.SelectConcat([polls[0].packet], later, c);
        E.SelectOne(polls[0].packet, c);
      } else {
        assert [] + later == later;
      }
      hide E.Select;
    }
  }

  /** The caller's client emitted just the call's packets for its correlation; they crossed to the
      process, which polled what came off its ring. */
  ghost predicate RequestCrossed(there: Path, steps: seq<Step>, call: Envelope, request: seq<byte>, budget: u32)
    requires MESSAGE_HDR_LEN < budget <= MAX_PAYLOAD && call.pattern == F_REQUEST
  {
    && E.Select(PacketsIn(there.nearSent), call.corr) == Packets(call, request, budget - MESSAGE_HDR_LEN)
    && Carried(there, call.corr) && PolledPackets(steps) == PacketsIn(there.farGot)
  }

  /** The process's client emitted what the process sent; it crossed back, and the caller polled
      what came off its ring, calmly. */
  ghost predicate ReplyCrossed(back: Path, sent: seq<Packet>, polls: seq<Caller.Polled>, corr: u64) {
    && PacketsIn(back.nearSent) == sent && Carried(back, corr)
    && DeliveredPackets(polls) == PacketsIn(back.farGot) && E.Calm(polls)
  }

  /** End to end over rings: the handler ran once, on exactly the request, and the call returns its
      body or its non-OK status. */
  method CallOverRings(
    caller: Caller.ModuleCaller, p: Process, ghost history: seq<Step>, ghost steps: seq<Step>, kind: u32, stageId: u32,
    traceId: u64, deadlineNs: u64, request: seq<byte>, polls: seq<Caller.Polled>, ghost there: Path, ghost back: Path)
    returns (r: Caller.CallResult, ghost id: nat, ghost k: nat)
    requires p.Abstract() == Run(p.cfg, Run(p.cfg, Fresh, history), steps) && AnswersSent(p, [])
    requires MESSAGE_HDR_LEN < p.port.budget <= MAX_PAYLOAD && MESSAGE_HDR_LEN < caller.port.budget <= MAX_PAYLOAD
    requires caller.port != p.port && |request| <= MAX_BODY && kind != KIND_CAPABILITY_ABSENT && kind != KIND_ERROR
    requires Caller.WillSend(caller.port.budget, caller.port.turns, NextCall(caller, kind, stageId, deadlineNs, traceId), request)
    requires Undisturbed(p.cfg, history, steps, NextCall(caller, kind, stageId, deadlineNs, traceId))
    requires RequestCrossed(there, steps, NextCall(caller, kind, stageId, deadlineNs, traceId), request, caller.port.budget)
    requires ReplyCrossed(back, p.port.sent, polls, NextCall(caller, kind, stageId, deadlineNs, traceId).corr)
    modifies caller`correlation, caller.port
    ensures E.ReturnsAt(steps, k, id) && r.Returned?
    ensures E.Tells(r.outcome, deadlineNs, steps[k].now, steps[k].status, steps[k].response)
    ensures E.RanOnce(Run(p.cfg, Fresh, history), p.Abstract(),
      Work(kind, caller.correlation, stageId, deadlineNs, traceId), request, id)
  {
    hide Run, Packets, E.Select, E.OwnPolled, E.OwnDelivered, E.Tells, E.RanOnce, E.Calm, PacketsIn, Carried,
      PolledPackets, DeliveredPackets, Undisturbed, Caller.WillSend, AnswersSent;
    ghost var corr := NextCall(caller, kind, stageId, deadlineNs, traceId).corr;
    CarriedWhole(there, corr);
    CarriedWhole(back, corr);
    OwnOfPolled(steps, corr);
    OwnOfDelivered(polls, corr);
    r, id, k := CallServed(caller, p, history, steps, kind, stageId, traceId, deadlineNs, request, polls);
  }
}
