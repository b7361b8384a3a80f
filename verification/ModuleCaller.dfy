/** Calling a module stage: fragmenting the request, and reassembling this call's reply from
    a stream that may carry anything else. */
module ModuleCaller {
  import opened Bytes
  import opened Wire
  import opened ModuleProtocol
  import opened Rpc
  import Client

  /** One poll of the inbound ring: an event, nothing (with what the caller then finds of its
      context and its expiry), or an error. */
  datatype Polled = Delivered(packet: Packet) | Nothing(contextDone: bool, expired: bool) | PollFailed(why: Client.BusError)

  datatype Outcome =
    | Pending(acc: seq<byte>)
    | Reply(body: seq<byte>)
    | CapabilityAbsent
    | RejectedByHost
    | NonOk(status: u16)
    | TooLong
    | Cancelled
    | DeadlineExceeded
    | Failed(why: Client.BusError)

  /** What one delivered packet does to a call waiting with acc collected so far. */
  function Consider(p: Packet, kind: u32, corr: u64, acc: seq<byte>): Outcome {
    if p.corr == corr && p.kind == KIND_CAPABILITY_ABSENT then CapabilityAbsent
    else if p.corr == corr && p.kind == KIND_ERROR then RejectedByHost
    else if p.kind != kind || p.corr != corr then Pending(acc)
    else
      match ModuleProtocol.Decode(p.payload)
      case Malformed => Pending(acc)
      case Message(m) =>
        if m.operation != OP_RESULT then Pending(acc)
        else if m.status != STATUS_OK then NonOk(m.status)
        else if |acc| + m.bodyLen > MAX_BODY then TooLong
        else
          var grown := acc + ModuleProtocol.Body(p.payload);
          if p.Has(F_MORE) then Pending(grown) else Reply(grown)
  }

  /** The result of waiting over a stream of polls. */
  function Await(polls: seq<Polled>, kind: u32, corr: u64, acc: seq<byte>): Outcome {
    if polls == [] then Pending(acc) else
      match polls[0]
      case PollFailed(why) => Failed(why)
      case Nothing(contextDone, expired) =>
        if contextDone then Cancelled
        else if expired then DeadlineExceeded
        else Await(polls[1..], kind, corr, acc)
      case Delivered(p) =>
        var o := Consider(p, kind, corr, acc);
        if o.Pending? then Await(polls[1..], kind, corr, o.acc) else o
  }

  /** The stream with every event of another correlation deleted. */
  function OnlyOwn(polls: seq<Polled>, corr: u64): seq<Polled> {
    if polls == [] then []
    else if polls[0].Delivered? && polls[0].packet.corr != corr then OnlyOwn(polls[1..], corr)
    else [polls[0]] + OnlyOwn(polls[1..], corr)
  }

  /** A call's result depends only on its own correlation: deleting everything else from the
      stream changes nothing, so late fragments of an abandoned call never enter a later body. */
  lemma {:induction false} AwaitIgnoresOthers(polls: seq<Polled>, kind: u32, corr: u64, acc: seq<byte>)
    ensures Await(OnlyOwn(polls, corr), kind, corr, acc) == Await(polls, kind, corr, acc)
    decreases |polls|
  {
    if polls != [] {
      var p := polls[0];
      if p.Delivered? {
        var o := Consider(p.packet, kind, corr, acc);
        AwaitIgnoresOthers(polls[1..], kind, corr, if o.Pending? then o.acc else acc);
        if p.packet.corr == corr {
          assert OnlyOwn(polls, corr)[1..] == OnlyOwn(polls[1..], corr);
        }
      } else {
        AwaitIgnoresOthers(polls[1..], kind, corr, acc);
        assert OnlyOwn(polls, corr)[1..] == OnlyOwn(polls[1..], corr);
      }
    }
  }

  /** Calls use the next correlation each time, so before the counter wraps no two calls of one
      caller share one. */
  lemma CorrelationsFresh(first: u64, i: nat, j: nat)
    requires i < j && j - i < TWO_64
    ensures (first + i) % TWO_64 != (first + j) % TWO_64
  {
    var d := (first + j) / TWO_64 - (first + i) / TWO_64;
    assert first + j - (first + i) == TWO_64 * d + ((first + j) % TWO_64 - (first + i) % TWO_64);
  }

  /** The sum of two lengths in 32 bits. */
  function LengthSum(collected: nat, n: u32): u32 {
    (collected % 0x1_0000_0000 + n) % 0x1_0000_0000
  }

  /** The collected body never outgrows the limit, and the 32-bit length sum is exact. */
  lemma LengthSumExact(acc: seq<byte>, n: u32)
    requires |acc| <= MAX_BODY && n <= MAX_BODY
    ensures LengthSum(|acc|, n) == |acc| + n
  {}

  /** The request length check compares a 32-bit truncation: a request is let through exactly
      when its length modulo 2^32 is within the limit, which is the documented limit only below 4 GiB. */
  predicate GuardPasses(n: nat) {
    n % 0x1_0000_0000 <= MAX_BODY
  }

  lemma GuardIsLimitIff(n: nat)
    ensures GuardPasses(n) == (n <= MAX_BODY) <==> n < 0x1_0000_0000 || n % 0x1_0000_0000 > MAX_BODY
    ensures GuardPasses(0x1_0000_0000) && 0x1_0000_0000 > MAX_BODY
  {}

  function RequestEnvelope(kind: u32, corr: u64, stageId: u32, deadlineNs: u64, traceId: u64): Envelope {
    Envelope(F_REQUEST, kind, corr, OP_INVOKE, STATUS_OK, stageId, deadlineNs, traceId)
  }

  /** What is on the bus for a request: each packet invokes the stage with the call's deadline and
      trace, its flags are FRequest, FInline and FMore on all but the last, and it carries its part. */
  lemma RequestOnBus(kind: u32, corr: u64, stageId: u32, deadlineNs: u64, traceId: u64, request: seq<byte>, c: nat, k: nat)
    requires corr != 0 && stageId != 0 && 0 < c <= MAX_BODY
    requires k < |Packets(RequestEnvelope(kind, corr, stageId, deadlineNs, traceId), request, c)|
    ensures var ps := Packets(RequestEnvelope(kind, corr, stageId, deadlineNs, traceId), request, c);
      && |ps| == |Parts(request, c)| && ps[k].kind == kind && ps[k].corr == corr
      && ps[k].flags == (if k < |ps| - 1 then 0x89 else 0x09) && ps[k].BodyPart() == Parts(request, c)[k]
      && ModuleProtocol.Decode(ps[k].payload) ==
        DecodedMessage.Message(Message.Message(1, 0, stageId, 0, |Parts(request, c)[k]|, deadlineNs, traceId))
  {
    var e := RequestEnvelope(kind, corr, stageId, deadlineNs, traceId);
    PacketsCarryParts(e, request, c);
    hide Packets, Parts, Envelope.PacketFor, ModuleProtocol.Decode, Packet.BodyPart;
    PacketSays(e, Parts(request, c)[k], k < |Parts(request, c)| - 1);
  }

  /** The packets sent are those the bus takes at once, and the error says why no more were. */
  ghost predicate AsFarAsTaken(err: SendError, turns: seq<Turn>, before: seq<Packet>, sent: seq<Packet>, ps: seq<Packet>) {
    var n := TakenAtOnce(turns);
    if n >= |ps| then err.Sent? && sent == before + ps
    else
      var t := NextTurn(turns[n..]);
      sent == before + ps[..n] && err == ErrBus(if t.Full? then Client.ErrWouldBlock else t.why)
  }

  /** Every send so far was taken at once; rest is still to be sent. */
  ghost predicate Taking(turns: seq<Turn>, later: seq<Turn>, before: seq<Packet>, sent: seq<Packet>, ps: seq<Packet>, rest: seq<Packet>) {
    && |rest| <= |ps| && |ps| - |rest| <= TakenAtOnce(turns)
    && later == turns[|ps| - |rest|..]
    && rest == ps[|ps| - |rest|..] && sent == before + ps[..|ps| - |rest|]
  }

  lemma {:induction false} AwaitConcat(a: seq<Polled>, b: seq<Polled>, kind: u32, corr: u64, acc: seq<byte>)
    ensures var o := Await(a, kind, corr, acc);
      Await(a + b, kind, corr, acc) == if o.Pending? then Await(b, kind, corr, o.acc) else o
  {
    hide Consider;
    if a == [] {
      assert a + b == b;
    } else {
      assert (a + b)[0] == a[0] && (a + b)[1..] == a[1..] + b;
      var o := if a[0].Delivered? then Consider(a[0].packet, kind, corr, acc) else Pending(acc);
      AwaitConcat(a[1..], b, kind, corr, if o.Pending? then o.acc else acc);
    }
  }

  /** The wait is over with its first used polls: it was pending up to the last of them, and is
      decided by it, or the polls have run out. */
  ghost predicate EndsAfter(polls: seq<Polled>, used: nat, kind: u32, corr: u64, acc: seq<byte>) {
    && used <= |polls| && (forall n :: 0 <= n < used ==> Await(polls[..n], kind, corr, acc).Pending?)
    && (used == |polls| || !Await(polls[..used], kind, corr, acc).Pending?)
  }

  /** The wait is still pending after its first i polls, with body collected. */
  ghost predicate StillWaits(polls: seq<Polled>, i: nat, kind: u32, corr: u64, body: seq<byte>) {
    && i <= |polls| && Await(polls[..i], kind, corr, []) == Pending(body)
    && forall n :: 0 <= n < i ==> Await(polls[..n], kind, corr, []).Pending?
  }

  lemma WaitStarts(polls: seq<Polled>, kind: u32, corr: u64)
    ensures StillWaits(polls, 0, kind, corr, [])
  {}

  /** The wait comes to o with the polls used so far, and so with all of them. */
  ghost predicate Decided(polls: seq<Polled>, used: nat, kind: u32, corr: u64, o: Outcome) {
    Await(polls, kind, corr, []) == o && EndsAfter(polls, used, kind, corr, [])
  }

  /** What one more poll does to a wait. */
  lemma AwaitNext(polls: seq<Polled>, i: nat, kind: u32, corr: u64, body: seq<byte>)
    requires i < |polls| && StillWaits(polls, i, kind, corr, body)
    ensures polls[i].PollFailed? ==> Decided(polls, i + 1, kind, corr, Failed(polls[i].why))
    ensures polls[i].Nothing? && polls[i].contextDone ==> Decided(polls, i + 1, kind, corr, Cancelled)
    ensures polls[i].Nothing? && !polls[i].contextDone && polls[i].expired ==> Decided(polls, i + 1, kind, corr, DeadlineExceeded)
    ensures polls[i] == Nothing(false, false) ==> StillWaits(polls, i + 1, kind, corr, body)
    ensures polls[i].Delivered? ==>
      var c := Consider(polls[i].packet, kind, corr, body);
      if c.Pending? then StillWaits(polls, i + 1, kind, corr, c.acc) else Decided(polls, i + 1, kind, corr, c)
  {
    hide Consider;
    assert polls[..i + 1] == polls[..i] + [polls[i]];
    AwaitConcat(polls[..i], [polls[i]], kind, corr, []);
    AwaitOne(polls[i], kind, corr, body);
    hide Await;
    assert polls == polls[..i + 1] + polls[i + 1..];
    AwaitConcat(polls[..i + 1], polls[i + 1..], kind, corr, []);
  }

  lemma AwaitOne(x: Polled, kind: u32, corr: u64, acc: seq<byte>)
    ensures x.PollFailed? ==> Await([x], kind, corr, acc) == Failed(x.why)
    ensures x.Nothing? ==> Await([x], kind, corr, acc) == if x.contextDone then Cancelled else if x.expired then DeadlineExceeded else Pending(acc)
    ensures x.Delivered? ==> Await([x], kind, corr, acc) == Consider(x.packet, kind, corr, acc)
  {
    hide Consider;
    assert [x][0] == x && [x][1..] == [];
  }

  lemma AwaitsNoMore(polls: seq<Polled>, kind: u32, corr: u64, body: seq<byte>)
    requires StillWaits(polls, |polls|, kind, corr, body)
    ensures Decided(polls, |polls|, kind, corr, Pending(body))
  {
    assert polls[..|polls|] == polls;
  }

  /** Events that a wait judges by kind and correlation alone. */
  lemma NoReply(p: Packet, kind: u32, corr: u64, acc: seq<byte>)
    ensures p.corr == corr && p.kind == KIND_CAPABILITY_ABSENT ==> Consider(p, kind, corr, acc) == CapabilityAbsent
    ensures p.corr == corr && p.kind == KIND_ERROR ==> Consider(p, kind, corr, acc) == RejectedByHost
    ensures p.corr != corr || (p.kind != kind && p.kind != KIND_CAPABILITY_ABSENT && p.kind != KIND_ERROR) ==> Consider(p, kind, corr, acc) == Pending(acc)
  {
    hide ModuleProtocol.Decode;
  }

  /** Events of the kind and correlation waited for, by their envelope. */
  lemma ReplyFragment(p: Packet, kind: u32, corr: u64, acc: seq<byte>)
    requires p.kind == kind && p.corr == corr && kind != KIND_CAPABILITY_ABSENT && kind != KIND_ERROR
    ensures var d, o := ModuleProtocol.Decode(p.payload), Consider(p, kind, corr, acc);
      && (d.Malformed? || d.message.operation != OP_RESULT ==> o == Pending(acc))
      && (d.Message? && d.message.operation == OP_RESULT ==>
        && MESSAGE_HDR_LEN + d.message.bodyLen <= |p.payload|
        && (d.message.status != STATUS_OK ==> o == NonOk(d.message.status))
        && (d.message.status == STATUS_OK && |acc| + d.message.bodyLen > MAX_BODY ==> o == TooLong)
        && (d.message.status == STATUS_OK && |acc| + d.message.bodyLen <= MAX_BODY ==>
          var grown := acc + p.payload[MESSAGE_HDR_LEN..MESSAGE_HDR_LEN + d.message.bodyLen];
          o == if p.Has(F_MORE) then Pending(grown) else Reply(grown)))
  {}

  /** Polls that a call waits through: nothing yet, or an event of another correlation. */
  ghost predicate Quiet(polls: seq<Polled>, corr: u64) {
    forall k :: 0 <= k < |polls| ==>
      polls[k] == Nothing(false, false) || (polls[k].Delivered? && polls[k].packet.corr != corr)
  }

  lemma {:induction false} AwaitThrough(before: seq<Polled>, rest: seq<Polled>, kind: u32, corr: u64, acc: seq<byte>)
    requires Quiet(before, corr)
    ensures Await(before + rest, kind, corr, acc) == Await(rest, kind, corr, acc)
  {
    if before == [] {
      assert before + rest == rest;
    } else {
      assert (before + rest)[0] == before[0] && (before + rest)[1..] == before[1..] + rest;
      if before[0].Delivered? { NoReply(before[0].packet, kind, corr, acc); }
      hide Consider;
      AwaitThrough(before[1..], rest, kind, corr, acc);
    }
  }

  /** What ends a wait, or goes on with it: the first poll that is not waited through decides. A
      failed poll, a done context and then an expiry end it; the host's control frames do on their own
      kinds; a result of another status does, or one too long; fragments are collected up to the last. */
  lemma FirstWordDecides(before: seq<Polled>, x: Polled, after: seq<Polled>, kind: u32, corr: u64, acc: seq<byte>)
    requires Quiet(before, corr)
    ensures var r, goesOn := Await(before + ([x] + after), kind, corr, acc), Await(after, kind, corr, acc);
      && (x.PollFailed? ==> r == Failed(x.why))
      && (x.Nothing? ==> r == if x.contextDone then Cancelled else if x.expired then DeadlineExceeded else goesOn)
      && (x.Delivered? && x.packet.corr == corr && x.packet.kind == 4 ==> r == CapabilityAbsent)
      && (x.Delivered? && x.packet.corr == corr && x.packet.kind == 3 ==> r == RejectedByHost)
      && (x.Delivered? && x.packet.corr == corr && x.packet.kind != 3 && x.packet.kind != 4 && x.packet.kind != kind ==> r == goesOn)
      && (x.Delivered? && x.packet.corr == corr && x.packet.kind == kind && kind != 3 && kind != 4 ==>
        var d := ModuleProtocol.Decode(x.packet.payload);
        && (d.Malformed? || d.message.operation != 2 ==> r == goesOn)
        && (d.Message? && d.message.operation == 2 ==>
          && MESSAGE_HDR_LEN + d.message.bodyLen <= |x.packet.payload|
          && var grown := acc + x.packet.payload[40..40 + d.message.bodyLen];
          && (d.message.status != 0 ==> r == NonOk(d.message.status))
          && (d.message.status == 0 && |grown| > MAX_BODY ==> r == TooLong)
          && (d.message.status == 0 && |grown| <= MAX_BODY ==>
            r == if x.packet.Has(F_MORE) then Await(after, kind, corr, grown) else Reply(grown))))
  {
    AwaitThrough(before, [x] + after, kind, corr, acc);
    assert ([x] + after)[0] == x && ([x] + after)[1..] == after;
    if x.Delivered? {
      NoReply(x.packet, kind, corr, acc);
      if x.packet.kind == kind && x.packet.corr == corr && kind != 3 && kind != 4 { ReplyFragment(x.packet, kind, corr, acc); }
    }
    hide Consider, ModuleProtocol.Decode, ModuleProtocol.Body, Packet.Has;
  }

  /** So far the parts in front of offset went out, each taken at once. */
  ghost predicate OnTheWay(turns: seq<Turn>, later: seq<Turn>, before: seq<Packet>, sent: seq<Packet>,
      e: Envelope, request: seq<byte>, offset: nat, first: bool, chunk: nat)
  {
    && 0 < chunk <= MAX_BODY && e.pattern == F_REQUEST && offset <= |request|
    && (first ==> sent == before && offset == 0)
    && Taking(turns, later, before, sent, Packets(e, request, chunk), Remaining(e, request, offset, first, chunk))
  }

  lemma SetsOut(turns: seq<Turn>, before: seq<Packet>, e: Envelope, request: seq<byte>, chunk: nat)
    requires 0 < chunk <= MAX_BODY && e.pattern == F_REQUEST
    ensures OnTheWay(turns, turns, before, before, e, request, 0, true, chunk)
  {
    RemainingAtFirst(e, request, chunk);
    hide Packets, Remaining;
  }

  /** The next send either goes on taking or settles how far it went. */
  lemma OneTaken(turns: seq<Turn>, later: seq<Turn>, before: seq<Packet>, sent: seq<Packet>, ps: seq<Packet>, p: Packet, rest: seq<Packet>)
    requires Taking(turns, later, before, sent, ps, [p] + rest)
    ensures NextTurn(later).Accept? ==> Taking(turns, LaterTurns(later), before, sent + [p], ps, rest)
    ensures !NextTurn(later).Accept? ==> AsFarAsTaken(Refusal(NextTurn(later)), turns, before, sent, ps)
  {
    var m := |ps| - |rest| - 1;
    assert ps[m] == p && ps[..m + 1] == ps[..m] + [p] && ps[m + 1..] == ps[m..][1..];
    assert rest == ps[m + 1..];
    assert m < |turns| ==> later[0] == turns[m] && later[1..] == turns[m + 1..];
  }

  /** The same for the part of a request at an offset. */
  lemma NextPart(turns: seq<Turn>, later: seq<Turn>, before: seq<Packet>, sent: seq<Packet>,
      e: Envelope, request: seq<byte>, offset: nat, first: bool, chunk: nat, part: nat)
    requires OnTheWay(turns, later, before, sent, e, request, offset, first, chunk)
    requires (first || offset < |request|) && part == (if |request| - offset > chunk then chunk else |request| - offset)
    ensures var p := e.PacketFor(request[offset..offset + part], offset + part < |request|);
      && (NextTurn(later).Accept? ==> OnTheWay(turns, LaterTurns(later), before, sent + [p], e, request, offset + part, false, chunk))
      && (!NextTurn(later).Accept? ==> AsFarAsTaken(Refusal(NextTurn(later)), turns, before, sent, Packets(e, request, chunk)))
    ensures first ==> sent == before
  {
    hide Packets, AsFarAsTaken, Taking, Remaining, Envelope.PacketFor;
    RemainingStep(e, request, offset, first, chunk, part);
    OneTaken(turns, later, before, sent, Packets(e, request, chunk),
      e.PacketFor(request[offset..offset + part], offset + part < |request|), Remaining(e, request, offset + part, false, chunk));
  }

  lemma AllTaken(turns: seq<Turn>, later: seq<Turn>, before: seq<Packet>, sent: seq<Packet>, ps: seq<Packet>)
    requires Taking(turns, later, before, sent, ps, [])
    ensures AsFarAsTaken(Sent, turns, before, sent, ps)
  {
    assert ps[..|ps|] == ps;
  }

  /** What the bus still has to answer once it has taken a whole request at once. */
  ghost predicate TurnsLeft(budget: u32, turns: seq<Turn>, later: seq<Turn>, e: Envelope, request: seq<byte>)
    requires budget <= MAX_PAYLOAD && e.pattern == F_REQUEST
  {
    budget > MESSAGE_HDR_LEN && var n := |Packets(e, request, budget - MESSAGE_HDR_LEN)|;
      n <= |turns| && later == turns[n..]
  }

  lemma Arrives(budget: u32, turns: seq<Turn>, later: seq<Turn>, before: seq<Packet>, sent: seq<Packet>, e: Envelope, request: seq<byte>)
    requires MESSAGE_HDR_LEN < budget <= MAX_PAYLOAD
    requires OnTheWay(turns, later, before, sent, e, request, |request|, false, budget - MESSAGE_HDR_LEN)
    ensures AsFarAsTaken(Sent, turns, before, sent, Packets(e, request, budget - MESSAGE_HDR_LEN))
    ensures TurnsLeft(budget, turns, later, e, request)
  {
    hide Packets, Remaining, AsFarAsTaken;
    NoneRemain(e, request, budget - MESSAGE_HDR_LEN);
    AllTaken(turns, later, before, sent, Packets(e, request, budget - MESSAGE_HDR_LEN));
  }

  /** A send goes through whole: a budget for the header, a valid envelope, and every ring turn. */
  ghost predicate WillSend(budget: u32, turns: seq<Turn>, e: Envelope, request: seq<byte>)
    requires budget <= MAX_PAYLOAD && e.pattern == F_REQUEST
  {
    budget > MESSAGE_HDR_LEN && e.Valid() && TakenAtOnce(turns) >= |Packets(e, request, budget - MESSAGE_HDR_LEN)|
  }

  /** How a send ends: without room for the header, or for an envelope no peer would take, nothing
      goes out; else the packets the bus takes at once do, and the error says why no more did. */
  ghost predicate SendEnds(budget: u32, err: SendError, turns: seq<Turn>, before: seq<Packet>, sent: seq<Packet>, e: Envelope, request: seq<byte>)
    requires budget <= MAX_PAYLOAD && e.pattern == F_REQUEST
  {
    if budget <= MESSAGE_HDR_LEN then err == ErrRuntime && sent == before
    else if e.stageId == 0 then err == ErrMessage && sent == before
    else if e.corr == 0 then err == ErrBus(Client.ErrProtocol) && sent == before
    else AsFarAsTaken(err, turns, before, sent, Packets(e, request, budget - MESSAGE_HDR_LEN))
  }

  lemma StopsThere(budget: u32, err: SendError, turns: seq<Turn>, before: seq<Packet>, sent: seq<Packet>, e: Envelope, request: seq<byte>)
    requires MESSAGE_HDR_LEN < budget <= MAX_PAYLOAD && e == RequestEnvelope(e.kind, e.corr, e.stageId, e.deadlineNs, e.traceId)
    requires !e.Valid() ==> sent == before && err == if e.stageId == 0 then ErrMessage else ErrBus(Client.ErrProtocol)
    requires e.Valid() ==> AsFarAsTaken(err, turns, before, sent, Packets(e, request, budget - MESSAGE_HDR_LEN))
    ensures SendEnds(budget, err, turns, before, sent, e, request)
  {
    hide AsFarAsTaken, Packets;
  }

  /** What offering one part came to: nothing for an envelope no peer would take, else the answer of
      the next turn. */
  ghost predicate PartSent(err: SendError, e: Envelope, part: seq<byte>, more: bool,
      turns: seq<Turn>, later: seq<Turn>, before: seq<Packet>, sent: seq<Packet>)
    requires e.pattern == F_REQUEST && |part| <= MAX_BODY
  {
    if !e.Valid() then sent == before && err == if e.stageId == 0 then ErrMessage else ErrBus(Client.ErrProtocol)
    else if NextTurn(turns).Accept? then err.Sent? && later == LaterTurns(turns) && sent == before + [e.PacketFor(part, more)]
    else err == Refusal(NextTurn(turns)) && sent == before
  }

  lemma AfterPart(budget: u32, err: SendError, turns: seq<Turn>, later: seq<Turn>, latest: seq<Turn>,
      before: seq<Packet>, sent: seq<Packet>, now: seq<Packet>, e: Envelope, request: seq<byte>, offset: nat, first: bool, part: nat)
    requires MESSAGE_HDR_LEN < budget <= MAX_PAYLOAD && e == RequestEnvelope(e.kind, e.corr, e.stageId, e.deadlineNs, e.traceId)
    requires OnTheWay(turns, later, before, sent, e, request, offset, first, budget - MESSAGE_HDR_LEN) && (!first ==> e.Valid())
    requires first || offset < |request|
    requires part == if |request| - offset > budget - MESSAGE_HDR_LEN then budget - MESSAGE_HDR_LEN else |request| - offset
    requires PartSent(err, e, request[offset..offset + part], offset + part < |request|, later, latest, sent, now)
    ensures err.Sent? ==> e.Valid() && OnTheWay(turns, latest, before, now, e, request, offset + part, false, budget - MESSAGE_HDR_LEN)
    ensures !err.Sent? ==> SendEnds(budget, err, turns, before, now, e, request)
  {
    NextPart(turns, later, before, sent, e, request, offset, first, budget - MESSAGE_HDR_LEN, part);
    hide OnTheWay, AsFarAsTaken, SendEnds, Envelope.Valid, Envelope.PacketFor, NextTurn, LaterTurns;
    if !err.Sent? { StopsThere(budget, err, turns, before, now, e, request); }
  }

  datatype CallResult = Returned(outcome: Outcome) | NotSent(why: SendError)

  class ModuleCaller {
    const port: Port
    var correlation: u64

    constructor (port: Port)
      ensures this.port == port && correlation == 0
    {
      this.port, this.correlation := port, 0;
    }

    /** Fragments the request across the inline budget. Nothing is retried: the first send the
        bus does not take ends it, with the earlier fragments already sent. */
    method Send(e: Envelope, request: seq<byte>) returns (err: SendError)
      requires e == RequestEnvelope(e.kind, e.corr, e.stageId, e.deadlineNs, e.traceId)
      requires port.budget <= MAX_PAYLOAD
      modifies port
      ensures SendEnds(port.budget, err, old(port.turns), old(port.sent), port.sent, e, request)
      ensures err.Sent? ==> TurnsLeft(port.budget, old(port.turns), port.turns, e, request)
    {
      hide Packets, ModuleProtocol.Header, AsFarAsTaken, OnTheWay, Envelope.PacketFor, Envelope.Valid, TurnsLeft,
        PartSent, Taking, Remaining;
      if port.budget <= MESSAGE_HDR_LEN {
        return ErrRuntime;
      }
      var chunk := port.budget - MESSAGE_HDR_LEN;
      var frame := new byte[port.budget](_ => 0);
      var offset, first := 0, true;
      SetsOut(port.turns, port.sent, e, request, chunk);
      while first || offset < |request|
        invariant 0 <= offset <= |request| && (!first ==> e.Valid())
        invariant OnTheWay(old(port.turns), port.turns, old(port.sent), port.sent, e, request, offset, first, chunk)
        decreases first, |request| - offset
      {
        var part := |request| - offset;
        if part > chunk {
          part := chunk;
        }
        var more := offset + part < |request|;
        ghost var later, sent := port.turns, port.sent;
        err := SendPart(e, request[offset..offset + part], more, frame);
        AfterPart(port.budget, err, old(port.turns), later, port.turns, old(port.sent), sent, port.sent, e, request, offset, first, part);
        first := false;
        if !err.Sent? {
          return err;
        }
        offset := offset + part;
      }
      Arrives(port.budget, old(port.turns), port.turns, old(port.sent), port.sent, e, request);
      StopsThere(port.budget, Sent, old(port.turns), old(port.sent), port.sent, e, request);
      return Sent;
    }

    method SendPart(e: Envelope, part: seq<byte>, more: bool, frame: array<byte>) returns (err: SendError)
      requires e.pattern == F_REQUEST && e.operation == OP_INVOKE && e.status == STATUS_OK
      requires |part| <= MAX_BODY && frame.Length >= MESSAGE_HDR_LEN + |part|
      modifies port, frame
      ensures PartSent(err, e, part, more, old(port.turns), port.turns, old(port.sent), port.sent)
    {
      hide ModuleProtocol.Header;
      var ok, payload := BuildPayload(e, part, frame);
      if !ok {
        return ErrMessage;
      }
      var t := port.Offer(F_REQUEST, e.kind, e.corr, payload, more);
      if !t.Accept? {
        return ErrBus(if t.Full? then Client.ErrWouldBlock else t.why);
      }
      return Sent;
    }

    /** Consumes polls until this call's outcome is known. If they run out the call is still
        waiting with what it has collected. */
    method AwaitReply(kind: u32, corr: u64, polls: seq<Polled>) returns (o: Outcome, used: nat)
      ensures o == Await(polls, kind, corr, []) && used <= |polls| && EndsAfter(polls, used, kind, corr, [])
    {
      var body: seq<byte> := [];
      var i := 0;
      WaitStarts(polls, kind, corr);
      hide Await, StillWaits, EndsAfter, Consider, LengthSum, ModuleProtocol.Decode, ModuleProtocol.Body, Packet.Has;
      while i < |polls|
        invariant 0 <= i <= |polls| && |body| <= MAX_BODY
        invariant StillWaits(polls, i, kind, corr, body)
      {
        var poll := polls[i];
        AwaitNext(polls, i, kind, corr, body);
        i := i + 1;
        if poll.PollFailed? {
          return Failed(poll.why), i;
        }
        if poll.Nothing? {
          if poll.contextDone {
            return Cancelled, i;
          }
          if poll.expired {
            return DeadlineExceeded, i;
          }
          continue;
        }
        var p := poll.packet;
        NoReply(p, kind, corr, body);
        if p.corr == corr {
          if p.kind == KIND_CAPABILITY_ABSENT {
            return CapabilityAbsent, i;
          }
          if p.kind == KIND_ERROR {
            return RejectedByHost, i;
          }
        }
        if p.kind != kind || p.corr != corr {
          continue;
        }
        var d := ModuleProtocol.Decode(p.payload);
        ReplyFragment(p, kind, corr, body);
        if d.Malformed? || d.message.operation != OP_RESULT {
          continue;
        }
        if d.message.status != STATUS_OK {
          return NonOk(d.message.status), i;
        }
        LengthSumExact(body, d.message.bodyLen);
        if LengthSum(|body|, d.message.bodyLen) > MAX_BODY {
          return TooLong, i;
        }
        body := body + p.payload[MESSAGE_HDR_LEN..MESSAGE_HDR_LEN + d.message.bodyLen];
        if p.Has(F_MORE) {
          continue;
        }
        return Reply(body), i;
      }
      AwaitsNoMore(polls, kind, corr, body);
      return Pending(body), i;
    }

    /** One call: refuse an oversized request, take the next correlation, send, wait, and on any
        failure to get a reply publish a cancel. */
    method Call(kind: u32, stageId: u32, traceId: u64, deadlineNs: u64, request: seq<byte>, polls: seq<Polled>)
      returns (r: CallResult, used: nat)
      requires port.budget <= MAX_PAYLOAD
      modifies this`correlation, port
      ensures !GuardPasses(|request|) ==> r == NotSent(ErrConfig) && port.sent == old(port.sent) && correlation == old(correlation)
      ensures GuardPasses(|request|) ==> correlation == (old(correlation) + 1) % TWO_64
      ensures GuardPasses(|request|) ==> (r.Returned? <==> WillSend(port.budget, old(port.turns), RequestEnvelope(kind, correlation, stageId, deadlineNs, traceId), request))
      ensures GuardPasses(|request|) && r.NotSent? ==> SendEnds(port.budget, r.why, old(port.turns), old(port.sent), port.sent, RequestEnvelope(kind, correlation, stageId, deadlineNs, traceId), request)
      ensures used <= |polls| && (r.NotSent? ==> used == 0)
      ensures r.Returned? ==>
        var e := RequestEnvelope(kind, correlation, stageId, deadlineNs, traceId);
        && r.outcome == Await(polls, kind, correlation, []) && EndsAfter(polls, used, kind, correlation, [])
        && e.Valid() && port.budget > MESSAGE_HDR_LEN
        && var ps := Packets(e, request, port.budget - MESSAGE_HDR_LEN);
        && |ps| <= |old(port.turns)|
        && (r.outcome.Reply? || r.outcome.Pending? ==> port.sent == old(port.sent) + ps)
        && (!r.outcome.Reply? && !r.outcome.Pending? ==>
          port.sent == old(port.sent) + ps + if NextTurn(old(port.turns)[|ps|..]).Accept? then [Packet(kind, correlation, F_CANCEL, [])] else [])
    {
      hide Packets, Await, EndsAfter;
      if |request| % 0x1_0000_0000 > MAX_BODY {
        return NotSent(ErrConfig), 0;
      }
      correlation := (correlation + 1) % TWO_64;
      var e := RequestEnvelope(kind, correlation, stageId, deadlineNs, traceId);
      var err := Send(e, request);
      if !err.Sent? {
        return NotSent(err), 0;
      }
      var o;
      o, used := AwaitReply(kind, correlation, polls);
      if !o.Reply? && !o.Pending? {
        var _ := port.OfferCancel(kind, correlation);
      }
      return Returned(o), used;
    }
  }
}
