/** Module messages on the bus: packets, the splitting of a body into ordered fragments, and
    the narrow bus surface both ends of a call use. */
module Rpc {
  import opened Sequences
  import opened Bytes
  import opened Wire
  import opened ModuleProtocol
  import Client

  /** The part of an event that the host forwards unchanged and that both ends read. */
  datatype Packet = Packet(kind: u32, corr: u64, flags: u16, payload: seq<byte>)
  {
    predicate Has(flag: u16)
      requires flag > 0
    {
      flags / flag % 2 == 1
    }

    /** The body bytes of an envelope, empty when the payload is not one. */
    function BodyPart(): seq<byte> {
      if ModuleProtocol.Decode(payload).Message? then ModuleProtocol.Body(payload) else []
    }
  }

  function PacketOf(d: Client.Delivery): Packet
    requires d.Event?
  {
    Packet(d.frame.eventKind, d.frame.correlation, d.frame.flags, d.payload)
  }

  /** The fields every fragment of one message repeats. */
  datatype Envelope = Envelope(
    pattern: u16, kind: u32, corr: u64, operation: u16, status: u16, stageId: u32, deadlineNs: u64, traceId: u64)
  {
    function MessageFor(n: u32): Message {
      Message.Message(operation, status, stageId, 0, n, deadlineNs, traceId)
    }

    /** A fragment always carries the 40-byte header, so emit marks it inline. */
    function PacketFor(part: seq<byte>, more: bool): Packet
      requires |part| <= MAX_BODY
      requires pattern == F_REQUEST || pattern == F_REPLY
    {
      Packet(kind, corr, Client.WithInline(if more then pattern + F_MORE else pattern),
        ModuleProtocol.Header(MessageFor(|part|)) + part)
    }

    predicate Valid() {
      && (pattern == F_REQUEST || pattern == F_REPLY)
      && corr != 0 && MessageFor(0).Valid()
    }
  }

  /** A body cut into chunks of at most c bytes; an empty body is one empty part. */
  function Parts(body: seq<byte>, c: nat): (parts: seq<seq<byte>>)
    requires c > 0
    ensures parts != []
    ensures forall k :: 0 <= k < |parts| ==> |parts[k]| <= c
  {
    if |body| <= c then [body] else [body[..c]] + Parts(body[c..], c)
  }

  lemma OneMoreTimes(n: nat, c: nat)
    ensures (n + 1) * c == n * c + c && n * c == (n - 1) * c + c
  {}

  lemma PartsStep(body: seq<byte>, c: nat)
    requires c > 0
    ensures Parts(body, c) == if |body| <= c then [body] else [body[..c]] + Parts(body[c..], c)
  {}

  /** The cut is exact: it loses nothing, and every part but the last is full. */
  lemma {:induction false} PartsExact(body: seq<byte>, c: nat)
    requires c > 0
    ensures Concat(Parts(body, c)) == body
    ensures forall k :: 0 <= k < |Parts(body, c)| - 1 ==> |Parts(body, c)[k]| == c
    ensures (|Parts(body, c)| - 1) * c <= |body| <= |Parts(body, c)| * c
    ensures body != [] ==> (|Parts(body, c)| - 1) * c < |body|
  {
    hide Parts;
    PartsSpan(body, c);
    PartsStep(body, c);
    if |body| <= c {
      ConcatOne(body);
    } else {
      var parts, rest := Parts(body, c), Parts(body[c..], c);
      PartsExact(body[c..], c);
      assert parts[1..] == rest && Concat(parts) == body[..c] + Concat(rest);
    }
  }

  lemma {:induction false} PartsSpan(body: seq<byte>, c: nat)
    requires c > 0
    ensures (|Parts(body, c)| - 1) * c <= |body| <= |Parts(body, c)| * c
    ensures body != [] ==> (|Parts(body, c)| - 1) * c < |body|
  {
    hide Parts;
    PartsStep(body, c);
    if |body| > c {
      PartsSpan(body[c..], c);
      OneMoreTimes(|Parts(body[c..], c)|, c);
    }
  }

  /** There are max(1, ceil(len / c)) parts. */
  lemma PartsCount(body: seq<byte>, c: nat)
    requires c > 0
    ensures |Parts(body, c)| == if body == [] then 1 else (|body| + c - 1) / c
  {
    PartsExact(body, c);
    if body != [] {
      QuotientIs(|body| + c - 1, c, |Parts(body, c)|);
    }
  }

  /** The packets of one message: a part each, FMore on all but the last. */
  function Packets(e: Envelope, body: seq<byte>, c: nat): (ps: seq<Packet>)
    requires 0 < c <= MAX_BODY && (e.pattern == F_REQUEST || e.pattern == F_REPLY)
    ensures ps != []
  {
    if |body| <= c then [e.PacketFor(body, false)]
    else [e.PacketFor(body[..c], true)] + Packets(e, body[c..], c)
  }

  /** What is left to send once everything before offset went out. */
  ghost function Remaining(e: Envelope, body: seq<byte>, offset: nat, first: bool, c: nat): seq<Packet>
    requires 0 < c <= MAX_BODY && (e.pattern == F_REQUEST || e.pattern == F_REPLY) && offset <= |body|
  {
    if first || offset < |body| then Packets(e, body[offset..], c) else []
  }

  lemma RemainingAtFirst(e: Envelope, body: seq<byte>, c: nat)
    requires 0 < c <= MAX_BODY && (e.pattern == F_REQUEST || e.pattern == F_REPLY)
    ensures Remaining(e, body, 0, true, c) == Packets(e, body, c)
  {
    assert body[0..] == body;
  }

  lemma NoneRemain(e: Envelope, body: seq<byte>, c: nat)
    requires 0 < c <= MAX_BODY && (e.pattern == F_REQUEST || e.pattern == F_REPLY)
    ensures Remaining(e, body, |body|, false, c) == []
  {}

  lemma RemainingStep(e: Envelope, body: seq<byte>, offset: nat, first: bool, c: nat, part: nat)
    requires 0 < c <= MAX_BODY && (e.pattern == F_REQUEST || e.pattern == F_REPLY) && offset <= |body|
    requires (first || offset < |body|) && part == (if |body| - offset > c then c else |body| - offset)
    ensures Remaining(e, body, offset, first, c) ==
      [e.PacketFor(body[offset..offset + part], offset + part < |body|)] + Remaining(e, body, offset + part, false, c)
  {
    var rest := body[offset..];
    assert rest[..part] == body[offset..offset + part];
    assert |rest| == part ==> rest == rest[..part];
    assert rest[part..] == body[offset + part..];
  }

  /** Encodes the envelope of one part into a scratch frame and copies the part behind it. */
  method BuildPayload(e: Envelope, part: seq<byte>, frame: array<byte>) returns (ok: bool, payload: seq<byte>)
    requires |part| <= MAX_BODY && (e.pattern == F_REQUEST || e.pattern == F_REPLY)
    requires frame.Length >= MESSAGE_HDR_LEN + |part|
    modifies frame
    ensures ok <==> e.MessageFor(|part|).Valid()
    ensures ok ==> payload == e.PacketFor(part, false).payload
  {
    hide ModuleProtocol.Header;
    var written, encoded := ModuleProtocol.Encode(e.MessageFor(|part|), frame, 0, frame.Length);
    if !encoded {
      return false, [];
    }
    ghost var h := ModuleProtocol.Header(e.MessageFor(|part|));
    ghost var before := frame[..];
    assert before[0..MESSAGE_HDR_LEN] == h;
    Copy(frame, written, part);
    payload := frame[..written + |part|];
    assert payload == before[..MESSAGE_HDR_LEN] + part;
    return true, payload;
  }

  lemma PacketFlags(e: Envelope, part: seq<byte>, more: bool)
    requires |part| <= MAX_BODY && e.Valid()
    ensures var p := e.PacketFor(part, more);
      && p.Has(F_MORE) == more && p.Has(F_INLINE) && !p.Has(F_CANCEL)
      && p.Has(F_REQUEST) == (e.pattern == F_REQUEST) && p.Has(F_REPLY) == (e.pattern == F_REPLY)
  {
    hide ModuleProtocol.Header;
    var p := e.PacketFor(part, more);
    assert e.pattern == F_REQUEST ==> p.flags == if more then 0x89 else 0x09;
    assert e.pattern == F_REPLY ==> p.flags == if more then 0x91 else 0x11;
    hide Envelope.PacketFor, Client.WithInline;
  }

  lemma PacketDecodes(e: Envelope, part: seq<byte>, more: bool)
    requires |part| <= MAX_BODY && e.Valid()
    ensures ModuleProtocol.Decode(e.PacketFor(part, more).payload) == DecodedMessage.Message(e.MessageFor(|part|))
    ensures e.PacketFor(part, more).BodyPart() == part
  {
    EnvelopeRoundTrip(e.MessageFor(|part|), part);
  }

  /** What a receiver reads off a packet: its kind and correlation, an inline pattern with FMore as
      asked, and the envelope and part it was made of. */
  lemma PacketSays(e: Envelope, part: seq<byte>, more: bool)
    requires |part| <= MAX_BODY && e.Valid()
    ensures var p := e.PacketFor(part, more);
      && p.kind == e.kind && p.corr == e.corr && p.flags == e.pattern + 0x01 + (if more then 0x80 else 0)
      && ModuleProtocol.Decode(p.payload) ==
        DecodedMessage.Message(Message.Message(e.operation, e.status, e.stageId, 0, |part|, e.deadlineNs, e.traceId))
      && p.BodyPart() == part
  {
    hide ModuleProtocol.Header, ModuleProtocol.Decode, Packet.BodyPart;
    PacketDecodes(e, part, more);
  }

  /** The k-th packet carries the k-th part, within the budget of c plus the header, and only
      the last one clears FMore. */
  lemma {:induction false} PacketsCarryParts(e: Envelope, body: seq<byte>, c: nat)
    requires 0 < c <= MAX_BODY && e.Valid()
    ensures |Packets(e, body, c)| == |Parts(body, c)|
    ensures forall k :: 0 <= k < |Packets(e, body, c)| ==>
      && Packets(e, body, c)[k] == e.PacketFor(Parts(body, c)[k], k < |Parts(body, c)| - 1)
      && MESSAGE_HDR_LEN <= |Packets(e, body, c)[k].payload| <= MESSAGE_HDR_LEN + c
  {
    if |body| > c {
      PacketsCarryParts(e, body[c..], c);
    }
  }

  /** Emitting a fragment's payload puts exactly its packet in front of the host. */
  lemma EmittedPacket(e: Envelope, part: seq<byte>, more: bool, handle: u32)
    requires |part| <= MAX_BODY && e.Valid()
    ensures var payload := e.PacketFor(part, more).payload;
      var f := Client.Built(if more then e.pattern + F_MORE else e.pattern, e.kind, e.corr, handle, |payload|);
      PacketOf(Client.Event(f, payload)) == e.PacketFor(part, more)
  {}

  datatype SendError =
    | Sent | ErrConfig | ErrRuntime | ErrMessage | ErrBus(why: Client.BusError) | ErrContext

  /** How the bus answers one send: it takes the packet, is full (with what the sender then sees
      if it waits), or fails otherwise. */
  datatype Turn = Accept | Full(contextDone: bool, epochChanged: bool) | Fail(why: Client.BusError)

  function NextTurn(turns: seq<Turn>): Turn {
    if turns == [] then Full(true, false) else turns[0]
  }

  function LaterTurns(turns: seq<Turn>): seq<Turn> {
    if turns == [] then [] else turns[1..]
  }

  /** How many sends in a row the bus takes at once. */
  function TakenAtOnce(turns: seq<Turn>): (n: nat)
    ensures n <= |turns| && (forall k :: 0 <= k < n ==> turns[k].Accept?) && (n < |turns| ==> !turns[n].Accept?)
  {
    if turns == [] || !turns[0].Accept? then 0 else 1 + TakenAtOnce(turns[1..])
  }

  /** Why a send the bus does not take at once fails. */
  function Refusal(t: Turn): SendError
    requires !t.Accept?
  {
    ErrBus(if t.Full? then Client.ErrWouldBlock else t.why)
  }

  /** A full ring that a sender waits out: its context is not done and the host is the same. */
  predicate Waits(t: Turn) { t == Full(false, false) }

  function AfterWaits(turns: seq<Turn>): (later: seq<Turn>)
    ensures |later| <= |turns|
    ensures later != [] ==> !Waits(later[0])
  {
    if turns != [] && Waits(turns[0]) then AfterWaits(turns[1..]) else turns
  }

  /** What a waiting sender passes over is full rings with the context not done and the host the same. */
  lemma {:induction false} OnlyFullRingsAreWaitedOut(turns: seq<Turn>)
    ensures var later, n := AfterWaits(turns), |turns| - |AfterWaits(turns)|;
      && later == turns[n..] && (forall k :: 0 <= k < n ==> turns[k] == Full(false, false))
      && (later != [] ==> later[0] != Full(false, false))
  {
    if turns != [] && Waits(turns[0]) {
      OnlyFullRingsAreWaitedOut(turns[1..]);
    }
  }

  /** n sends in a row are taken, each after any number of waits. */
  predicate TakenInTime(turns: seq<Turn>, n: nat)
    decreases n
  {
    n == 0 || (AfterWaits(turns) != [] && AfterWaits(turns)[0].Accept? && TakenInTime(AfterWaits(turns)[1..], n - 1))
  }

  /** What the bus still has to answer once n sends were taken in time. */
  function AfterTaken(turns: seq<Turn>, n: nat): seq<Turn>
    decreases n
  {
    if n == 0 || AfterWaits(turns) == [] then turns else AfterTaken(AfterWaits(turns)[1..], n - 1)
  }

  function WithoutWaits(turns: seq<Turn>): seq<Turn> {
    if turns == [] then [] else (if Waits(turns[0]) then [] else [turns[0]]) + WithoutWaits(turns[1..])
  }

  lemma {:induction false} WaitsDropOut(turns: seq<Turn>)
    ensures WithoutWaits(AfterWaits(turns)) == WithoutWaits(turns)
  {
    if turns != [] && Waits(turns[0]) { WaitsDropOut(turns[1..]); }
  }

  /** Waits make no difference to whether n sends are taken, however many there are and wherever:
      without them, the first n answers must be acceptances. */
  lemma {:induction false} WaitsMakeNoDifference(turns: seq<Turn>, n: nat)
    ensures TakenInTime(turns, n) <==> TakenAtOnce(WithoutWaits(turns)) >= n
    decreases n
  {
    hide AfterWaits, TakenInTime, WithoutWaits, TakenAtOnce, Waits;
    var later := AfterWaits(turns);
    WaitsDropOut(turns);
    if n == 0 {
      NoneToTake(turns);
    } else {
      OneMoreTaken(turns, n);
      if later == [] {
        NothingIsTaken();
      } else {
        FirstStays(later);
        if later[0].Accept? { WaitsMakeNoDifference(later[1..], n - 1); }
      }
    }
  }

  lemma NoneToTake(turns: seq<Turn>)
    ensures TakenInTime(turns, 0)
  {}

  lemma NothingIsTaken()
    ensures TakenAtOnce(WithoutWaits([])) == 0
  {}

  lemma OneMoreTaken(turns: seq<Turn>, n: nat)
    requires n > 0
    ensures var later := AfterWaits(turns);
      TakenInTime(turns, n) <==> later != [] && later[0].Accept? && TakenInTime(later[1..], n - 1)
  {
    hide AfterWaits;
  }

  lemma FirstStays(turns: seq<Turn>)
    requires turns != [] && !Waits(turns[0])
    ensures WithoutWaits(turns) == [turns[0]] + WithoutWaits(turns[1..])
    ensures TakenAtOnce(WithoutWaits(turns)) == if turns[0].Accept? then 1 + TakenAtOnce(WithoutWaits(turns[1..])) else 0
  {
    assert ([turns[0]] + WithoutWaits(turns[1..]))[1..] == WithoutWaits(turns[1..]);
  }

  function OfferedPacket(pattern: u16, kind: u32, corr: u64, payload: seq<byte>, more: bool): Packet
    requires pattern == F_REQUEST || pattern == F_REPLY
  {
    var flags := if more then pattern + F_MORE else pattern;
    Packet(kind, corr, if payload == [] then flags else Client.WithInline(flags), payload)
  }

  /** The narrow outbound surface of a client. The answers to come are fixed in advance; once
      they run out the bus stays full and a waiting sender finds its context done. */
  class Port {
    const budget: u32
    var sent: seq<Packet>
    var turns: seq<Turn>

    constructor (budget: u32, turns: seq<Turn>)
      ensures this.budget == budget && this.turns == turns && sent == []
    {
      this.budget, this.turns, this.sent := budget, turns, [];
    }

    /** Offers one fragment. Correlation 0 and an empty fragment with more to follow are
        refused before the ring is tried. */
    method Offer(pattern: u16, kind: u32, corr: u64, payload: seq<byte>, more: bool) returns (t: Turn)
      requires pattern == F_REQUEST || pattern == F_REPLY
      modifies this
      ensures corr == 0 || (more && payload == []) ==> t == Fail(Client.ErrProtocol) && turns == old(turns)
      ensures corr != 0 && (more ==> payload != []) ==> t == NextTurn(old(turns)) && turns == LaterTurns(old(turns))
      ensures t.Accept? ==> corr != 0 && (more ==> payload != [])
      ensures t.Accept? ==> sent == old(sent) + [OfferedPacket(pattern, kind, corr, payload, more)]
      ensures !t.Accept? ==> sent == old(sent)
      ensures t.Accept? || (t.Full? && !t.contextDone) ==> |turns| < |old(turns)|
      ensures |turns| <= |old(turns)|
    {
      if corr == 0 || (more && payload == []) {
        return Fail(Client.ErrProtocol);
      }
      if turns == [] {
        return Full(true, false);
      }
      t := turns[0];
      turns := turns[1..];
      if t.Accept? {
        sent := sent + [OfferedPacket(pattern, kind, corr, payload, more)];
      }
    }

    /** Offers a cancel; correlation 0 is refused before the ring is tried. */
    method OfferCancel(kind: u32, corr: u64) returns (t: Turn)
      modifies this
      ensures corr == 0 ==> t == Fail(Client.ErrProtocol) && turns == old(turns)
      ensures corr != 0 ==> t == NextTurn(old(turns)) && turns == LaterTurns(old(turns))
      ensures t.Accept? ==> sent == old(sent) + [Packet(kind, corr, F_CANCEL, [])]
      ensures !t.Accept? ==> sent == old(sent)
    {
      if corr == 0 {
        return Fail(Client.ErrProtocol);
      }
      if turns == [] {
        return Full(true, false);
      }
      t := turns[0];
      turns := turns[1..];
      if t.Accept? {
        sent := sent + [Packet(kind, corr, F_CANCEL, [])];
      }
    }
  }
}
