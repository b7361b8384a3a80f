/** An attached bus client: putting frames on the outbound ring and taking events off the
    inbound one, with the slot of the last event pinned until the next poll. */
module Client {
  import opened Bytes
  import opened Wire
  import opened Ring

  datatype BusError = NoError | ErrProtocol | ErrEpoch | ErrWouldBlock | ErrPayload

  /** What one inbound slot delivers. Fault is a payload reference whose 64-bit end wraps
      below its start and so passes the bound but not the slice. */
  datatype Delivery = Event(frame: Wire.Frame, payload: seq<byte>) | Dropped | Fault

  function Deliver(slot: seq<byte>, slotSize: nat): (d: Delivery)
    requires |slot| == slotSize
  {
    match Wire.Decode(slot)
    case Rejected(_) => Dropped
    case Frame(f) => PayloadOf(f, slot)
  }

  function PayloadOf(f: Wire.Frame, slot: seq<byte>): (d: Delivery) {
    var end := f.payloadRef + f.payloadLen;
    if f.Has(F_INLINE) && f.payloadLen > 0 && end % TWO_64 <= |slot| then
      if end < TWO_64 then Event(f, slot[f.payloadRef..end]) else Fault
    else Event(f, [])
  }

  /** A frame within the placement rules never faults, and its inline payload is delivered whole. */
  lemma PlacedNeverFaults(f: Wire.Frame, slot: seq<byte>, slotSize: u32, arenaSize: u64)
    requires |slot| == slotSize && f.CheckPlacement(slotSize, arenaSize) == Wire.Ok
    ensures PayloadOf(f, slot).Event?
    ensures |PayloadOf(f, slot).payload| == if f.Has(F_INLINE) then f.payloadLen else 0
  {
    assert f.Validate() == Wire.Ok;
    assert f.payloadLen == 0 ==> !f.Has(F_INLINE);
  }

  /** A valid inline frame's payload is delivered, whole, exactly when its unwrapped end lies in
      the slot, and is then the bytes it refers to; it faults exactly when that end lies past 2^64 and
      its wrapped end in the slot. */
  lemma DeliversWholeIff(f: Wire.Frame, slot: seq<byte>)
    requires |slot| < 0x1_0000_0000 && f.Validate() == Wire.Ok && f.Has(F_INLINE)
    ensures f.payloadRef + f.payloadLen <= |slot| <==> PayloadOf(f, slot).Event? && |PayloadOf(f, slot).payload| == f.payloadLen
    ensures f.payloadRef + f.payloadLen <= |slot| ==> PayloadOf(f, slot) == Event(f, slot[f.payloadRef..][..f.payloadLen])
    ensures PayloadOf(f, slot).Fault? <==> TWO_64 <= f.payloadRef + f.payloadLen <= TWO_64 + |slot|
  {
    assert f.payloadLen > 0;
    var end := f.payloadRef + f.payloadLen;
    assert end >= TWO_64 ==> end % TWO_64 == end - TWO_64;
  }

  /** Any other event is delivered without payload: one that is not inline, and an inline one that ends
      outside the slot and does not fault. */
  lemma DeliversNone(f: Wire.Frame, slot: seq<byte>)
    requires f.Validate() == Wire.Ok
    ensures !f.Has(F_INLINE) || (|slot| < f.payloadRef + f.payloadLen && f.payloadRef + f.payloadLen < TWO_64) ==>
      PayloadOf(f, slot) == Event(f, [])
    ensures |slot| < 0x1_0000_0000 && f.payloadRef + f.payloadLen > TWO_64 + |slot| ==> PayloadOf(f, slot) == Event(f, [])
  {
    var end := f.payloadRef + f.payloadLen;
    assert end >= TWO_64 ==> end % TWO_64 == end - TWO_64;
  }

  /** Such a frame exists for every slot size: a request whose two payload bytes start at the last
      address. */
  lemma FaultExample(slotSize: u32) returns (f: Wire.Frame, slot: seq<byte>)
    requires slotSize >= HDR_LEN
    ensures f.Validate() == Wire.Ok && f.payloadRef == TWO_64 - 1 && f.payloadLen == 2
    ensures |slot| == slotSize && Deliver(slot, slotSize) == Fault
  {
    f := Wire.Frame.Frame(F_REQUEST + F_INLINE, WIRE_VERSION, 5, 0, 1, 0, 0, TWO_64 - 1, 2, 0, 0, 0);
    slot := Wire.Header(f) + Zeros(slotSize - HDR_LEN);
    FaultIsValid(f);
    hide Wire.Header, Wire.Decode, Wire.Frame.Validate, Wire.Frame.Has, PayloadOf;
    assert slot[..HDR_LEN] == Wire.Header(f);
    DecodeIff(slot, f);
    DeliversWholeIff(f, slot);
  }

  lemma FaultIsValid(f: Wire.Frame)
    requires f == Wire.Frame.Frame(F_REQUEST + F_INLINE, WIRE_VERSION, 5, 0, 1, 0, 0, TWO_64 - 1, 2, 0, 0, 0)
    ensures f.Validate() == Wire.Ok && f.Has(F_INLINE)
  {}

  /** flags | FInline. */
  function WithInline(flags: u16): (r: u16)
  {
    if flags / F_INLINE % 2 == 1 then flags else flags + 1
  }

  /** The frame emit builds for a payload of n bytes. */
  function Built(flags: u16, kind: u32, corr: u64, handle: u32, n: u32): Wire.Frame {
    Wire.Frame.Frame(
      if n > 0 then WithInline(flags) else flags, WIRE_VERSION, kind, 0, corr, 0, 0,
      if n > 0 then HDR_LEN else 0, n, handle, 0, 0)
  }

  lemma BuiltCarriesPayload(flags: u16, kind: u32, corr: u64, handle: u32, n: u32)
    ensures var f := Built(flags, kind, corr, handle, n);
      f.payloadLen == n && (n > 0 ==> f.payloadRef == HDR_LEN && f.Has(F_INLINE))
  {}

  /** The pattern flags and payload rules the public senders pass to emit. */
  predicate Sendable(flags: u16, corr: u64, n: nat) {
    || (flags == F_NOTIFICATION && corr == 0)
    || (corr != 0 && (flags == F_REQUEST || flags == F_REPLY || (flags == F_CANCEL && n == 0)))
    || (corr != 0 && n > 0 && (flags == F_REQUEST + F_MORE || flags == F_REPLY + F_MORE))
  }

  /** Every frame a public sender builds within the geometry is valid and well placed, so the
      receiver's checks never reject it and its end never wraps. */
  lemma BuiltFramesArePlaced(flags: u16, kind: u32, corr: u64, handle: u32, n: u32, slotSize: u32, arenaSize: u64)
    requires Sendable(flags, corr, n) && n <= MAX_PAYLOAD && HDR_LEN + n <= slotSize
    ensures var f := Built(flags, kind, corr, handle, n);
      && f.Validate() == Wire.Ok && f.CheckPlacement(slotSize, arenaSize) == Wire.Ok
      && f.payloadRef + f.payloadLen < TWO_64
  {
    var f := Built(flags, kind, corr, handle, n);
    assert n > 0 ==> f.flags == flags + 1;
    assert f.PatternBits() == 1;
  }

  /** The outcome of emit, branch by branch. */
  function EmitOutcome(
    attached: bool, epochChanged: bool, full: bool, slotSize: u32, inlineBudget: u32,
    flags: u16, kind: u32, corr: u64, handle: u32, n: nat): BusError
  {
    if !attached then ErrProtocol
    else if n > 0 && (n % 0x1_0000_0000 > inlineBudget || HDR_LEN + n > slotSize) then ErrPayload
    else if epochChanged then ErrEpoch
    else if full then ErrWouldBlock
    else if slotSize < HDR_LEN || Built(flags, kind, corr, handle, n).Validate() != Wire.Ok then ErrProtocol
    else NoError
  }

  /** Within the geometry, a public sender fails only for a detached client, then an oversized
      payload, then a restarted host, then a full ring, each with its own error. */
  lemma SendableOutcome(
    attached: bool, epochChanged: bool, full: bool, slotSize: u32, inlineBudget: u32,
    flags: u16, kind: u32, corr: u64, handle: u32, n: nat)
    requires Sendable(flags, corr, n) && HDR_LEN <= slotSize && inlineBudget <= MAX_PAYLOAD
    ensures var e := EmitOutcome(attached, epochChanged, full, slotSize, inlineBudget, flags, kind, corr, handle, n);
      var fits := n == 0 || (n <= inlineBudget && 64 + n <= slotSize);
      && (e == ErrProtocol <==> !attached)
      && (e == ErrPayload <==> attached && !fits)
      && (e == ErrEpoch <==> attached && fits && epochChanged)
      && (e == ErrWouldBlock <==> attached && fits && !epochChanged && full)
      && (e == NoError <==> attached && fits && !epochChanged && !full)
  {
    if n <= MAX_PAYLOAD && HDR_LEN + n <= slotSize {
      BuiltFramesArePlaced(flags, kind, corr, handle, n, slotSize, 0);
    }
  }

  /** A slot that starts with the header of a built frame and then the payload delivers both. */
  lemma BuiltSlotDelivers(slot: seq<byte>, slotSize: u32, f: Wire.Frame, payload: seq<byte>)
    requires |slot| == slotSize && HDR_LEN + |payload| <= slotSize
    requires f.Validate() == Wire.Ok && slot[..HDR_LEN] == Wire.Header(f)
    requires f.payloadLen == |payload| && slot[HDR_LEN..HDR_LEN + |payload|] == payload
    requires payload != [] ==> f.Has(F_INLINE) && f.payloadRef == HDR_LEN
    ensures Deliver(slot, slotSize) == Event(f, payload)
  {
    hide Wire.Decode, Wire.Header;
    DecodeIff(slot, f);
  }

  /** The rings lie in different mappings, or apart in one. */
  ghost predicate Apart(a: SharedRing, b: SharedRing) {
    a.mem != b.mem || a.base + Need(a.slotSize, a.capacity) <= b.base || b.base + Need(b.slotSize, b.capacity) <= a.base
  }

  class Client {
    const handle: u32
    const slotSize: u32
    const inlineBudget: u32
    const attachedEpoch: u64
    const attached: bool
    const outbound: SharedRing
    const inbound: SharedRing
    var pendingRead: bool

    ghost predicate Valid()
      reads this, outbound, inbound, inbound.mem
    {
      && outbound.Valid() && inbound.Valid()
      && outbound.slotSize == slotSize && inbound.slotSize == slotSize
      && outbound != inbound && Apart(outbound, inbound)
      && (pendingRead ==> inbound.Contents() != [])
    }

    constructor (handle: u32, inlineBudget: u32, epoch: u64, outbound: SharedRing, inbound: SharedRing)
      requires outbound.Valid() && inbound.Valid() && outbound.slotSize == inbound.slotSize
      requires outbound != inbound && Apart(outbound, inbound)
      ensures Valid() && !pendingRead && attached && this.outbound == outbound && this.inbound == inbound
      ensures this.inlineBudget == inlineBudget && attachedEpoch == epoch && this.handle == handle
    {
      this.handle, this.slotSize, this.inlineBudget := handle, outbound.slotSize, inlineBudget;
      this.attachedEpoch, this.attached := epoch, true;
      this.outbound, this.inbound, this.pendingRead := outbound, inbound, false;
    }

    /** The inbound slots not yet delivered: a pinned slot has been. */
    ghost function Unread(): seq<seq<byte>>
      requires Valid()
      reads this, outbound, inbound, inbound.mem
    {
      if pendingRead then inbound.Contents()[1..] else inbound.Contents()
    }

    /** Builds a frame and its payload in the free outbound slot and publishes it; any failure
        leaves the queue as it was. epoch is the host epoch read during the call. */
    method Emit(flags: u16, kind: u32, corr: u64, payload: seq<byte>, epoch: u64) returns (err: BusError)
      requires Valid()
      modifies outbound`head, outbound.mem
      ensures Valid()
      ensures err == EmitOutcome(attached, epoch != attachedEpoch, |old(outbound.Contents())| == outbound.capacity,
        slotSize, inlineBudget, flags, kind, corr, handle, |payload|)
      ensures err != NoError ==> outbound.Contents() == old(outbound.Contents()) && outbound.head == old(outbound.head)
      ensures inbound.Contents() == old(inbound.Contents())
      ensures err == NoError ==> Sent(old(outbound.Contents()), outbound.Contents(), flags, kind, corr, handle, payload)
    {
      hide Window, SlotOffset, SlotsFrom, Need, Deliver, Built;
      if !attached {
        return ErrProtocol;
      }
      if |payload| > 0 && (|payload| % 0x1_0000_0000 > inlineBudget || HDR_LEN + |payload| > slotSize) {
        return ErrPayload;
      }
      if epoch != attachedEpoch {
        return ErrEpoch;
      }
      BuiltCarriesPayload(flags, kind, corr, handle, |payload|);
      ghost var before := outbound.mem[..];
      err := Transmit(outbound, Built(flags, kind, corr, handle, |payload|), payload);
      if outbound.mem == inbound.mem {
        ConfinedElsewhere(before, outbound.mem[..], outbound.base, Need(outbound.slotSize, outbound.capacity),
          inbound.base, Need(inbound.slotSize, inbound.capacity));
      }
    }

    method Publish(kind: u32, payload: seq<byte>, epoch: u64) returns (err: BusError)
      requires Valid()
      modifies outbound`head, outbound.mem
      ensures Valid()
      ensures err == EmitOutcome(attached, epoch != attachedEpoch, |old(outbound.Contents())| == outbound.capacity,
        slotSize, inlineBudget, F_NOTIFICATION, kind, 0, handle, |payload|)
      ensures err != NoError ==> outbound.Contents() == old(outbound.Contents())
      ensures err == NoError ==>
        Sent(old(outbound.Contents()), outbound.Contents(), F_NOTIFICATION, kind, 0, handle, payload)
    {
      err := Emit(F_NOTIFICATION, kind, 0, payload, epoch);
    }

    /** Sends one ordered fragment of a request (pattern FRequest) or of a reply (FReply). */
    method Fragment(pattern: u16, kind: u32, corr: u64, payload: seq<byte>, more: bool, epoch: u64) returns (err: BusError)
      requires Valid() && (pattern == F_REQUEST || pattern == F_REPLY)
      modifies outbound`head, outbound.mem
      ensures Valid()
      ensures corr == 0 || (more && payload == []) ==> err == ErrProtocol
      ensures corr != 0 && (more ==> payload != []) ==>
        err == EmitOutcome(attached, epoch != attachedEpoch, |old(outbound.Contents())| == outbound.capacity,
          slotSize, inlineBudget, if more then pattern + F_MORE else pattern, kind, corr, handle, |payload|)
      ensures err != NoError ==> outbound.Contents() == old(outbound.Contents())
      ensures err == NoError ==> corr != 0 && (more ==> payload != []) && Sent(old(outbound.Contents()),
        outbound.Contents(), if more then pattern + F_MORE else pattern, kind, corr, handle, payload)
    {
      if corr == 0 || (more && payload == []) {
        return ErrProtocol;
      }
      err := Emit(if more then pattern + F_MORE else pattern, kind, corr, payload, epoch);
    }

    method Cancel(kind: u32, corr: u64, epoch: u64) returns (err: BusError)
      requires Valid()
      modifies outbound`head, outbound.mem
      ensures Valid()
      ensures err == if corr == 0 then ErrProtocol
        else EmitOutcome(attached, epoch != attachedEpoch, |old(outbound.Contents())| == outbound.capacity,
          slotSize, inlineBudget, F_CANCEL, kind, corr, handle, 0)
      ensures err != NoError ==> outbound.Contents() == old(outbound.Contents())
      ensures err == NoError ==> corr != 0
      ensures err == NoError ==> Sent(old(outbound.Contents()), outbound.Contents(), F_CANCEL, kind, corr, handle, [])
    {
      if corr == 0 {
        return ErrProtocol;
      }
      err := Emit(F_CANCEL, kind, corr, [], epoch);
    }

    /** Releases the pinned slot, then takes the next one: an undecodable slot is dropped and
        reported as nothing, which does not mean the ring was empty. */
    method Poll(epoch: u64) returns (d: Delivery, ok: bool, err: BusError)
      requires Valid()
      modifies this`pendingRead, inbound`tail
      ensures Valid()
      ensures err == if !attached then ErrProtocol else if epoch != attachedEpoch then ErrEpoch else NoError
      ensures err != NoError || old(Unread()) == [] ==> !ok && Unread() == old(Unread())
      ensures err != NoError ==> pendingRead == old(pendingRead) && inbound.Contents() == old(inbound.Contents())
      ensures err == NoError ==> pendingRead == ok && inbound.Contents() == if ok then old(Unread()) else Unread()
      ensures err == NoError && old(Unread()) != [] ==>
        && |old(Unread())[0]| == slotSize
        && Unread() == old(Unread())[1..]
        && ok == !Deliver(old(Unread())[0], slotSize).Dropped?
        && (ok ==> d == Deliver(old(Unread())[0], slotSize) && pendingRead && inbound.Contents()[0] == old(Unread())[0])
    {
      hide SlotOffset, Need, Deliver, SlotsFrom, SlotIn, Window;
      d, ok := Dropped, false;
      if !attached {
        return d, ok, ErrProtocol;
      }
      if epoch != attachedEpoch {
        return d, ok, ErrEpoch;
      }
      if pendingRead {
        inbound.ConsumeCommit();
        pendingRead := false;
      }
      var some, at := inbound.ConsumeBegin();
      if !some {
        return d, ok, NoError;
      }
      d := Deliver(inbound.mem[at..at + slotSize], slotSize);
      if d.Dropped? {
        inbound.ConsumeCommit();
        return d, false, NoError;
      }
      pendingRead := true;
      return d, true, NoError;
    }
  }

  /** The queue gained one slot at its end, and that slot delivers d. */
  ghost predicate Appended(before: seq<seq<byte>>, after: seq<seq<byte>>, d: Delivery) {
    && |after| == |before| + 1 && after[..|before|] == before
    && Deliver(after[|before|], |after[|before|]|) == d
  }

  /** The queue gained exactly the frame built for this payload. */
  ghost predicate Sent(before: seq<seq<byte>>, after: seq<seq<byte>>, flags: u16, kind: u32, corr: u64, handle: u32, payload: seq<byte>) {
    |payload| < 0x1_0000_0000 && Appended(before, after, Event(Built(flags, kind, corr, handle, |payload|), payload))
  }

  /** Puts one frame on the ring, or leaves the ring's queue as it was. */
  method Transmit(r: SharedRing, f: Wire.Frame, payload: seq<byte>) returns (err: BusError)
    requires r.Valid()
    requires f.payloadLen == |payload| && (payload != [] ==> HDR_LEN + |payload| <= r.slotSize && f.payloadRef == HDR_LEN && f.Has(F_INLINE))
    modifies r`head, r.mem
    ensures r.Valid() && Confined(old(r.mem[..]), r.mem[..], r.base, Need(r.slotSize, r.capacity))
    ensures err == if |old(r.Contents())| == r.capacity then ErrWouldBlock
      else if r.slotSize < HDR_LEN || f.Validate() != Wire.Ok then ErrProtocol else NoError
    ensures err != NoError ==> r.Contents() == old(r.Contents()) && r.head == old(r.head)
    ensures err == NoError ==> Appended(old(r.Contents()), r.Contents(), Event(f, payload))
  {
    hide Window, SlotOffset, SlotsFrom, Need, Deliver;
    var ok, at := r.ProduceBegin();
    if !ok {
      return ErrWouldBlock;
    }
    var written := FillSlot(r, at, f, payload);
    if !written {
      return ErrProtocol;
    }
    ghost var slot := SlotIn(r.Image(), r.head, r.slotSize, r.capacity);
    r.ProduceCommit();
    assert r.Contents() == old(r.Contents()) + [slot];
    return NoError;
  }

  /** The slot at the head, not yet published, delivers d. */
  ghost predicate HeadDelivers(r: SharedRing, d: Delivery)
    requires r.Valid()
    reads r, r.mem
  {
    Delivers(SlotIn(r.Image(), r.head, r.slotSize, r.capacity), d)
  }

  /** Writes the frame and payload into the free slot at the head of r, which stays unpublished. */
  method FillSlot(r: SharedRing, at: nat, f: Wire.Frame, payload: seq<byte>) returns (written: bool)
    requires r.Valid() && |r.Contents()| < r.capacity
    requires at == r.base + SlotOffset(r.head, r.slotSize, r.capacity)
    requires f.payloadLen == |payload| && (payload != [] ==> HDR_LEN + |payload| <= r.slotSize && f.payloadRef == HDR_LEN && f.Has(F_INLINE))
    modifies r.mem
    ensures written <==> r.slotSize >= HDR_LEN && f.Validate() == Wire.Ok
    ensures r.Contents() == old(r.Contents()) && Confined(old(r.mem[..]), r.mem[..], r.base, Need(r.slotSize, r.capacity))
    ensures written ==> HeadDelivers(r, Event(f, payload))
  {
    hide SlotsFrom, Deliver, SlotOffset, Need, Window, Confined, Wire.Frame.Validate, Wire.Frame.Has;
    SlotInside(r.head, r.slotSize, r.capacity);
    ghost var before, image := r.mem[..], r.Image();
    written := WriteFrame(r.mem, at, r.slotSize, f, payload);
    ConfinedWider(before, r.mem[..], at, r.slotSize, r.base, |image|);
    WriteFromBase(before, r.mem[..], r.base, |image|, at - r.base, r.slotSize);
    KeepQueue(image, r.Image(), r.head, r.tail, at - r.base, r.slotSize, r.capacity);
  }

  /** Writes a frame and its payload into the size bytes at at, unless they are too few or the frame
      is not valid. */
  method WriteFrame(mem: array<byte>, at: nat, size: u32, f: Wire.Frame, payload: seq<byte>) returns (written: bool)
    requires at + size <= mem.Length
    requires f.payloadLen == |payload| && (payload != [] ==> HDR_LEN + |payload| <= size && f.payloadRef == HDR_LEN && f.Has(F_INLINE))
    modifies mem
    ensures written <==> size >= HDR_LEN && f.Validate() == Wire.Ok
    ensures Confined(old(mem[..]), mem[..], at, size)
    ensures written ==> Delivers(Window(mem[..], at, size), Event(f, payload))
  {
    hide Deliver, Wire.Header, Window, Splice;
    ghost var before := mem[..];
    var n := Wire.Encode(f, mem, at, size);
    if n != HDR_LEN {
      return false;
    }
    Copy(mem, at + HDR_LEN, payload);
    FilledSlot(before, mem[..], at, size, f, payload);
    return true;
  }

  ghost predicate Delivers(slot: seq<byte>, d: Delivery) {
    Deliver(slot, |slot|) == d
  }

  lemma WindowParts(m: seq<byte>, at: nat, size: nat, t: seq<byte>, u: seq<byte>)
    requires at + size <= |m| && |t| + |u| <= size && m[at..at + |t| + |u|] == t + u
    ensures Window(m, at, size)[..|t|] == t && Window(m, at, size)[|t|..|t| + |u|] == u
  {
    var run := m[at..at + |t| + |u|];
    assert Window(m, at, size)[..|t| + |u|] == run;
    assert Window(m, at, size)[..|t|] == run[..|t|];
    assert Window(m, at, size)[|t|..|t| + |u|] == m[at + |t|..at + |t| + |u|] == run[|t|..];
  }

  lemma FilledSlot(before: seq<byte>, after: seq<byte>, at: nat, slotSize: u32, f: Wire.Frame, payload: seq<byte>)
    requires at + slotSize <= |before| && HDR_LEN + |payload| <= slotSize
    requires f.Validate() == Wire.Ok && f.payloadLen == |payload|
    requires payload != [] ==> f.Has(F_INLINE) && f.payloadRef == HDR_LEN
    requires after == Splice(Splice(before, at, Wire.Header(f)), at + HDR_LEN, payload)
    ensures Deliver(Window(after, at, slotSize), slotSize) == Event(f, payload)
    ensures after[..at] == before[..at] && after[at + slotSize..] == before[at + slotSize..]
  {
    hide Deliver, Wire.Header, Window;
    var t := Wire.Header(f) + payload;
    SpliceAdjacent(before, at, Wire.Header(f), payload);
    SpliceFrame(before, at, t, slotSize);
    assert after == Splice(before, at, t);
    WindowParts(after, at, slotSize, Wire.Header(f), payload);
    BuiltSlotDelivers(Window(after, at, slotSize), slotSize, f, payload);
  }

  lemma SpliceFrame(s: seq<byte>, at: nat, t: seq<byte>, size: nat)
    requires at + size <= |s| && |t| <= size
    ensures Splice(s, at, t)[..at] == s[..at] && Splice(s, at, t)[at + size..] == s[at + size..]
    ensures Splice(s, at, t)[at..at + |t|] == t
  {}

  /** Filling the free slot at the head leaves the committed slots alone. */
  lemma KeepQueue(before: seq<byte>, after: seq<byte>, head: u64, tail: u64, at: nat, slotSize: u32, capacity: u32)
    requires Geometry(slotSize, capacity) && |before| == |after| && (head - tail) % TWO_64 < capacity
    requires at == SlotOffset(head, slotSize, capacity) && at + slotSize <= |before|
    requires Confined(before, after, at, slotSize)
    ensures var count := (head - tail) % TWO_64;
      SlotsFrom(after, tail, count, slotSize, capacity) == SlotsFrom(before, tail, count, slotSize, capacity)
  {
    var count := (head - tail) % TWO_64;
    hide SlotOffset, SlotsFrom;
    HeadFromTail(head, tail);
    SameSlot(tail + count, head, slotSize, capacity);
    FreeSlotWrite(before, after, tail, count, at, slotSize, capacity);
  }

  /** What the host finds in the slot of a frame a public sender put on the ring, byte by byte: the
      header in version 3 with the sender's handle and nothing in the fields the host fills, and then
      the payload. */
  lemma SentBytes(before: seq<seq<byte>>, after: seq<seq<byte>>, flags: u16, kind: u32, corr: u64, handle: u32, payload: seq<byte>)
    requires Sent(before, after, flags, kind, corr, handle, payload) && Sendable(flags, corr, |payload|)
    ensures var slot, n := after[|before|], |payload|;
      && |slot| >= 64 && slot[0..4] == [0x42, 0x55, 0x53, 0x30]
      && slot[4..6] == ToLE(if n > 0 then flags + 0x01 else flags, 2) && slot[6..8] == [3, 0]
      && slot[8..12] == ToLE(kind, 4) && slot[12..16] == ToLE(0, 4) && slot[16..24] == ToLE(corr, 8)
      && slot[24..32] == ToLE(0, 8) && slot[32..40] == ToLE(0, 8)
      && slot[40..48] == ToLE(if n > 0 then 64 else 0, 8) && slot[48..52] == ToLE(n, 4)
      && slot[52..56] == ToLE(handle, 4) && slot[56..60] == ToLE(0, 4) && slot[60..64] == ToLE(0, 4)
      && (n > 0 ==> 64 + n <= |slot| && slot[64..64 + n] == payload)
  {
    hide Wire.Header, Wire.Decode, ToLE, Wire.Frame.Validate;
    var slot, f := after[|before|], Built(flags, kind, corr, handle, |payload|);
    DecodeIff(slot, f);
    HeaderLayout(f);
    VersionBytes();
    HeadOfSlot(slot, Wire.Header(f));
  }

  lemma VersionBytes()
    ensures ToLE(3, 2) == [3, 0]
  {
    assert ToLE(0, 1) == [0];
  }

  lemma HeadOfSlot(slot: seq<byte>, h: seq<byte>)
    requires |h| == 64 <= |slot| && slot[..64] == h
    ensures forall i, j :: 0 <= i <= j <= 64 ==> slot[i..j] == h[i..j]
  {
    forall i, j | 0 <= i <= j <= 64 ensures slot[i..j] == h[i..j] {
      SliceOfHead(slot, i, j);
    }
  }

  lemma SliceOfHead(slot: seq<byte>, i: nat, j: nat)
    requires i <= j <= 64 <= |slot|
    ensures slot[..64][i..j] == slot[i..j]
  {}
}
