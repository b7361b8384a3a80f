/** The bus frame codec: a fixed 64-byte little-endian header with validity rules. */
module Wire {
  import opened Bytes

  const WIRE_MAGIC: u32 := 0x3053_5542
  const WIRE_VERSION: u16 := 3
  const HDR_LEN := 64
  const MAX_PAYLOAD: u32 := 0x10_0000

  // Header flags, one bit each.
  const F_INLINE: u16 := 0x01
  const F_ARENA: u16 := 0x02
  const F_NOTIFICATION: u16 := 0x04
  const F_REQUEST: u16 := 0x08
  const F_REPLY: u16 := 0x10
  const F_CANCEL: u16 := 0x20
  const F_MORE: u16 := 0x80
  const KNOWN_LIMIT: u16 := 0x100 // every bit below it is a known flag

  const KIND_ERROR: u32 := 3
  const KIND_CAPABILITY_ABSENT: u32 := 4

  datatype WireResult =
    | Ok | ErrShort | ErrMagic | ErrVersion | ErrFlags | ErrPayloadLen | ErrCorrelation

  datatype Frame = Frame(
    flags: u16, wireVersion: u16, eventKind: u32, principalRef: u32,
    correlation: u64, seqNo: u64, logicalTs: u64, payloadRef: u64,
    payloadLen: u32, srcHandle: u32, dstHandle: u32, generation: u32)
  {
    /** Whether the flag with the given single-bit value is set. */
    predicate Has(flag: u16)
      requires flag > 0
    {
      flags / flag % 2 == 1
    }

    /** The number of message-pattern bits set; exactly one is legal. */
    function PatternBits(): nat {
      (flags / F_NOTIFICATION % 2) + (flags / F_REQUEST % 2) +
      (flags / F_REPLY % 2) + (flags / F_CANCEL % 2)
    }

    function PlacementBits(): nat {
      (flags / F_INLINE % 2) + (flags / F_ARENA % 2)
    }

    function Validate(): WireResult {
      if wireVersion != WIRE_VERSION then ErrVersion
      else if flags >= KNOWN_LIMIT || PatternBits() != 1 then ErrFlags
      else if payloadLen > 0 && PlacementBits() != 1 then ErrFlags
      else if payloadLen > 0 && payloadLen > MAX_PAYLOAD then ErrPayloadLen
      else if payloadLen == 0 && PlacementBits() != 0 then ErrFlags
      else if payloadLen == 0 && payloadRef != 0 then ErrPayloadLen
      else if Has(F_MORE) && ((!Has(F_REQUEST) && !Has(F_REPLY)) || !Has(F_INLINE) || Has(F_ARENA) || payloadLen == 0)
      then ErrFlags
      else if !Has(F_ARENA) && generation != 0 then ErrFlags
      else if Has(F_NOTIFICATION) then (if correlation != 0 then ErrCorrelation else Ok)
      else if correlation == 0 then ErrCorrelation
      else Ok
    }

    /** Bounds a payload reference against live geometry; the sum wraps at 64 bits. */
    function CheckPlacement(slotSize: u32, arenaSize: u64): WireResult {
      if Validate() != Ok then Validate()
      else if payloadLen == 0 then Ok
      else if Has(F_INLINE) then
        var end := (payloadRef + payloadLen) % TWO_64;
        if end < payloadRef || payloadRef < HDR_LEN || end > slotSize then ErrPayloadLen else Ok
      else if payloadLen > arenaSize then ErrPayloadLen
      else Ok
    }
  }

  /** Flags put together from one message pattern, at most one placement, inline or arena, and
      perhaps control and more to follow. */
  predicate FlagsShaped(flags: u16, pattern: u16, placement: u16, control: u16, more: u16) {
    && flags == placement + pattern + control + more
    && (pattern == 0x04 || pattern == 0x08 || pattern == 0x10 || pattern == 0x20)
    && (placement == 0 || placement == 0x01 || placement == 0x02) && (control == 0 || control == 0x40) && (more == 0 || more == 0x80)
  }

  /** A legal frame put together: a placement exactly when there is a payload, of at most 1 MiB; more
      to follow for inline requests and replies only; a generation for arena frames only; and no
      correlation for notifications only. */
  predicate Shaped(f: Frame, pattern: u16, placement: u16, control: u16, more: u16) {
    && f.wireVersion == 3 && FlagsShaped(f.flags, pattern, placement, control, more)
    && (placement == 0 <==> f.payloadLen == 0) && f.payloadLen <= 0x10_0000 && (f.payloadLen == 0 ==> f.payloadRef == 0)
    && (more == 0x80 ==> (pattern == 0x08 || pattern == 0x10) && placement == 0x01)
    && (placement != 0x02 ==> f.generation == 0) && (pattern == 0x04 <==> f.correlation == 0)
  }

  function Bit(flags: u16, bit: u16): (b: nat)
    requires bit > 0
    ensures b == 0 || b == 1
  {
    flags / bit % 2
  }

  lemma BitIs(flags: u16, bit: u16, low: nat, b: nat, high: nat)
    requires bit > 0 && low < bit && b <= 1 && flags == low + bit * (b + 2 * high)
    ensures Bit(flags, bit) == b
  {
    QuotientIs(flags, bit, b + 2 * high);
  }

  lemma Halve(n: nat) returns (half: nat, bit: nat)
    ensures n == bit + 2 * half && bit <= 1
  {
    half, bit := n / 2, n % 2;
  }

  lemma BitsOfByte(flags: u16)
    requires flags < 0x100
    ensures flags == Bit(flags, 1) + 2 * Bit(flags, 2) + 4 * Bit(flags, 4) + 8 * Bit(flags, 8)
      + 16 * Bit(flags, 16) + 32 * Bit(flags, 32) + 64 * Bit(flags, 64) + 128 * Bit(flags, 128)
  {
    hide Bit;
    var a, x := Halve(flags);
    var b, y := Halve(a);
    var c, z := Halve(b);
    var d, w := Halve(c);
    var e, v := Halve(d);
    var f, u := Halve(e);
    var g, t := Halve(f);
    BitIs(flags, 1, 0, x, a);
    BitIs(flags, 2, x, y, b);
    BitIs(flags, 4, x + 2 * y, z, c);
    BitIs(flags, 8, x + 2 * y + 4 * z, w, d);
    BitIs(flags, 16, x + 2 * y + 4 * z + 8 * w, v, e);
    BitIs(flags, 32, x + 2 * y + 4 * z + 8 * w + 16 * v, u, f);
    BitIs(flags, 64, x + 2 * y + 4 * z + 8 * w + 16 * v + 32 * u, t, g);
    BitIs(flags, 128, x + 2 * y + 4 * z + 8 * w + 16 * v + 32 * u + 64 * t, g, 0);
  }

  function One(yes: bool): (n: nat) { if yes then 1 else 0 }

  lemma LowBits(flags: u16, pattern: u16, placement: u16, control: u16, more: u16)
    requires FlagsShaped(flags, pattern, placement, control, more)
    ensures flags < KNOWN_LIMIT && Bit(flags, 1) == One(placement == 0x01) && Bit(flags, 2) == One(placement == 0x02)
    ensures Bit(flags, 128) == One(more == 0x80)
  {
    hide Bit;
    var rest := One(pattern == 4) + 2 * One(pattern == 8) + 4 * One(pattern == 16) + 8 * One(pattern == 32)
      + 16 * One(control == 0x40) + 32 * One(more == 0x80);
    BitIs(flags, 1, 0, One(placement == 1), One(placement == 2) + 2 * rest);
    BitIs(flags, 2, One(placement == 1), One(placement == 2), rest);
    BitIs(flags, 128, placement + pattern + control, One(more == 0x80), 0);
  }

  lemma PatternBits(flags: u16, pattern: u16, placement: u16, control: u16, more: u16)
    requires FlagsShaped(flags, pattern, placement, control, more)
    ensures Bit(flags, 4) == One(pattern == 4) && Bit(flags, 8) == One(pattern == 8)
    ensures Bit(flags, 16) == One(pattern == 16) && Bit(flags, 32) == One(pattern == 32)
  {
    hide Bit;
    var a, b, c, d := One(pattern == 4), One(pattern == 8), One(pattern == 16), One(pattern == 32);
    var rest := One(control == 0x40) + 2 * One(more == 0x80);
    BitIs(flags, 4, placement, a, b + 2 * c + 4 * d + 8 * rest);
    BitIs(flags, 8, placement + 4 * a, b, c + 2 * d + 4 * rest);
    BitIs(flags, 16, placement + 4 * a + 8 * b, c, d + 2 * rest);
    BitIs(flags, 32, placement + 4 * a + 8 * b + 16 * c, d, rest);
  }

  /** A sum of parts with disjoint bits shows them as its bits. */
  lemma BitsOfParts(f: Frame, pattern: u16, placement: u16, control: u16, more: u16)
    requires FlagsShaped(f.flags, pattern, placement, control, more)
    ensures f.flags < KNOWN_LIMIT && f.PatternBits() == 1
    ensures f.PlacementBits() == (if placement == 0 then 0 else 1)
    ensures f.Has(F_INLINE) == (placement == 0x01) && f.Has(F_ARENA) == (placement == 0x02) && f.Has(F_MORE) == (more == 0x80)
    ensures f.Has(F_NOTIFICATION) == (pattern == 0x04) && f.Has(F_REQUEST) == (pattern == 0x08) && f.Has(F_REPLY) == (pattern == 0x10)
  {
    LowBits(f.flags, pattern, placement, control, more);
    PatternBits(f.flags, pattern, placement, control, more);
    hide FlagsShaped;
  }

  lemma PartsOfBits(f: Frame) returns (pattern: u16, placement: u16, control: u16, more: u16)
    requires f.flags < KNOWN_LIMIT && f.PatternBits() == 1 && f.PlacementBits() <= 1
    ensures FlagsShaped(f.flags, pattern, placement, control, more)
  {
    BitsOfByte(f.flags);
    pattern := 4 * Bit(f.flags, 4) + 8 * Bit(f.flags, 8) + 16 * Bit(f.flags, 16) + 32 * Bit(f.flags, 32);
    placement := Bit(f.flags, 1) + 2 * Bit(f.flags, 2);
    control, more := 64 * Bit(f.flags, 64), 128 * Bit(f.flags, 128);
  }

  /** Validation accepts exactly the frames that can be put together so. */
  lemma ValidIff(f: Frame)
    ensures f.Validate() == Ok <==> exists pattern, placement, control, more :: Shaped(f, pattern, placement, control, more)
  {
    if f.Validate() == Ok {
      var pattern, placement, control, more := PartsOfBits(f);
      BitsOfParts(f, pattern, placement, control, more);
      hide FlagsShaped;
      assert Shaped(f, pattern, placement, control, more);
    }
    if pattern, placement, control, more :| Shaped(f, pattern, placement, control, more) {
      BitsOfParts(f, pattern, placement, control, more);
    }
  }

  /** The flags are legal, and the length or the reference is not one they can have: a reference
      without a payload, or a payload beyond the limit. */
  ghost predicate PayloadUnfit(f: Frame) {
    exists pattern, placement, control, more :: FlagsShaped(f.flags, pattern, placement, control, more)
      && if placement == 0 then f.payloadLen == 0 && f.payloadRef != 0 else f.payloadLen > 0x10_0000
  }

  /** Why a frame is rejected: another version before all else, an unfit payload, a correlation when
      nothing but it is wrong, and its flags otherwise. */
  lemma WhyRejected(f: Frame)
    ensures f.Validate() == ErrVersion <==> f.wireVersion != 3
    ensures f.Validate() == ErrPayloadLen <==> f.wireVersion == 3 && PayloadUnfit(f)
    ensures f.Validate() == ErrCorrelation <==>
      f.Validate() != Ok && (f.(correlation := 0).Validate() == Ok || f.(correlation := 1).Validate() == Ok)
    ensures f.Validate() in {Ok, ErrVersion, ErrFlags, ErrPayloadLen, ErrCorrelation}
  {
    if f.Validate() == ErrPayloadLen {
      var pattern, placement, control, more := PartsOfBits(f);
      BitsOfParts(f, pattern, placement, control, more);
      hide FlagsShaped;
      assert PayloadUnfit(f);
    }
    if PayloadUnfit(f) {
      var pattern, placement, control, more :| FlagsShaped(f.flags, pattern, placement, control, more)
        && if placement == 0 then f.payloadLen == 0 && f.payloadRef != 0 else f.payloadLen > 0x10_0000;
      BitsOfParts(f, pattern, placement, control, more);
    }
  }

  datatype Decoded = Frame(frame: Frame) | Rejected(why: WireResult)

  /** The four header rows: identity, correlation clock, payload, routing. */
  function Row0(f: Frame): (s: seq<byte>) ensures |s| == 16 {
    ToLE(WIRE_MAGIC, 4) + ToLE(f.flags, 2) + ToLE(f.wireVersion, 2) + ToLE(f.eventKind, 4) + ToLE(f.principalRef, 4)
  }

  function Row1(f: Frame): (s: seq<byte>) ensures |s| == 32 {
    ToLE(f.correlation, 8) + ToLE(f.seqNo, 8) + ToLE(f.logicalTs, 8) + ToLE(f.payloadRef, 8)
  }

  function Row2(f: Frame): (s: seq<byte>) ensures |s| == 16 {
    ToLE(f.payloadLen, 4) + ToLE(f.srcHandle, 4) + ToLE(f.dstHandle, 4) + ToLE(f.generation, 4)
  }

  function Header(f: Frame): (s: seq<byte>)
    ensures |s| == HDR_LEN
  {
    Row0(f) + Row1(f) + Row2(f)
  }

  /** The frame whose fields stand in the first 64 bytes, before validation. */
  function Parse(b: seq<byte>): Frame
    requires |b| >= HDR_LEN
  {
    Pow256Values();
    Frame.Frame(
      Field(b, 4, 2), Field(b, 6, 2), Field(b, 8, 4), Field(b, 12, 4),
      Field(b, 16, 8), Field(b, 24, 8), Field(b, 32, 8), Field(b, 40, 8),
      Field(b, 48, 4), Field(b, 52, 4), Field(b, 56, 4), Field(b, 60, 4))
  }

  function Decode(b: seq<byte>): Decoded {
    if |b| < HDR_LEN then Rejected(ErrShort)
    else if Field(b, 0, 4) != WIRE_MAGIC then Rejected(ErrMagic)
    else if Parse(b).Validate() != Ok then Rejected(Parse(b).Validate())
    else Decoded.Frame(Parse(b))
  }

  /** The bytes b start with the header of f, field by field. */
  ghost predicate Carries(b: seq<byte>, f: Frame) {
    |b| >= HDR_LEN && b[..HDR_LEN] == Header(f)
  }

  lemma RowFields0(b: seq<byte>, f: Frame)
    requires |b| >= 16 && b[0..16] == Row0(f)
    ensures Field(b, 0, 4) == WIRE_MAGIC
    ensures Field(b, 4, 2) == f.flags
    ensures Field(b, 6, 2) == f.wireVersion
    ensures Field(b, 8, 4) == f.eventKind
    ensures Field(b, 12, 4) == f.principalRef
  {
    hide ToLE, FromLE;
    Pow256Values();
    var l1 := ToLE(WIRE_MAGIC, 4);
    var l2 := l1 + ToLE(f.flags, 2);
    var l3 := l2 + ToLE(f.wireVersion, 2);
    var l4 := l3 + ToLE(f.eventKind, 4);
    PeelLast(b, 0, l4, f.principalRef, 4);
    PeelLast(b, 0, l3, f.eventKind, 4);
    PeelLast(b, 0, l2, f.wireVersion, 2);
    PeelLast(b, 0, l1, f.flags, 2);
    DecodeEncode(WIRE_MAGIC, 4);
  }

  lemma RowFields1(b: seq<byte>, f: Frame)
    requires |b| >= 48 && b[16..48] == Row1(f)
    ensures Field(b, 16, 8) == f.correlation
    ensures Field(b, 24, 8) == f.seqNo
    ensures Field(b, 32, 8) == f.logicalTs
    ensures Field(b, 40, 8) == f.payloadRef
  {
    hide ToLE, FromLE;
    Pow256Values();
    var l1 := ToLE(f.correlation, 8);
    var l2 := l1 + ToLE(f.seqNo, 8);
    var l3 := l2 + ToLE(f.logicalTs, 8);
    PeelLast(b, 16, l3, f.payloadRef, 8);
    PeelLast(b, 16, l2, f.logicalTs, 8);
    PeelLast(b, 16, l1, f.seqNo, 8);
    DecodeEncode(f.correlation, 8);
  }

  lemma RowFields2(b: seq<byte>, f: Frame)
    requires |b| >= 64 && b[48..64] == Row2(f)
    ensures Field(b, 48, 4) == f.payloadLen
    ensures Field(b, 52, 4) == f.srcHandle
    ensures Field(b, 56, 4) == f.dstHandle
    ensures Field(b, 60, 4) == f.generation
  {
    hide ToLE, FromLE;
    Pow256Values();
    var l1 := ToLE(f.payloadLen, 4);
    var l2 := l1 + ToLE(f.srcHandle, 4);
    var l3 := l2 + ToLE(f.dstHandle, 4);
    PeelLast(b, 48, l3, f.generation, 4);
    PeelLast(b, 48, l2, f.dstHandle, 4);
    PeelLast(b, 48, l1, f.srcHandle, 4);
    DecodeEncode(f.payloadLen, 4);
  }

  /** Decoding an encoded frame gives it back: the header loses nothing. */
  lemma ParseOfHeader(b: seq<byte>, f: Frame)
    requires Carries(b, f)
    ensures Pow256(4) > WIRE_MAGIC && Field(b, 0, 4) == WIRE_MAGIC && Parse(b) == f
  {
    Pow256Values();
    assert b[0..16] == b[..HDR_LEN][0..16] == Row0(f);
    assert b[16..48] == b[..HDR_LEN][16..48] == Row1(f);
    assert b[48..64] == b[..HDR_LEN][48..64] == Row2(f);
    RowFields0(b, f); RowFields1(b, f); RowFields2(b, f);
  }

  /** Decode returns f exactly when f is valid and the first 64 bytes are its header. */
  lemma DecodeIff(b: seq<byte>, f: Frame)
    ensures Decode(b) == Decoded.Frame(f) <==> f.Validate() == Ok && Carries(b, f)
  {
    if Carries(b, f) {
      ParseOfHeader(b, f);
    }
    if Decode(b) == Decoded.Frame(f) {
      HeaderOfParse(b);
    }
  }

  lemma Row0OfParse(b: seq<byte>)
    requires |b| >= HDR_LEN && Field(b, 0, 4) == WIRE_MAGIC
    ensures b[0..16] == Row0(Parse(b))
  {
    hide ToLE, FromLE;
    Pow256Values();
    EncodeDecode(b[0..4]);
    var l1 := ToLE(Field(b, 0, 4), 4);
    JoinNext(b, 0, l1, 2);
    var l2 := l1 + ToLE(Field(b, 4, 2), 2);
    JoinNext(b, 0, l2, 2);
    var l3 := l2 + ToLE(Field(b, 6, 2), 2);
    JoinNext(b, 0, l3, 4);
    var l4 := l3 + ToLE(Field(b, 8, 4), 4);
    JoinNext(b, 0, l4, 4);
  }

  lemma Row1OfParse(b: seq<byte>)
    requires |b| >= HDR_LEN
    ensures b[16..48] == Row1(Parse(b))
  {
    hide ToLE, FromLE;
    Pow256Values();
    EncodeDecode(b[16..24]);
    var l1 := ToLE(Field(b, 16, 8), 8);
    JoinNext(b, 16, l1, 8);
    var l2 := l1 + ToLE(Field(b, 24, 8), 8);
    JoinNext(b, 16, l2, 8);
    var l3 := l2 + ToLE(Field(b, 32, 8), 8);
    JoinNext(b, 16, l3, 8);
  }

  lemma Row2OfParse(b: seq<byte>)
    requires |b| >= HDR_LEN
    ensures b[48..64] == Row2(Parse(b))
  {
    hide ToLE, FromLE;
    Pow256Values();
    EncodeDecode(b[48..52]);
    var l1 := ToLE(Field(b, 48, 4), 4);
    JoinNext(b, 48, l1, 4);
    var l2 := l1 + ToLE(Field(b, 52, 4), 4);
    JoinNext(b, 48, l2, 4);
    var l3 := l2 + ToLE(Field(b, 56, 4), 4);
    JoinNext(b, 48, l3, 4);
  }

  /** Re-encoding a parsed header reproduces its 64 bytes. */
  lemma HeaderOfParse(b: seq<byte>)
    requires |b| >= HDR_LEN && Field(b, 0, 4) == WIRE_MAGIC
    ensures b[..HDR_LEN] == Header(Parse(b))
  {
    Row0OfParse(b); Row1OfParse(b); Row2OfParse(b);
    assert b[..HDR_LEN] == b[0..16] + b[16..48] + b[48..64];
  }

  method PutRow0(f: Frame, out: array<byte>, at: nat)
    requires at + 16 <= out.Length
    modifies out
    ensures out[..] == Splice(old(out[..]), at, Row0(f))
  {
    ghost var s := out[..];
    Put(out, at, WIRE_MAGIC, 4);
    ghost var lead := ToLE(WIRE_MAGIC, 4);
    PutNext(out, s, at, lead, at + 4, f.flags, 2);
    lead := lead + ToLE(f.flags, 2);
    PutNext(out, s, at, lead, at + 6, f.wireVersion, 2);
    lead := lead + ToLE(f.wireVersion, 2);
    PutNext(out, s, at, lead, at + 8, f.eventKind, 4);
    lead := lead + ToLE(f.eventKind, 4);
    PutNext(out, s, at, lead, at + 12, f.principalRef, 4);
  }

  method PutRow1(f: Frame, out: array<byte>, at: nat)
    requires at + 32 <= out.Length
    modifies out
    ensures out[..] == Splice(old(out[..]), at, Row1(f))
  {
    ghost var s := out[..];
    Put(out, at, f.correlation, 8);
    ghost var lead := ToLE(f.correlation, 8);
    PutNext(out, s, at, lead, at + 8, f.seqNo, 8);
    lead := lead + ToLE(f.seqNo, 8);
    PutNext(out, s, at, lead, at + 16, f.logicalTs, 8);
    lead := lead + ToLE(f.logicalTs, 8);
    PutNext(out, s, at, lead, at + 24, f.payloadRef, 8);
  }

  method PutRow2(f: Frame, out: array<byte>, at: nat)
    requires at + 16 <= out.Length
    modifies out
    ensures out[..] == Splice(old(out[..]), at, Row2(f))
  {
    ghost var s := out[..];
    Put(out, at, f.payloadLen, 4);
    ghost var lead := ToLE(f.payloadLen, 4);
    PutNext(out, s, at, lead, at + 4, f.srcHandle, 4);
    lead := lead + ToLE(f.srcHandle, 4);
    PutNext(out, s, at, lead, at + 8, f.dstHandle, 4);
    lead := lead + ToLE(f.dstHandle, 4);
    PutNext(out, s, at, lead, at + 12, f.generation, 4);
  }

  /** Writes the header of f into the slice out[at..at+size]; an invalid frame or a
      short slice writes nothing and returns 0. */
  method Encode(f: Frame, out: array<byte>, at: nat, size: nat) returns (n: nat)
    requires at + size <= out.Length
    modifies out
    ensures n == if size >= HDR_LEN && f.Validate() == Ok then HDR_LEN else 0
    ensures out[..] == if n == 0 then old(out[..]) else Splice(old(out[..]), at, Header(f))
  {
    if size < HDR_LEN || f.Validate() != Ok {
      return 0;
    }
    ghost var before := out[..];
    Clear(out, at, HDR_LEN);
    ghost var s := out[..];
    PutRow0(f, out, at);
    PutRow1(f, out, at + 16);
    SpliceAdjacent(s, at, Row0(f), Row1(f));
    PutRow2(f, out, at + 48);
    SpliceAdjacent(s, at, Row0(f) + Row1(f), Row2(f));
    SpliceOver(before, at, Zeros(HDR_LEN), Header(f));
    n := HDR_LEN;
  }

  /** Where each field of a header stands, behind the four letters BUS0. */
  lemma HeaderLayout(f: Frame)
    ensures var h := Header(f);
      && h[0..4] == [0x42, 0x55, 0x53, 0x30]
      && h[4..6] == ToLE(f.flags, 2) && h[6..8] == ToLE(f.wireVersion, 2)
      && h[8..12] == ToLE(f.eventKind, 4) && h[12..16] == ToLE(f.principalRef, 4)
      && h[16..24] == ToLE(f.correlation, 8) && h[24..32] == ToLE(f.seqNo, 8)
      && h[32..40] == ToLE(f.logicalTs, 8) && h[40..48] == ToLE(f.payloadRef, 8)
      && h[48..52] == ToLE(f.payloadLen, 4) && h[52..56] == ToLE(f.srcHandle, 4)
      && h[56..60] == ToLE(f.dstHandle, 4) && h[60..64] == ToLE(f.generation, 4)
  {
    MagicLetters();
    hide ToLE;
    var h := Header(f);
    assert h[0..16] == Row0(f) && h[16..48] == Row1(f) && h[48..64] == Row2(f);
  }

  lemma MagicLetters()
    ensures ToLE(WIRE_MAGIC, 4) == [0x42, 0x55, 0x53, 0x30]
  {
    assert ToLE(0x30, 1) == [0x30] && ToLE(0x3053, 2) == [0x53, 0x30] && ToLE(0x3053_55, 3) == [0x55, 0x53, 0x30];
  }

  /** Why bytes are no frame: too few, without the magic letters in front, or else the frame they
      spell is invalid. */
  lemma WhyNotDecoded(b: seq<byte>)
    ensures Decode(b) == Rejected(ErrShort) <==> |b| < 64
    ensures Decode(b) == Rejected(ErrMagic) <==> |b| >= 64 && b[0..4] != [0x42, 0x55, 0x53, 0x30]
    ensures forall f: Frame :: Carries(b, f) && f.Validate() != Ok ==> Decode(b) == Rejected(f.Validate())
  {
    MagicLetters();
    if |b| >= 64 {
      FieldIs(b, 0, 4, WIRE_MAGIC);
      WhyRejected(Parse(b));
    }
    hide Frame.Validate, ToLE, FromLE, Carries;
    forall f: Frame | Carries(b, f) && f.Validate() != Ok ensures Decode(b) == Rejected(f.Validate()) {
      CarriedIs(b, f);
    }
  }

  lemma CarriedIs(b: seq<byte>, f: Frame)
    requires Carries(b, f)
    ensures |b| >= HDR_LEN && Field(b, 0, 4) == WIRE_MAGIC && Parse(b) == f
  {
    ParseOfHeader(b, f);
  }
}
