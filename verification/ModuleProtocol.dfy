/** The module payload envelope: a 40-byte header in front of a stage's body bytes. */
module ModuleProtocol {
  import opened Bytes

  const MESSAGE_MAGIC: u32 := 0x444f_4d41
  const MESSAGE_VERSION: u16 := 1
  const MESSAGE_HDR_LEN := 40
  const MAX_BODY: u32 := 0x100_0000

  const OP_INVOKE: u16 := 1
  const OP_RESULT: u16 := 2

  const STATUS_OK: u16 := 0
  const STATUS_CAPABILITY_ABSENT: u16 := 1
  const STATUS_CANCELLED: u16 := 2
  const STATUS_DEADLINE_EXCEEDED: u16 := 3
  const STATUS_INVALID_REQUEST: u16 := 4
  const STATUS_INTERNAL: u16 := 5

  predicate ValidStatus(status: u16) { status <= STATUS_INTERNAL }

  datatype Message = Message(
    operation: u16, status: u16, stageId: u32, flags: u32,
    bodyLen: u32, deadlineNs: u64, traceId: u64)
  {
    predicate Valid() {
      && (operation == OP_INVOKE || operation == OP_RESULT)
      && ValidStatus(status)
      && (operation == OP_INVOKE ==> status == STATUS_OK)
      && stageId != 0 && flags == 0 && bodyLen <= MAX_BODY
    }

    predicate DeadlineExpired(nowNs: u64) {
      deadlineNs != 0 && nowNs >= deadlineNs
    }
  }

  datatype DecodedMessage = Message(message: Message) | Malformed

  function Row0(m: Message): (s: seq<byte>) ensures |s| == 16 {
    ToLE(MESSAGE_MAGIC, 4) + ToLE(MESSAGE_VERSION, 2) + ToLE(MESSAGE_HDR_LEN, 2) +
    ToLE(m.operation, 2) + ToLE(m.status, 2) + ToLE(m.stageId, 4)
  }

  function Row1(m: Message): (s: seq<byte>) ensures |s| == 24 {
    ToLE(m.flags, 4) + ToLE(m.bodyLen, 4) + ToLE(m.deadlineNs, 8) + ToLE(m.traceId, 8)
  }

  function Header(m: Message): (s: seq<byte>)
    ensures |s| == MESSAGE_HDR_LEN
  {
    Row0(m) + Row1(m)
  }

  function Parse(b: seq<byte>): Message
    requires |b| >= MESSAGE_HDR_LEN
  {
    Pow256Values();
    Message.Message(
      Field(b, 8, 2), Field(b, 10, 2), Field(b, 12, 4), Field(b, 16, 4),
      Field(b, 20, 4), Field(b, 24, 8), Field(b, 32, 8))
  }

  predicate Marked(b: seq<byte>)
    requires |b| >= MESSAGE_HDR_LEN
  {
    Field(b, 0, 4) == MESSAGE_MAGIC && Field(b, 4, 2) == MESSAGE_VERSION && Field(b, 6, 2) == MESSAGE_HDR_LEN
  }

  function Decode(b: seq<byte>): (d: DecodedMessage)
    ensures d.Message? ==> |b| >= MESSAGE_HDR_LEN + d.message.bodyLen && d.message.Valid()
  {
    if |b| < MESSAGE_HDR_LEN || !Marked(b) then Malformed
    else if !Parse(b).Valid() || Parse(b).bodyLen > |b| - MESSAGE_HDR_LEN then Malformed
    else DecodedMessage.Message(Parse(b))
  }

  /** The body bytes a decoded payload delivers. */
  function Body(b: seq<byte>): (body: seq<byte>)
    requires Decode(b).Message?
    ensures |body| == Decode(b).message.bodyLen
  {
    b[MESSAGE_HDR_LEN..MESSAGE_HDR_LEN + Decode(b).message.bodyLen]
  }

  lemma RowFields0(b: seq<byte>, m: Message)
    requires |b| >= 16 && b[0..16] == Row0(m)
    ensures Field(b, 0, 4) == MESSAGE_MAGIC
    ensures Field(b, 4, 2) == MESSAGE_VERSION
    ensures Field(b, 6, 2) == MESSAGE_HDR_LEN
    ensures Field(b, 8, 2) == m.operation
    ensures Field(b, 10, 2) == m.status
    ensures Field(b, 12, 4) == m.stageId
  {
    hide ToLE, FromLE;
    Pow256Values();
    var l1 := ToLE(MESSAGE_MAGIC, 4);
    var l2 := l1 + ToLE(MESSAGE_VERSION, 2);
    var l3 := l2 + ToLE(MESSAGE_HDR_LEN, 2);
    var l4 := l3 + ToLE(m.operation, 2);
    var l5 := l4 + ToLE(m.status, 2);
    PeelLast(b, 0, l5, m.stageId, 4);
    PeelLast(b, 0, l4, m.status, 2);
    PeelLast(b, 0, l3, m.operation, 2);
    PeelLast(b, 0, l2, MESSAGE_HDR_LEN, 2);
    PeelLast(b, 0, l1, MESSAGE_VERSION, 2);
    DecodeEncode(MESSAGE_MAGIC, 4);
  }

  lemma RowFields1(b: seq<byte>, m: Message)
    requires |b| >= 40 && b[16..40] == Row1(m)
    ensures Field(b, 16, 4) == m.flags
    ensures Field(b, 20, 4) == m.bodyLen
    ensures Field(b, 24, 8) == m.deadlineNs
    ensures Field(b, 32, 8) == m.traceId
  {
    hide ToLE, FromLE;
    Pow256Values();
    var l1 := ToLE(m.flags, 4);
    var l2 := l1 + ToLE(m.bodyLen, 4);
    var l3 := l2 + ToLE(m.deadlineNs, 8);
    PeelLast(b, 16, l3, m.traceId, 8);
    PeelLast(b, 16, l2, m.deadlineNs, 8);
    PeelLast(b, 16, l1, m.bodyLen, 4);
    DecodeEncode(m.flags, 4);
  }

  lemma ParseOfHeader(b: seq<byte>, m: Message)
    requires |b| >= MESSAGE_HDR_LEN && b[..MESSAGE_HDR_LEN] == Header(m)
    ensures Marked(b) && Parse(b) == m
  {
    assert b[0..16] == b[..MESSAGE_HDR_LEN][0..16] == Row0(m);
    assert b[16..40] == b[..MESSAGE_HDR_LEN][16..40] == Row1(m);
    RowFields0(b, m);
    RowFields1(b, m);
  }

  lemma Row0OfParse(b: seq<byte>)
    requires |b| >= MESSAGE_HDR_LEN && Marked(b)
    ensures b[0..16] == Row0(Parse(b))
  {
    hide ToLE, FromLE;
    Pow256Values();
    EncodeDecode(b[0..4]);
    var l1 := ToLE(Field(b, 0, 4), 4);
    JoinNext(b, 0, l1, 2);
    var l2 := l1 + ToLE(Field(b, 4, 2), 2);
    JoinNext(b, 0, l2, 2);
    var l3 := l2 + ToLE(Field(b, 6, 2), 2);
    JoinNext(b, 0, l3, 2);
    var l4 := l3 + ToLE(Field(b, 8, 2), 2);
    JoinNext(b, 0, l4, 2);
    var l5 := l4 + ToLE(Field(b, 10, 2), 2);
    JoinNext(b, 0, l5, 4);
  }

  lemma Row1OfParse(b: seq<byte>)
    requires |b| >= MESSAGE_HDR_LEN
    ensures b[16..40] == Row1(Parse(b))
  {
    hide ToLE, FromLE;
    Pow256Values();
    EncodeDecode(b[16..20]);
    var l1 := ToLE(Field(b, 16, 4), 4);
    JoinNext(b, 16, l1, 4);
    var l2 := l1 + ToLE(Field(b, 20, 4), 4);
    JoinNext(b, 16, l2, 8);
    var l3 := l2 + ToLE(Field(b, 24, 8), 8);
    JoinNext(b, 16, l3, 8);
  }

  lemma HeaderOfParse(b: seq<byte>)
    requires |b| >= MESSAGE_HDR_LEN && Marked(b)
    ensures b[..MESSAGE_HDR_LEN] == Header(Parse(b))
  {
    Row0OfParse(b);
    Row1OfParse(b);
    assert b[..MESSAGE_HDR_LEN] == b[0..16] + b[16..40];
  }

  /** A payload decodes to m exactly when m invokes a stage, or is a result of one with one of the six
      statuses, its 40-byte header leads the payload, and the payload is long enough for the body of
      at most 16 MiB that the header announces. */
  lemma DecodeIff(b: seq<byte>, m: Message)
    ensures Decode(b) == DecodedMessage.Message(m) <==> (
      && m.stageId > 0 && m.flags == 0 && m.bodyLen <= 16 * 1024 * 1024
      && ((m.operation == 1 && m.status == 0) || (m.operation == 2 && m.status < 6))
      && |b| >= 40 + m.bodyLen && b[..40] == Header(m))
  {
    if |b| >= MESSAGE_HDR_LEN && b[..MESSAGE_HDR_LEN] == Header(m) {
      ParseOfHeader(b, m);
    }
    if Decode(b).Message? {
      HeaderOfParse(b);
    }
  }

  /** Round trip with a body: what a fragmenter writes is what the receiver delivers. */
  lemma EnvelopeRoundTrip(m: Message, body: seq<byte>)
    requires m.Valid() && |body| == m.bodyLen
    ensures Decode(Header(m) + body) == DecodedMessage.Message(m)
    ensures Body(Header(m) + body) == body
  {
    DecodeIff(Header(m) + body, m);
  }

  method PutRow0(m: Message, out: array<byte>, at: nat)
    requires at + 16 <= out.Length
    modifies out
    ensures out[..] == Splice(old(out[..]), at, Row0(m))
  {
    ghost var s := out[..];
    Put(out, at, MESSAGE_MAGIC, 4);
    ghost var lead := ToLE(MESSAGE_MAGIC, 4);
    PutNext(out, s, at, lead, at + 4, MESSAGE_VERSION, 2);
    lead := lead + ToLE(MESSAGE_VERSION, 2);
    PutNext(out, s, at, lead, at + 6, MESSAGE_HDR_LEN, 2);
    lead := lead + ToLE(MESSAGE_HDR_LEN, 2);
    PutNext(out, s, at, lead, at + 8, m.operation, 2);
    lead := lead + ToLE(m.operation, 2);
    PutNext(out, s, at, lead, at + 10, m.status, 2);
    lead := lead + ToLE(m.status, 2);
    PutNext(out, s, at, lead, at + 12, m.stageId, 4);
  }

  method PutRow1(m: Message, out: array<byte>, at: nat)
    requires at + 24 <= out.Length
    modifies out
    ensures out[..] == Splice(old(out[..]), at, Row1(m))
  {
    ghost var s := out[..];
    Put(out, at, m.flags, 4);
    ghost var lead := ToLE(m.flags, 4);
    PutNext(out, s, at, lead, at + 4, m.bodyLen, 4);
    lead := lead + ToLE(m.bodyLen, 4);
    PutNext(out, s, at, lead, at + 8, m.deadlineNs, 8);
    lead := lead + ToLE(m.deadlineNs, 8);
    PutNext(out, s, at, lead, at + 16, m.traceId, 8);
  }

  /** Writes the header of m at out[at..at+size]; a short slice or invalid message is refused untouched. */
  method Encode(m: Message, out: array<byte>, at: nat, size: nat) returns (n: nat, ok: bool)
    requires at + size <= out.Length
    modifies out
    ensures ok == (size >= MESSAGE_HDR_LEN && m.Valid())
    ensures n == if ok then MESSAGE_HDR_LEN else 0
    ensures out[..] == if ok then Splice(old(out[..]), at, Header(m)) else old(out[..])
  {
    if size < MESSAGE_HDR_LEN || !m.Valid() {
      return 0, false;
    }
    ghost var before := out[..];
    Clear(out, at, MESSAGE_HDR_LEN);
    ghost var s := out[..];
    PutRow0(m, out, at);
    PutRow1(m, out, at + 16);
    SpliceAdjacent(s, at, Row0(m), Row1(m));
    SpliceOver(before, at, Zeros(MESSAGE_HDR_LEN), Header(m));
    return MESSAGE_HDR_LEN, true;
  }

  /** Where each field of an envelope stands, behind the four letters AMOD. */
  lemma HeaderLayout(m: Message)
    ensures var h := Header(m);
      && h[0..4] == [0x41, 0x4d, 0x4f, 0x44] && h[4..6] == [1, 0] && h[6..8] == [40, 0]
      && h[8..10] == ToLE(m.operation, 2) && h[10..12] == ToLE(m.status, 2) && h[12..16] == ToLE(m.stageId, 4)
      && h[16..20] == ToLE(m.flags, 4) && h[20..24] == ToLE(m.bodyLen, 4)
      && h[24..32] == ToLE(m.deadlineNs, 8) && h[32..40] == ToLE(m.traceId, 8)
  {
    MarkBytes();
    hide ToLE;
    var h := Header(m);
    assert h[0..16] == Row0(m) && h[16..40] == Row1(m);
  }

  lemma MarkBytes()
    ensures ToLE(MESSAGE_MAGIC, 4) == [0x41, 0x4d, 0x4f, 0x44] && ToLE(MESSAGE_VERSION, 2) == [1, 0] && ToLE(MESSAGE_HDR_LEN, 2) == [40, 0]
  {
    assert ToLE(0x44, 1) == [0x44] && ToLE(0x444f, 2) == [0x4f, 0x44] && ToLE(0x444f_4d, 3) == [0x4d, 0x4f, 0x44];
    assert ToLE(0, 1) == [0];
  }
}
