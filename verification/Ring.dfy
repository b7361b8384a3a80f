/** The ring in mapped memory: geometry checks on attach, in-place layout, and the
    single-producer/single-consumer operations over the mapped bytes. */
module Ring {
  import opened Bytes
  import Bits

  const RING_MAGIC: u32 := 0x474e_4952
  const OFF_MAGIC := 0
  const OFF_SLOT := 4
  const OFF_CAP := 8
  const OFF_MASK := 12
  const OFF_SLOTS := 16
  const OFF_HEAD := 64
  const OFF_TAIL := 128
  const HDR_BYTES := 192

  datatype Attachment =
    | Layout(slotSize: u32, capacity: u32, head: u64, tail: u64)
    | LayoutInvalid

  function Need(slotSize: nat, capacity: nat): (n: nat)
    ensures n >= HDR_BYTES
  {
    HDR_BYTES + slotSize * capacity
  }

  /** Adopts the ring laid out at the start of mem, or refuses its geometry. */
  function Attach(mem: seq<byte>): Attachment {
    if |mem| < HDR_BYTES then LayoutInvalid
    else if Field(mem, OFF_MAGIC, 4) != RING_MAGIC then LayoutInvalid
    else
      Pow256Values();
      var slotSize, capacity := Field(mem, OFF_SLOT, 4), Field(mem, OFF_CAP, 4);
      var head, tail := Field(mem, OFF_HEAD, 8), Field(mem, OFF_TAIL, 8);
      if capacity < 2 || Bits.And(capacity, capacity - 1) != 0 || slotSize == 0 ||
         Field(mem, OFF_MASK, 4) != capacity - 1 || Field(mem, OFF_SLOTS, 4) != HDR_BYTES
      then LayoutInvalid
      else if |mem| < Need(slotSize, capacity) || (head - tail) % TWO_64 > capacity
      then LayoutInvalid
      else Layout(slotSize, capacity, head, tail)
  }

  /** Where slot(index) starts: the masked index times the slot size, past the header. */
  function SlotOffset(index: nat, slotSize: nat, capacity: nat): nat
    requires capacity > 0
  {
    HDR_BYTES + Bits.And(index, capacity - 1) * slotSize
  }

  ghost predicate Geometry(slotSize: nat, capacity: nat) {
    0 < slotSize < 0x1_0000_0000 && 2 <= capacity < 0x1_0000_0000 && Bits.IsPowerOfTwo(capacity)
  }

  lemma MaskedIndex(index: nat, slotSize: nat, capacity: nat)
    requires Geometry(slotSize, capacity)
    ensures Bits.And(index, capacity - 1) == index % capacity
  {
    var k: nat :| capacity == Bits.Pow2(k);
    Bits.MaskIsMod(index, k);
  }

  lemma SlotOffsetIs(index: nat, slotSize: nat, capacity: nat)
    requires Geometry(slotSize, capacity)
    ensures SlotOffset(index, slotSize, capacity) == HDR_BYTES + (index % capacity) * slotSize
  {
    MaskedIndex(index, slotSize, capacity);
  }

  lemma ScaleMonotone(a: nat, b: nat, size: nat)
    requires a <= b
    ensures a * size <= b * size
  {}

  lemma NextMultiple(a: nat, b: nat, size: nat)
    requires a < b
    ensures a * size + size <= b * size
  {
    ScaleMonotone(a + 1, b, size);
    assert (a + 1) * size == a * size + size;
  }

  /** Every slot of an attached ring lies inside the mapping, and the size arithmetic of
      attach fits a signed 64-bit integer. */
  lemma AttachedSlotsInside(mem: seq<byte>, index: nat)
    requires Attach(mem).Layout?
    ensures var l := Attach(mem);
      && Geometry(l.slotSize, l.capacity)
      && HDR_BYTES <= SlotOffset(index, l.slotSize, l.capacity) == 192 + index % l.capacity * l.slotSize
      && SlotOffset(index, l.slotSize, l.capacity) + l.slotSize <= Need(l.slotSize, l.capacity) <= |mem|
      && Need(l.slotSize, l.capacity) < 0x8000_0000_0000_0000
  {
    var l := Attach(mem);
    Bits.PowerOfTwoTest(l.capacity);
    var q := Bits.PowerOfTwoDivides(l.capacity);
    SlotStands(index, l.slotSize, l.capacity);
    hide SlotOffset;
    SlotInside(index, l.slotSize, l.capacity);
    NeedFits(l.slotSize, l.capacity);
    hide Need;
  }

  /** Slots stand one behind the other, in the order of their indices modulo the capacity. */
  lemma SlotStands(index: nat, slotSize: nat, capacity: nat)
    requires Geometry(slotSize, capacity)
    ensures SlotOffset(index, slotSize, capacity) == 192 + index % capacity * slotSize
  {
    MaskedIndex(index, slotSize, capacity);
  }

  lemma NeedFits(slotSize: u32, capacity: u32)
    requires capacity <= 0x8000_0000
    ensures Need(slotSize, capacity) < 0x8000_0000_0000_0000
  {
    ScaleMonotone(slotSize, 0xffff_ffff, capacity);
    ScaleMonotone(capacity, 0x8000_0000, 0xffff_ffff);
  }

  lemma SlotInside(index: nat, slotSize: nat, capacity: nat)
    requires Geometry(slotSize, capacity)
    ensures HDR_BYTES <= SlotOffset(index, slotSize, capacity)
    ensures SlotOffset(index, slotSize, capacity) + slotSize <= Need(slotSize, capacity)
  {
    SlotOffsetIs(index, slotSize, capacity);
    NextMultiple(index % capacity, capacity, slotSize);
    assert capacity * slotSize == slotSize * capacity;
  }

  /** Slots of indices less than capacity apart do not overlap. */
  lemma SlotsDisjoint(a: nat, b: nat, slotSize: nat, capacity: nat)
    requires Geometry(slotSize, capacity) && a < b < a + capacity
    ensures var x, y := SlotOffset(a, slotSize, capacity), SlotOffset(b, slotSize, capacity);
      x + slotSize <= y || y + slotSize <= x
  {
    SlotOffsetIs(a, slotSize, capacity);
    SlotOffsetIs(b, slotSize, capacity);
    Bits.NearIndicesDiffer(a, b, capacity);
    if a % capacity < b % capacity {
      NextMultiple(a % capacity, b % capacity, slotSize);
    } else {
      NextMultiple(b % capacity, a % capacity, slotSize);
    }
  }

  /** The slot of a wrapped index is the slot of the unbounded index. */
  lemma WrappedSlot(index: nat, slotSize: nat, capacity: nat)
    requires Geometry(slotSize, capacity)
    ensures SlotOffset(index % TWO_64, slotSize, capacity) == SlotOffset(index, slotSize, capacity)
  {
    MaskedIndex(index, slotSize, capacity);
    MaskedIndex(index % TWO_64, slotSize, capacity);
    var q := Bits.PowerOfTwoDivides(capacity);
    Bits.WrapKeepsSlot(index, capacity, q);
  }

  lemma FieldOfPut(s: seq<byte>, off: nat, v: nat, n: nat)
    requires off + n <= |s| && v < Pow256(n)
    ensures Field(Splice(s, off, ToLE(v, n)), off, n) == v
  {
    DecodeEncode(v, n);
  }

  lemma FieldElsewhere(s: seq<byte>, off: nat, t: seq<byte>, at: nat, n: nat)
    requires off + |t| <= |s| && at + n <= |s| && (at + n <= off || off + |t| <= at)
    ensures Field(Splice(s, off, t), at, n) == Field(s, at, n)
  {
    assert Splice(s, off, t)[at..at + n] == s[at..at + n];
  }

  /** Lays out an empty ring in place: zeroes it, writes the header, stores the magic last. */
  method Init(mem: array<byte>, slotSize: u32, capacity: u32) returns (a: Attachment)
    modifies mem
    ensures a.Layout? <==> capacity >= 2 && Bits.IsPowerOfTwo(capacity) && slotSize > 0 && mem.Length >= Need(slotSize, capacity)
    ensures a.Layout? ==> a == Layout(slotSize, capacity, 0, 0) && a == Attach(mem[..])
    ensures a.Layout? ==> mem[Need(slotSize, capacity)..] == old(mem[Need(slotSize, capacity)..])
    ensures a.Layout? ==> mem[HDR_BYTES..Need(slotSize, capacity)] == Zeros(Need(slotSize, capacity) - HDR_BYTES)
    ensures a.LayoutInvalid? ==> mem[..] == old(mem[..])
  {
    if capacity >= 2 { Bits.PowerOfTwoTest(capacity); }
    if capacity < 2 || Bits.And(capacity, capacity - 1) != 0 || slotSize == 0 {
      return LayoutInvalid;
    }
    var need := HDR_BYTES + slotSize * capacity;
    if mem.Length < need {
      return LayoutInvalid;
    }
    Clear(mem, 0, need);
    assert mem[HDR_BYTES..need] == Zeros(need - HDR_BYTES);
    ghost var cleared := mem[..];
    WriteHeader(mem, slotSize, capacity);
    EmptyRingAttaches(cleared, slotSize, capacity);
    EmptyRingKeepsSlots(cleared, slotSize, capacity);
    SameBehind(mem[..], cleared, need);
    a := Layout(slotSize, capacity, 0, 0);
  }

  /** Mappings that agree behind the header agree on its slots and behind them. */
  lemma SameBehind(m: seq<byte>, w: seq<byte>, need: nat)
    requires HDR_BYTES <= need <= |m| == |w| && m[HDR_BYTES..] == w[HDR_BYTES..]
    ensures m[HDR_BYTES..need] == w[HDR_BYTES..need] && m[need..] == w[need..]
  {
    assert m[HDR_BYTES..need] == m[HDR_BYTES..][..need - HDR_BYTES] && w[HDR_BYTES..need] == w[HDR_BYTES..][..need - HDR_BYTES];
    assert m[need..] == m[HDR_BYTES..][need - HDR_BYTES..] && w[need..] == w[HDR_BYTES..][need - HDR_BYTES..];
  }

  ghost predicate GeometryFields(s: seq<byte>, slotSize: u32, capacity: u32)
    requires |s| >= HDR_BYTES
  {
    && Field(s, OFF_SLOT, 4) == slotSize && Field(s, OFF_CAP, 4) == capacity
    && Field(s, OFF_MASK, 4) == capacity - 1 && Field(s, OFF_SLOTS, 4) == HDR_BYTES
  }

  function GeometryRow(slotSize: u32, capacity: u32): (r: seq<byte>)
    requires capacity > 0
    ensures |r| == 16
  {
    ToLE(slotSize, 4) + ToLE(capacity, 4) + ToLE(capacity - 1, 4) + ToLE(HDR_BYTES, 4)
  }

  /** The header of an empty ring over the bytes s, in the order it is stored: magic last. */
  function EmptyRing(s: seq<byte>, slotSize: u32, capacity: u32): (r: seq<byte>)
    requires capacity > 0 && |s| >= HDR_BYTES
    ensures |r| == |s|
  {
    var g := Splice(s, OFF_SLOT, GeometryRow(slotSize, capacity));
    var h := Splice(g, OFF_HEAD, ToLE(0, 8));
    var t := Splice(h, OFF_TAIL, ToLE(0, 8));
    Splice(t, OFF_MAGIC, ToLE(RING_MAGIC, 4))
  }

  method WriteGeometry(mem: array<byte>, slotSize: u32, capacity: u32)
    requires capacity > 0 && mem.Length >= HDR_BYTES
    modifies mem
    ensures mem[..] == Splice(old(mem[..]), OFF_SLOT, GeometryRow(slotSize, capacity))
  {
    hide ToLE, Splice;
    ghost var s := mem[..];
    Put(mem, OFF_SLOT, slotSize, 4);
    ghost var lead := ToLE(slotSize, 4);
    PutNext(mem, s, OFF_SLOT, lead, OFF_CAP, capacity, 4);
    lead := lead + ToLE(capacity, 4);
    PutNext(mem, s, OFF_SLOT, lead, OFF_MASK, capacity - 1, 4);
    lead := lead + ToLE(capacity - 1, 4);
    PutNext(mem, s, OFF_SLOT, lead, OFF_SLOTS, HDR_BYTES, 4);
  }

  method WriteHeader(mem: array<byte>, slotSize: u32, capacity: u32)
    requires capacity > 0 && mem.Length >= HDR_BYTES
    modifies mem
    ensures mem[..] == EmptyRing(old(mem[..]), slotSize, capacity)
  {
    WriteGeometry(mem, slotSize, capacity);
    Put(mem, OFF_HEAD, 0, 8);
    Put(mem, OFF_TAIL, 0, 8);
    Put(mem, OFF_MAGIC, RING_MAGIC, 4);
  }

  lemma GeometryRowFields(s: seq<byte>, slotSize: u32, capacity: u32)
    requires capacity > 0 && |s| >= HDR_BYTES
    ensures GeometryFields(Splice(s, OFF_SLOT, GeometryRow(slotSize, capacity)), slotSize, capacity)
  {
    Pow256Values();
    var g := Splice(s, OFF_SLOT, GeometryRow(slotSize, capacity));
    var l1 := ToLE(slotSize, 4);
    var l2 := l1 + ToLE(capacity, 4);
    var l3 := l2 + ToLE(capacity - 1, 4);
    PeelLast(g, OFF_SLOT, l3, HDR_BYTES, 4);
    PeelLast(g, OFF_SLOT, l2, capacity - 1, 4);
    PeelLast(g, OFF_SLOT, l1, capacity, 4);
    DecodeEncode(slotSize, 4);
  }

  lemma GeometryKept(s: seq<byte>, off: nat, t: seq<byte>, slotSize: u32, capacity: u32)
    requires |s| >= HDR_BYTES && GeometryFields(s, slotSize, capacity)
    requires off + |t| <= |s| && (off >= 20 || off + |t| <= 4)
    ensures GeometryFields(Splice(s, off, t), slotSize, capacity)
  {
    FieldElsewhere(s, off, t, OFF_SLOT, 4);
    FieldElsewhere(s, off, t, OFF_CAP, 4);
    FieldElsewhere(s, off, t, OFF_MASK, 4);
    FieldElsewhere(s, off, t, OFF_SLOTS, 4);
  }

  lemma EmptyRingFields(s: seq<byte>, slotSize: u32, capacity: u32)
    requires capacity > 0 && |s| >= HDR_BYTES
    ensures var r := EmptyRing(s, slotSize, capacity);
      GeometryFields(r, slotSize, capacity) && Field(r, OFF_HEAD, 8) == 0 && Field(r, OFF_TAIL, 8) == 0
  {
    Pow256Values();
    var g := Splice(s, OFF_SLOT, GeometryRow(slotSize, capacity));
    GeometryRowFields(s, slotSize, capacity);
    var zero, magic := ToLE(0, 8), ToLE(RING_MAGIC, 4);
    var h := Splice(g, OFF_HEAD, zero);
    GeometryKept(g, OFF_HEAD, zero, slotSize, capacity);
    FieldOfPut(g, OFF_HEAD, 0, 8);
    var t := Splice(h, OFF_TAIL, zero);
    GeometryKept(h, OFF_TAIL, zero, slotSize, capacity);
    FieldOfPut(h, OFF_TAIL, 0, 8);
    FieldElsewhere(h, OFF_TAIL, zero, OFF_HEAD, 8);
    GeometryKept(t, OFF_MAGIC, magic, slotSize, capacity);
    FieldElsewhere(t, OFF_MAGIC, magic, OFF_HEAD, 8);
    FieldElsewhere(t, OFF_MAGIC, magic, OFF_TAIL, 8);
  }

  lemma EmptyRingKeepsSlots(s: seq<byte>, slotSize: u32, capacity: u32)
    requires capacity > 0 && |s| >= HDR_BYTES
    ensures EmptyRing(s, slotSize, capacity)[HDR_BYTES..] == s[HDR_BYTES..]
  {
    var g := Splice(s, OFF_SLOT, GeometryRow(slotSize, capacity));
    var h := Splice(g, OFF_HEAD, ToLE(0, 8));
    var t := Splice(h, OFF_TAIL, ToLE(0, 8));
    assert g[HDR_BYTES..] == s[HDR_BYTES..];
    assert h[HDR_BYTES..] == g[HDR_BYTES..];
    assert t[HDR_BYTES..] == h[HDR_BYTES..];
  }

  lemma EmptyRingMagic(s: seq<byte>, slotSize: u32, capacity: u32)
    requires capacity > 0 && |s| >= HDR_BYTES
    ensures Field(EmptyRing(s, slotSize, capacity), OFF_MAGIC, 4) == RING_MAGIC
  {
    Pow256Values();
    var t := Splice(Splice(Splice(s, OFF_SLOT, GeometryRow(slotSize, capacity)), OFF_HEAD, ToLE(0, 8)), OFF_TAIL, ToLE(0, 8));
    FieldOfPut(t, OFF_MAGIC, RING_MAGIC, 4);
  }

  /** The laid-out header passes attach, empty, with the geometry asked for. */
  lemma EmptyRingAttaches(s: seq<byte>, slotSize: u32, capacity: u32)
    requires capacity >= 2 && Bits.And(capacity, capacity - 1) == 0 && slotSize > 0
    requires |s| >= Need(slotSize, capacity)
    ensures Attach(EmptyRing(s, slotSize, capacity)) == Layout(slotSize, capacity, 0, 0)
  {
    EmptyRingFields(s, slotSize, capacity);
    EmptyRingMagic(s, slotSize, capacity);
    hide EmptyRing, Field, Bits.And, Need;
  }

  /** The size bytes of m at off. */
  function Window(m: seq<byte>, off: nat, size: nat): (w: seq<byte>)
    ensures off + size <= |m| ==> |w| == size
  {
    if off + size <= |m| then m[off..off + size] else []
  }

  /** The bytes of slot(index) in the mapping m. */
  function SlotIn(m: seq<byte>, index: nat, slotSize: nat, capacity: nat): seq<byte>
    requires capacity > 0
  {
    Window(m, SlotOffset(index, slotSize, capacity), slotSize)
  }

  /** The count slots from index tail on, oldest first. */
  ghost function SlotsFrom(m: seq<byte>, tail: nat, count: nat, slotSize: nat, capacity: nat): (q: seq<seq<byte>>)
    requires capacity > 0
    ensures |q| == count
    ensures forall k :: 0 <= k < count ==> q[k] == SlotIn(m, tail + k, slotSize, capacity)
  {
    seq(count, k requires 0 <= k < count => SlotIn(m, tail + k, slotSize, capacity))
  }

  /** Indices equal modulo 2^64 name the same slot. */
  lemma SameSlot(a: nat, b: nat, slotSize: nat, capacity: nat)
    requires Geometry(slotSize, capacity) && a % TWO_64 == b % TWO_64
    ensures SlotOffset(a, slotSize, capacity) == SlotOffset(b, slotSize, capacity)
  {
    WrappedSlot(a, slotSize, capacity);
    WrappedSlot(b, slotSize, capacity);
  }

  lemma HeadFromTail(head: u64, tail: u64)
    ensures (tail + (head - tail) % TWO_64) % TWO_64 == head && tail % TWO_64 == tail
  {}

  lemma NextSameSlot(tail: u64, k: nat, slotSize: nat, capacity: nat)
    requires Geometry(slotSize, capacity)
    ensures SlotOffset((tail + 1) % TWO_64 + k, slotSize, capacity) == SlotOffset(tail + (k + 1), slotSize, capacity)
  {
    SameSlot((tail + 1) % TWO_64 + k, tail + (k + 1), slotSize, capacity);
  }

  /** Dropping the oldest slot is advancing the wrapped tail by one. */
  lemma SlotsAfterRelease(m: seq<byte>, tail: u64, count: nat, slotSize: nat, capacity: nat)
    requires Geometry(slotSize, capacity) && count > 0
    ensures SlotsFrom(m, (tail + 1) % TWO_64, count - 1, slotSize, capacity)
      == SlotsFrom(m, tail, count, slotSize, capacity)[1..]
  {
    hide SlotOffset;
    var after, before := SlotsFrom(m, (tail + 1) % TWO_64, count - 1, slotSize, capacity), SlotsFrom(m, tail, count, slotSize, capacity);
    forall k | 0 <= k < |after| ensures after[k] == before[k + 1] {
      NextSameSlot(tail, k, slotSize, capacity);
    }
  }

  lemma ByteElsewhere(m: seq<byte>, w: seq<byte>, at: nat, size: nat, i: nat)
    requires Confined(m, w, at, size) && i < |m| && (i < at || i >= at + size)
    ensures m[i] == w[i]
  {
    if i < at {
      assert m[i] == m[..at][i] && w[i] == w[..at][i];
    } else {
      var j := i - (at + size);
      assert m[i] == m[at + size..][j] && w[i] == w[at + size..][j];
    }
  }

  lemma WindowElsewhere(m: seq<byte>, w: seq<byte>, at: nat, o: nat, size: nat)
    requires Confined(m, w, at, size)
    requires o + size <= at || at + size <= o
    ensures Window(m, o, size) == Window(w, o, size)
  {
    var x, y := Window(m, o, size), Window(w, o, size);
    forall k | 0 <= k < |x| ensures x[k] == y[k] {
      ByteElsewhere(m, w, at, size, o + k);
    }
  }

  /** A write confined to the free slot at index tail+count leaves the queued slots alone. */
  lemma FreeSlotWrite(m: seq<byte>, w: seq<byte>, tail: u64, count: nat, at: nat, slotSize: nat, capacity: nat)
    requires Geometry(slotSize, capacity) && |m| == |w| && count < capacity
    requires at == SlotOffset(tail + count, slotSize, capacity)
    requires at + slotSize <= |m| && m[..at] == w[..at] && m[at + slotSize..] == w[at + slotSize..]
    ensures SlotsFrom(w, tail, count, slotSize, capacity) == SlotsFrom(m, tail, count, slotSize, capacity)
  {
    hide SlotOffset;
    var after, before := SlotsFrom(w, tail, count, slotSize, capacity), SlotsFrom(m, tail, count, slotSize, capacity);
    forall k | 0 <= k < |after| ensures after[k] == before[k] {
      SlotsDisjoint(tail + k, tail + count, slotSize, capacity);
      WindowElsewhere(m, w, at, SlotOffset(tail + k, slotSize, capacity), slotSize);
    }
  }

  /** Committing the slot at the head appends it to the queue. */
  lemma SlotsAfterCommit(m: seq<byte>, head: u64, tail: u64, count: nat, slotSize: nat, capacity: nat)
    requires Geometry(slotSize, capacity) && count == (head - tail) % TWO_64
    ensures SlotsFrom(m, tail, count + 1, slotSize, capacity)
      == SlotsFrom(m, tail, count, slotSize, capacity) + [SlotIn(m, head, slotSize, capacity)]
  {
    hide SlotOffset;
    HeadFromTail(head, tail);
    SameSlot(tail + count, head, slotSize, capacity);
  }

  /** Nothing changed outside the size bytes at at. */
  ghost predicate Confined(m: seq<byte>, w: seq<byte>, at: nat, size: nat) {
    |m| == |w| && at + size <= |m| && m[..at] == w[..at] && m[at + size..] == w[at + size..]
  }

  lemma SliceFromBase(m: seq<byte>, base: nat, n: nat, a: nat, b: nat)
    requires base + n <= |m| && a <= b <= n
    ensures m[base..base + n][a..b] == m[base + a..base + b]
  {
    var x, y := m[base..base + n][a..b], m[base + a..base + b];
    assert |x| == |y| && forall k :: 0 <= k < |x| ==> x[k] == m[base + a + k] && y[k] == m[base + a + k];
  }

  /** A write confined to one slot of a ring that starts at base, seen from the ring. */
  lemma WriteFromBase(m: seq<byte>, w: seq<byte>, base: nat, n: nat, off: nat, size: nat)
    requires Confined(m, w, base + off, size) && base + n <= |m| && off + size <= n
    ensures Confined(m[base..base + n], w[base..base + n], off, size)
    ensures Window(w[base..base + n], off, size) == Window(w, base + off, size)
  {
    var x, y := m[base..base + n], w[base..base + n];
    SliceFromBase(w, base, n, off, off + size);
    assert base + (off + size) == base + off + size;
    assert Window(y, off, size) == y[off..off + size] && Window(w, base + off, size) == w[base + off..base + off + size];
    forall k | 0 <= k < off || off + size <= k < n ensures x[k] == y[k] {
      ByteElsewhere(m, w, base + off, size, base + k);
    }
  }

  lemma ConfinedWider(m: seq<byte>, w: seq<byte>, at: nat, size: nat, base: nat, n: nat)
    requires Confined(m, w, at, size) && base <= at && at + size <= base + n <= |m|
    ensures Confined(m, w, base, n)
  {
    forall i | (0 <= i < base || base + n <= i < |m|) ensures m[i] == w[i] {
      ByteElsewhere(m, w, at, size, i);
    }
  }

  lemma ConfinedElsewhere(m: seq<byte>, w: seq<byte>, at: nat, size: nat, base: nat, n: nat)
    requires Confined(m, w, at, size) && base + n <= |m| && (base + n <= at || at + size <= base)
    ensures m[base..base + n] == w[base..base + n]
  {
    var x, y := m[base..base + n], w[base..base + n];
    forall k | 0 <= k < n ensures x[k] == y[k] {
      ByteElsewhere(m, w, at, size, base + k);
    }
  }

  /** A view onto a ring in mapped memory, from base on; other rings may lie in the same mapping.
      The two index words are kept as fields; the slots stay in the shared bytes. */
  class SharedRing {
    const mem: array<byte>
    const base: nat
    const slotSize: u32
    const capacity: u32
    var head: u64
    var tail: u64

    ghost predicate Valid()
      reads this
    {
      && Geometry(slotSize, capacity) && base + Need(slotSize, capacity) <= mem.Length
      && (head - tail) % TWO_64 <= capacity
    }

    /** The bytes of the ring, its header first. */
    ghost function Image(): (m: seq<byte>)
      requires Valid()
      reads this, mem
      ensures |m| == Need(slotSize, capacity)
    {
      mem[base..base + Need(slotSize, capacity)]
    }

    /** The committed, unreleased slots, oldest first. */
    ghost function Contents(): (q: seq<seq<byte>>)
      requires Valid()
      reads this, mem
      ensures |q| == (head - tail) % TWO_64 <= capacity
    {
      SlotsFrom(Image(), tail, (head - tail) % TWO_64, slotSize, capacity)
    }

    constructor (mem: array<byte>, base: nat, layout: Attachment)
      requires base <= mem.Length && layout.Layout? && layout == Attach(mem[base..])
      ensures Valid() && this.mem == mem && this.base == base && slotSize == layout.slotSize && capacity == layout.capacity
      ensures head == layout.head && tail == layout.tail
    {
      this.mem, this.base, this.slotSize, this.capacity := mem, base, layout.slotSize, layout.capacity;
      this.head, this.tail := layout.head, layout.tail;
      AttachedSlotsInside(mem[base..], 0);
    }

    /** A snapshot of the occupied slots. */
    function Count(): (n: u64)
      requires Valid()
      reads this, mem
      ensures n == |Contents()| <= capacity
    {
      (head - tail) % TWO_64
    }

    /** Offers the free slot at the head, or nothing when the ring is full. */
    method ProduceBegin() returns (ok: bool, at: nat)
      requires Valid()
      ensures ok <==> |Contents()| < capacity
      ensures ok ==> at == base + SlotOffset(head, slotSize, capacity)
      ensures ok ==> base + HDR_BYTES <= at && at + slotSize <= base + Need(slotSize, capacity)
    {
      if Count() >= capacity {
        return false, 0;
      }
      SlotInside(head, slotSize, capacity);
      return true, base + SlotOffset(head, slotSize, capacity);
    }

    /** Publishes the slot at the head. */
    method ProduceCommit()
      requires Valid() && |Contents()| < capacity
      modifies this`head
      ensures Valid() && head == (old(head) + 1) % TWO_64
      ensures Contents() == old(Contents()) + [SlotIn(Image(), old(head), slotSize, capacity)]
    {
      hide SlotOffset, SlotIn, SlotsFrom, Need;
      Bits.DistanceSteps(head, tail);
      SlotsAfterCommit(Image(), head, tail, (head - tail) % TWO_64, slotSize, capacity);
      head := (head + 1) % TWO_64;
    }

    /** Offers the oldest unread slot, or nothing when the ring is empty. */
    method ConsumeBegin() returns (ok: bool, at: nat)
      requires Valid()
      ensures ok <==> Contents() != []
      ensures ok ==> at + slotSize <= mem.Length && mem[at..at + slotSize] == Contents()[0]
    {
      hide SlotOffset, Need, SlotsFrom;
      if head == tail {
        return false, 0;
      }
      SlotInside(tail, slotSize, capacity);
      ghost var off := SlotOffset(tail, slotSize, capacity);
      SliceFromBase(mem[..], base, Need(slotSize, capacity), off, off + slotSize);
      assert Image()[off..off + slotSize] == mem[base + off..base + off + slotSize];
      return true, base + SlotOffset(tail, slotSize, capacity);
    }

    /** Releases the oldest slot for reuse. */
    method ConsumeCommit()
      requires Valid() && Contents() != []
      modifies this`tail
      ensures Valid() && tail == (old(tail) + 1) % TWO_64
      ensures Contents() == old(Contents()[1..])
    {
      hide SlotOffset, SlotIn, SlotsFrom, Need;
      Bits.DistanceSteps(head, tail);
      SlotsAfterRelease(Image(), tail, (head - tail) % TWO_64, slotSize, capacity);
      tail := (tail + 1) % TWO_64;
    }
  }

  /** The bytes of a ring of this geometry, with these indices, stand at the start of a mapping that
      has room for its slots. */
  ghost predicate LaidOut(mem: seq<byte>, slotSize: u32, capacity: u32, head: u64, tail: u64) {
    && 192 + slotSize * capacity <= |mem| && slotSize > 0 && capacity >= 2 && Bits.IsPowerOfTwo(capacity)
    && mem[0..4] == [0x52, 0x49, 0x4e, 0x47]
    && mem[4..8] == ToLE(slotSize, 4) && mem[8..12] == ToLE(capacity, 4)
    && mem[12..16] == ToLE(capacity - 1, 4) && mem[16..20] == ToLE(192, 4)
    && mem[64..72] == ToLE(head, 8) && mem[128..136] == ToLE(tail, 8)
    && (head - tail) % TWO_64 <= capacity
  }

  lemma RingLetters()
    ensures ToLE(RING_MAGIC, 4) == [0x52, 0x49, 0x4e, 0x47]
  {
    assert ToLE(0x47, 1) == [0x47] && ToLE(0x474e, 2) == [0x4e, 0x47] && ToLE(0x474e_49, 3) == [0x49, 0x4e, 0x47];
  }

  /** What attach reads, field by field. */
  ghost predicate FieldsAre(mem: seq<byte>, slotSize: u32, capacity: u32, head: u64, tail: u64)
    requires |mem| >= HDR_BYTES && capacity > 0
  {
    && Field(mem, OFF_MAGIC, 4) == RING_MAGIC && Field(mem, OFF_SLOT, 4) == slotSize && Field(mem, OFF_CAP, 4) == capacity
    && Field(mem, OFF_MASK, 4) == capacity - 1 && Field(mem, OFF_SLOTS, 4) == HDR_BYTES
    && Field(mem, OFF_HEAD, 8) == head && Field(mem, OFF_TAIL, 8) == tail
  }

  lemma AttachReads(mem: seq<byte>, slotSize: u32, capacity: u32, head: u64, tail: u64)
    ensures Attach(mem) == Layout(slotSize, capacity, head, tail) <==> (
      && |mem| >= HDR_BYTES && capacity >= 2 && slotSize > 0 && FieldsAre(mem, slotSize, capacity, head, tail)
      && Bits.And(capacity, capacity - 1) == 0 && |mem| >= Need(slotSize, capacity) && (head - tail) % TWO_64 <= capacity)
  {
    hide Field, Bits.And, Need;
  }

  lemma FieldBytes(mem: seq<byte>, slotSize: u32, capacity: u32, head: u64, tail: u64)
    requires |mem| >= HDR_BYTES && capacity > 0
    ensures FieldsAre(mem, slotSize, capacity, head, tail) <==> (
      && mem[0..4] == [0x52, 0x49, 0x4e, 0x47]
      && mem[4..8] == ToLE(slotSize, 4) && mem[8..12] == ToLE(capacity, 4)
      && mem[12..16] == ToLE(capacity - 1, 4) && mem[16..20] == ToLE(192, 4)
      && mem[64..72] == ToLE(head, 8) && mem[128..136] == ToLE(tail, 8))
  {
    hide ToLE, Field, Pow256;
    Pow256Values();
    RingLetters();
    FieldIs(mem, 0, 4, RING_MAGIC);
    FieldIs(mem, 4, 4, slotSize);
    FieldIs(mem, 8, 4, capacity);
    FieldIs(mem, 12, 4, capacity - 1);
    FieldIs(mem, 16, 4, 192);
    FieldIs(mem, 64, 8, head);
    FieldIs(mem, 128, 8, tail);
  }

  /** Attach adopts a mapping as a ring exactly if the bytes of that ring stand there. */
  lemma AttachIff(mem: seq<byte>, slotSize: u32, capacity: u32, head: u64, tail: u64)
    ensures Attach(mem) == Layout(slotSize, capacity, head, tail) <==> LaidOut(mem, slotSize, capacity, head, tail)
  {
    AttachReads(mem, slotSize, capacity, head, tail);
    hide Attach, FieldsAre, ToLE, Bits.And, Bits.IsPowerOfTwo;
    if |mem| >= HDR_BYTES && capacity >= 2 {
      FieldBytes(mem, slotSize, capacity, head, tail);
      Bits.PowerOfTwoTest(capacity);
    }
  }
}
