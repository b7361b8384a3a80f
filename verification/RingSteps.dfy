/** The ring in memory is an instance of the ring as a step system: a mapping and its two indices
    show a state, and each operation takes the atomic loads and stores of its side. */
module RingSteps {
  import opened Bytes
  import opened Ring
  import Bits
  import P = RingProtocol

  /** The slots of a mapping by position. */
  function SlotTable(m: seq<byte>, slotSize: nat, capacity: nat): (t: seq<seq<byte>>)
    requires capacity > 0
    ensures |t| == capacity && forall i :: 0 <= i < capacity ==> t[i] == SlotIn(m, i, slotSize, capacity)
  {
    seq(capacity, i requires 0 <= i < capacity => SlotIn(m, i, slotSize, capacity))
  }

  /** The ring's memory and indices are the state's. */
  ghost predicate Shows(r: SharedRing, s: P.State<seq<byte>>)
    requires r.Valid()
    reads r, r.mem
  {
    && s.capacity == r.capacity && s.head == r.head && s.tail == r.tail
    && s.slots == SlotTable(r.Image(), r.slotSize, r.capacity)
  }

  /** The state of a ring just attached: both sides idle, and the history starts at its queue. */
  ghost function Attached(r: SharedRing): P.State<seq<byte>>
    requires r.Valid()
    reads r, r.mem
  {
    P.State(r.capacity, r.head, r.tail, SlotTable(r.Image(), r.slotSize, r.capacity),
      P.Producer.Idle, P.Consumer.Idle, r.tail, r.Contents(), [])
  }

  /** The position of an index in the table. */
  function Position(index: nat, capacity: nat): (j: nat)
    requires capacity > 0
    ensures j < capacity
  {
    index % capacity
  }

  lemma PositionOfPosition(index: nat, capacity: nat)
    requires capacity > 0
    ensures Position(Position(index, capacity), capacity) == Position(index, capacity)
  {
    Bits.ModUnique(index % capacity, capacity, 0, index % capacity);
  }

  lemma OffsetOfPosition(index: nat, slotSize: nat, capacity: nat)
    requires Geometry(slotSize, capacity)
    ensures SlotOffset(index, slotSize, capacity) == SlotOffset(Position(index, capacity), slotSize, capacity)
  {
    hide SlotOffset;
    SlotOffsetIs(index, slotSize, capacity);
    SlotOffsetIs(Position(index, capacity), slotSize, capacity);
    PositionOfPosition(index, capacity);
  }

  /** A slot is found in the table at its index reduced by the capacity. */
  lemma InTable(m: seq<byte>, index: nat, slotSize: nat, capacity: nat)
    requires Geometry(slotSize, capacity)
    ensures SlotIn(m, index, slotSize, capacity) == SlotTable(m, slotSize, capacity)[Position(index, capacity)]
  {
    hide SlotOffset, Position, SlotTable, Geometry;
    OffsetOfPosition(index, slotSize, capacity);
  }

  /** Any attached ring, with whatever it holds, is a state the step system keeps its promises from. */
  lemma AttachedIsState(r: SharedRing)
    requires r.Valid()
    ensures P.Inv(Attached(r)) && Shows(r, Attached(r)) && Attached(r).Queue() == r.Contents()
  {
    var s := Attached(r);
    hide SlotTable, SlotIn, SlotsFrom, P.SlotIndex;
    HeadFromTail(r.head, r.tail);
    forall i | 0 <= i < |s.produced|
      ensures s.slots[P.SlotIndex(s.base, s.capacity, i)] == s.produced[i]
    {
      AttachedSlot(r, i);
    }
    assert s.produced[0..] == s.produced && s.produced[..0] == [];
  }

  lemma AttachedSlot(r: SharedRing, i: nat)
    requires r.Valid() && i < |r.Contents()|
    ensures SlotTable(r.Image(), r.slotSize, r.capacity)[P.SlotIndex(r.tail, r.capacity, i)] == r.Contents()[i]
  {
    hide SlotTable, SlotIn, Position, P.SlotIndex;
    InTable(r.Image(), r.tail + i, r.slotSize, r.capacity);
    PositionIs(r.tail, i, r.capacity);
  }

  lemma PositionIs(base: nat, i: nat, capacity: nat)
    requires capacity > 0
    ensures P.SlotIndex(base, capacity, i) == Position(base + i, capacity)
  {}

  /** In every state a ring shows, its contents are the state's queue. */
  lemma ShownQueue(r: SharedRing, s: P.State<seq<byte>>)
    requires r.Valid() && P.Inv(s) && Shows(r, s)
    ensures r.Contents() == s.Queue()
  {
    hide SlotTable, SlotIn, SlotsFrom, Position;
    P.Occupancy(s);
    var q, c := s.Queue(), r.Contents();
    forall k | 0 <= k < |q| ensures c[k] == q[k] {
      var i := |s.consumed| + k;
      P.SlotOf(s, i);
      InTable(r.Image(), r.tail + k, r.slotSize, r.capacity);
      SameIndex(s, k);
    }
  }

  lemma SameIndex(s: P.State<seq<byte>>, k: nat)
    requires P.Inv(s)
    ensures Position(s.tail + k, s.capacity) == P.SlotIndex(s.base, s.capacity, |s.consumed| + k)
  {
    hide P.SlotIndex, Position;
    TailIndex(s);
    P.SlotOf(s, |s.consumed|);
    hide P.Inv;
    IndexFrom(s.tail, s.base, |s.consumed|, k, s.capacity);
  }

  lemma TailIndex(s: P.State<seq<byte>>)
    requires P.Inv(s)
    ensures s.capacity > 0 && s.tail == (s.base + |s.consumed|) % TWO_64
  {}

  /** Positions counted on from the tail are those counted on from the base. */
  lemma IndexFrom(tail: nat, base: nat, i: nat, k: nat, capacity: nat)
    requires capacity > 0 && tail % capacity == P.SlotIndex(base, capacity, i)
    ensures Position(tail + k, capacity) == P.SlotIndex(base, capacity, i + k)
  {
    ModAdd(tail, base + i, k, capacity);
    assert base + i + k == base + (i + k);
  }

  lemma ModAdd(a: nat, b: nat, k: nat, c: nat)
    requires c > 0 && a % c == b % c
    ensures (a + k) % c == (b + k) % c
  {
    Bits.ModUnique(a + k, c, a / c + (b + k) / c - b / c, (b + k) % c);
  }


  /** A write confined to the slot at an index is a write of one table entry. */
  lemma WriteOneSlot(m: seq<byte>, w: seq<byte>, index: nat, slotSize: nat, capacity: nat)
    requires Geometry(slotSize, capacity) && |m| == |w|
    requires var at := SlotOffset(index, slotSize, capacity);
      at + slotSize <= |m| && m[..at] == w[..at] && m[at + slotSize..] == w[at + slotSize..]
    ensures SlotTable(w, slotSize, capacity) ==
      SlotTable(m, slotSize, capacity)[Position(index, capacity) := SlotIn(w, index, slotSize, capacity)]
  {
    hide SlotOffset, SlotIn, Position, SlotTable;
    var j := Position(index, capacity);
    InTable(w, index, slotSize, capacity);
    OffsetOfPosition(index, slotSize, capacity);
    forall i | 0 <= i < capacity && i != j
      ensures SlotIn(w, i, slotSize, capacity) == SlotIn(m, i, slotSize, capacity)
    {
      OtherSlot(m, w, i, j, slotSize, capacity);
    }
  }

  lemma OtherSlot(m: seq<byte>, w: seq<byte>, i: nat, j: nat, slotSize: nat, capacity: nat)
    requires Geometry(slotSize, capacity) && |m| == |w| && i < capacity && j < capacity && i != j
    requires var at := SlotOffset(j, slotSize, capacity);
      at + slotSize <= |m| && m[..at] == w[..at] && m[at + slotSize..] == w[at + slotSize..]
    ensures SlotIn(w, i, slotSize, capacity) == SlotIn(m, i, slotSize, capacity)
  {
    hide SlotOffset, Window;
    if i < j { SlotsDisjoint(i, j, slotSize, capacity); } else { SlotsDisjoint(j, i, slotSize, capacity); }
    WindowElsewhere(m, w, SlotOffset(j, slotSize, capacity), SlotOffset(i, slotSize, capacity), slotSize);
  }

  /** Beginning a write is the producer's two loads. */
  method ProduceBegin(r: SharedRing, ghost s: P.State<seq<byte>>) returns (ok: bool, at: nat, ghost e: P.State<seq<byte>>)
    requires r.Valid() && P.Inv(s) && Shows(r, s) && s.producer.Idle?
    ensures e == P.Apply(P.Apply(s, P.ProducerLoadHead), P.ProducerLoadTail) && P.Inv(e) && Shows(r, e)
    ensures ok <==> e.producer.Writing?
    ensures ok ==> at == r.base + SlotOffset(e.producer.head, r.slotSize, r.capacity)
  {
    ShownQueue(r, s);
    P.StepRefinesQueue(s, P.ProducerLoadHead);
    P.BeginOutcomes(P.Apply(s, P.ProducerLoadHead));
    P.StepRefinesQueue(P.Apply(s, P.ProducerLoadHead), P.ProducerLoadTail);
    ok, at := r.ProduceBegin();
    e := P.Apply(P.Apply(s, P.ProducerLoadHead), P.ProducerLoadTail);
  }

  /** Filling the begun slot, and nothing else, is the producer's write. */
  method WriteSlot(r: SharedRing, at: nat, slot: seq<byte>, ghost s: P.State<seq<byte>>) returns (ghost e: P.State<seq<byte>>)
    requires r.Valid() && P.Inv(s) && Shows(r, s) && s.producer.Writing? && |slot| == r.slotSize
    requires at == r.base + SlotOffset(s.producer.head, r.slotSize, r.capacity)
    modifies r.mem
    ensures r.Valid() && e == P.Apply(s, P.Write(slot)) && P.Inv(e) && Shows(r, e)
  {
    hide SlotTable, SlotOffset, Need, Position, Splice, P.Inv, P.Apply;
    SlotInside(s.producer.head, r.slotSize, r.capacity);
    ghost var was := r.mem[..];
    Copy(r.mem, at, slot);
    Wrote(s, slot);
    WrittenSlot(was, r.mem[..], r.base, s.producer.head, r.slotSize, r.capacity, slot);
    e := P.Apply(s, P.Write(slot));
  }

  /** What a write step leaves behind. */
  lemma Wrote(s: P.State<seq<byte>>, slot: seq<byte>)
    requires P.Inv(s) && s.producer.Writing?
    ensures var e := P.Apply(s, P.Write(slot));
      && P.Inv(e) && e.slots == s.slots[Position(s.producer.head, s.capacity) := slot]
      && (e.capacity, e.head, e.tail) == (s.capacity, s.head, s.tail)
  {
    P.StepRefinesQueue(s, P.Write(slot));
    hide P.Inv;
  }

  /** A slot copied into a mapping is one entry of the table of the ring that starts at base. */
  lemma WrittenSlot(m: seq<byte>, w: seq<byte>, base: nat, index: nat, slotSize: nat, capacity: nat, slot: seq<byte>)
    requires Geometry(slotSize, capacity) && base + Need(slotSize, capacity) <= |m| && |slot| == slotSize
    requires var at := base + SlotOffset(index, slotSize, capacity);
      at + slotSize <= |m| && w == Splice(m, at, slot)
    ensures var n := Need(slotSize, capacity);
      SlotTable(w[base..base + n], slotSize, capacity)
        == SlotTable(m[base..base + n], slotSize, capacity)[Position(index, capacity) := slot]
  {
    hide SlotTable, SlotOffset, Need, Position, Splice;
    var off, n := SlotOffset(index, slotSize, capacity), Need(slotSize, capacity);
    SlotInside(index, slotSize, capacity);
    SpliceFramesSlot(m, base + off, slot);
    WriteFromBase(m, w, base, n, off, slotSize);
    WriteOneSlot(m[base..base + n], w[base..base + n], index, slotSize, capacity);
    assert SlotIn(w[base..base + n], index, slotSize, capacity) == slot;
  }

  lemma SpliceFramesSlot(m: seq<byte>, at: nat, slot: seq<byte>)
    requires at + |slot| <= |m|
    ensures Splice(m, at, slot)[..at] == m[..at] && Splice(m, at, slot)[at + |slot|..] == m[at + |slot|..]
  {}

  /** Giving up a begun slot, as a failed encoding does, touches nothing in the ring. */
  lemma Abandoning(r: SharedRing, s: P.State<seq<byte>>)
    requires r.Valid() && P.Inv(s) && Shows(r, s) && s.producer.Writing?
    ensures var e := P.Apply(s, P.Abandon);
      P.Inv(e) && Shows(r, e) && e.producer.Idle? && e.Queue() == s.Queue()
  {
    P.StepRefinesQueue(s, P.Abandon);
  }

  /** Committing is the producer's load and its store of the head. */
  method ProduceCommit(r: SharedRing, ghost s: P.State<seq<byte>>) returns (ghost e: P.State<seq<byte>>)
    requires r.Valid() && P.Inv(s) && Shows(r, s) && s.producer.Writing?
    modifies r`head
    ensures r.Valid() && e == P.Apply(P.Apply(s, P.CommitLoad), P.CommitStore) && P.Inv(e) && Shows(r, e)
    ensures e.Queue() == s.Queue() + [s.slots[s.producer.head % s.capacity]]
  {
    ShownQueue(r, s);
    e := P.Apply(P.Apply(s, P.CommitLoad), P.CommitStore);
    Committed(s);
    hide P.Inv, P.Apply, P.State.Queue, SlotTable;
    r.ProduceCommit();
  }

  /** What the two steps of a commit leave behind. */
  lemma Committed(s: P.State<seq<byte>>)
    requires P.Inv(s) && s.producer.Writing?
    ensures |s.Queue()| < s.capacity
    ensures var e := P.Apply(P.Apply(s, P.CommitLoad), P.CommitStore);
      && P.Inv(e) && e.Queue() == s.Queue() + [s.slots[s.producer.head % s.capacity]]
      && e.head == P.Next(s.head) && e.producer.Idle?
      && (e.capacity, e.tail, e.slots, e.consumer) == (s.capacity, s.tail, s.slots, s.consumer)
  {
    var t := P.Apply(s, P.CommitLoad);
    assert t.Queue() == s.Queue() && t.producer.head == s.head;
    P.StepRefinesQueue(s, P.CommitLoad);
    P.StepRefinesQueue(t, P.CommitStore);
    hide P.SlotIndex, P.SlotsHoldQueue;
  }

  /** Beginning a read is the consumer's two loads, and offers the slot it then holds. */
  method ConsumeBegin(r: SharedRing, ghost s: P.State<seq<byte>>) returns (ok: bool, at: nat, ghost e: P.State<seq<byte>>)
    requires r.Valid() && P.Inv(s) && Shows(r, s) && s.consumer.Idle?
    ensures e == P.Apply(P.Apply(s, P.ConsumerLoadTail), P.ConsumerLoadHead) && P.Inv(e) && Shows(r, e)
    ensures ok <==> e.consumer.Reading?
    ensures ok ==> at + r.slotSize <= r.mem.Length && r.mem[at..at + r.slotSize] == e.slots[e.consumer.tail % e.capacity]
  {
    ShownQueue(r, s);
    var t := P.Apply(s, P.ConsumerLoadTail);
    P.StepRefinesQueue(s, P.ConsumerLoadTail);
    P.BeginOutcomes(t);
    P.StepRefinesQueue(t, P.ConsumerLoadHead);
    e := P.Apply(t, P.ConsumerLoadHead);
    if e.consumer.Reading? { P.ReadIsOldestAndDisjoint(e); }
    hide P.Inv, SlotTable;
    ok, at := r.ConsumeBegin();
  }

  /** Releasing is the consumer's load and its store of the tail. */
  method ConsumeCommit(r: SharedRing, ghost s: P.State<seq<byte>>) returns (ghost e: P.State<seq<byte>>)
    requires r.Valid() && P.Inv(s) && Shows(r, s) && s.consumer.Reading?
    modifies r`tail
    ensures r.Valid() && e == P.Apply(P.Apply(s, P.ReleaseLoad), P.ReleaseStore) && P.Inv(e) && Shows(r, e)
    ensures e.Queue() == s.Queue()[1..]
  {
    ShownQueue(r, s);
    e := P.Apply(P.Apply(s, P.ReleaseLoad), P.ReleaseStore);
    Released(s);
    hide P.Inv, P.Apply, P.State.Queue, SlotTable;
    r.ConsumeCommit();
  }

  /** What the two steps of a release leave behind. */
  lemma Released(s: P.State<seq<byte>>)
    requires P.Inv(s) && s.consumer.Reading?
    ensures s.Queue() != []
    ensures var e := P.Apply(P.Apply(s, P.ReleaseLoad), P.ReleaseStore);
      && P.Inv(e) && e.Queue() == s.Queue()[1..]
      && e.tail == P.Next(s.tail) && e.consumer.Idle?
      && (e.capacity, e.head, e.slots, e.producer) == (s.capacity, s.head, s.slots, s.producer)
  {
    var t := P.Apply(s, P.ReleaseLoad);
    assert t.Queue() == s.Queue() && t.consumer.tail == s.tail;
    P.StepRefinesQueue(s, P.ReleaseLoad);
    P.StepRefinesQueue(t, P.ReleaseStore);
    hide P.SlotIndex, P.SlotsHoldQueue, P.Counted;
  }
}
