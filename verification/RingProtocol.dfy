/** The shared ring as a step system: every atomic load or store of an index, and every
    write into a slot, is one step, and the two sides interleave arbitrarily.

    Indices are 64-bit and wrap. The history fields (base, produced, consumed) record what was
    committed and released; base is the tail found when the ring was attached. */
module RingProtocol {
  import opened Bytes
  import Bits

  datatype Producer = Idle | HeadLoaded(head: u64) | Writing(head: u64) | CommitLoaded(head: u64)
  datatype Consumer = Idle | TailLoaded(tail: u64) | Reading(tail: u64) | Releasing(tail: u64)

  datatype State<T> = State(
    capacity: nat, head: u64, tail: u64, slots: seq<T>,
    producer: Producer, consumer: Consumer,
    base: nat, produced: seq<T>, consumed: seq<T>)
  {
    /** The committed slots not yet released, oldest first. */
    function Queue(): seq<T>
      requires |consumed| <= |produced|
    {
      produced[|consumed|..]
    }
  }

  datatype Step<T> =
    | ProducerLoadHead | ProducerLoadTail | Write(value: T) | Abandon | CommitLoad | CommitStore
    | ConsumerLoadTail | ConsumerLoadHead | ReleaseLoad | ReleaseStore
  {
    predicate ByConsumer() {
      ConsumerLoadTail? || ConsumerLoadHead? || ReleaseLoad? || ReleaseStore?
    }
  }

  /** The slot of the i-th index counted from the attached tail, before any wrap. */
  function SlotIndex(base: nat, capacity: nat, i: nat): (index: nat)
    requires capacity > 0
    ensures index < capacity
  {
    (base + i) % capacity
  }

  /** head - tail in 64-bit arithmetic. */
  function Distance(head: u64, tail: u64): u64 { (head - tail) % TWO_64 }

  function Next(index: u64): u64 { (index + 1) % TWO_64 }

  /** One step of either side; a step whose side is not at the matching point does nothing. */
  function Apply<T>(s: State<T>, step: Step<T>): State<T>
    requires s.capacity > 0 && |s.slots| == s.capacity
  {
    match step
    case ProducerLoadHead =>
      if s.producer.Idle? then s.(producer := Producer.HeadLoaded(s.head)) else s
    case ProducerLoadTail =>
      if !s.producer.HeadLoaded? then s
      else if Distance(s.producer.head, s.tail) >= s.capacity then s.(producer := Producer.Idle)
      else s.(producer := Producer.Writing(s.producer.head))
    case Write(v) =>
      if s.producer.Writing? then s.(slots := s.slots[s.producer.head % s.capacity := v]) else s
    case Abandon => // an emit that cannot encode leaves its slot; the next one begins again
      if s.producer.Writing? then s.(producer := Producer.Idle) else s
    case CommitLoad =>
      if s.producer.Writing? then s.(producer := Producer.CommitLoaded(s.head)) else s
    case CommitStore =>
      if s.producer.CommitLoaded?
      then s.(head := Next(s.producer.head), producer := Producer.Idle,
              produced := s.produced + [s.slots[s.producer.head % s.capacity]])
      else s
    case ConsumerLoadTail =>
      if s.consumer.Idle? then s.(consumer := Consumer.TailLoaded(s.tail)) else s
    case ConsumerLoadHead =>
      if !s.consumer.TailLoaded? then s
      else if s.head == s.consumer.tail then s.(consumer := Consumer.Idle)
      else s.(consumer := Consumer.Reading(s.consumer.tail))
    case ReleaseLoad =>
      if s.consumer.Reading? then s.(consumer := Consumer.Releasing(s.tail)) else s
    case ReleaseStore =>
      if s.consumer.Releasing?
      then s.(tail := Next(s.consumer.tail), consumer := Consumer.Idle,
              consumed := s.consumed + [s.slots[s.consumer.tail % s.capacity]])
      else s
  }

  ghost predicate Counted<T>(s: State<T>) {
    && 2 <= s.capacity < 0x1_0000_0000 && Bits.IsPowerOfTwo(s.capacity) && |s.slots| == s.capacity
    && |s.consumed| <= |s.produced| <= |s.consumed| + s.capacity
    && s.head == (s.base + |s.produced|) % TWO_64
    && s.tail == (s.base + |s.consumed|) % TWO_64
  }

  ghost predicate SlotsHoldQueue<T>(s: State<T>)
    requires s.capacity > 0 && |s.slots| == s.capacity
  {
    && |s.consumed| <= |s.produced|
    && s.consumed == s.produced[..|s.consumed|]
    && forall i :: |s.consumed| <= i < |s.produced| ==> s.slots[SlotIndex(s.base, s.capacity, i)] == s.produced[i]
  }

  ghost predicate SidesConsistent<T>(s: State<T>) {
    && (!s.producer.Idle? ==> s.producer.head == s.head)
    && (s.producer.Writing? || s.producer.CommitLoaded? ==> |s.produced| < |s.consumed| + s.capacity)
    && (!s.consumer.Idle? ==> s.consumer.tail == s.tail)
    && (s.consumer.Reading? || s.consumer.Releasing? ==> |s.consumed| < |s.produced|)
  }

  ghost predicate Inv<T>(s: State<T>) {
    Counted(s) && SlotsHoldQueue(s) && SidesConsistent(s)
  }

  lemma SlotOf<T>(s: State<T>, i: nat)
    requires Counted(s)
    ensures ((s.base + i) % TWO_64) % s.capacity == SlotIndex(s.base, s.capacity, i)
  {
    var q := Bits.PowerOfTwoDivides(s.capacity);
    Bits.WrapKeepsSlot(s.base + i, s.capacity, q);
  }

  lemma SlotsDiffer<T>(s: State<T>, i: nat)
    requires Counted(s) && |s.produced| < |s.consumed| + s.capacity
    requires |s.consumed| <= i < |s.produced|
    ensures SlotIndex(s.base, s.capacity, i) != SlotIndex(s.base, s.capacity, |s.produced|)
  {
    Bits.NearIndicesDiffer(s.base + i, s.base + |s.produced|, s.capacity);
  }

  /** Occupancy read off the wrapped indices is the true queue length, and equal indices mean empty. */
  lemma Occupancy<T>(s: State<T>)
    requires Counted(s)
    ensures Distance(s.head, s.tail) == |s.produced| - |s.consumed| <= s.capacity
    ensures s.head == s.tail <==> |s.produced| == |s.consumed|
  {
    Bits.WrappedDistance(s.base + |s.produced|, s.base + |s.consumed|);
  }

  lemma IncrementWraps(n: nat)
    ensures Next(n % TWO_64) == (n + 1) % TWO_64
  {}

  /** The abstract queue after a step: a commit appends the written slot, a release drops the
      oldest, and every other step leaves the queue alone. */
  ghost function QueueAfter<T>(s: State<T>, step: Step<T>): seq<T>
    requires Inv(s)
  {
    if step.CommitStore? && s.producer.CommitLoaded? then
      s.Queue() + [s.slots[s.producer.head % s.capacity]]
    else if step.ReleaseStore? && s.consumer.Releasing? then s.Queue()[1..]
    else s.Queue()
  }

  lemma WriteStep<T>(s: State<T>, step: Step<T>)
    requires Inv(s) && step.Write?
    ensures Inv(Apply(s, step))
  {
    hide SlotIndex;
    SlotOf(s, |s.produced|);
    forall i | |s.consumed| <= i < |s.produced| && s.producer.Writing?
      ensures SlotIndex(s.base, s.capacity, i) != s.producer.head % s.capacity
    {
      SlotsDiffer(s, i);
    }
  }

  lemma CommitStep<T>(s: State<T>, step: Step<T>)
    requires Inv(s) && step.CommitStore?
    ensures Inv(Apply(s, step)) && Apply(s, step).Queue() == QueueAfter(s, step)
  {
    hide SlotIndex;
    if s.producer.CommitLoaded? {
      SlotOf(s, |s.produced|);
      IncrementWraps(s.base + |s.produced|);
    }
  }

  lemma ReleaseCounts<T>(s: State<T>)
    requires Inv(s) && s.consumer.Releasing?
    ensures Counted(Apply(s, ReleaseStore))
  {
    hide SlotIndex, SlotsHoldQueue;
    IncrementWraps(s.base + |s.consumed|);
  }

  lemma ReleaseTakesOldest<T>(s: State<T>)
    requires Inv(s) && s.consumer.Releasing?
    ensures s.slots[s.consumer.tail % s.capacity] == s.produced[|s.consumed|]
  {
    hide SlotIndex;
    SlotOf(s, |s.consumed|);
  }

  lemma ReleaseStep<T>(s: State<T>, step: Step<T>)
    requires Inv(s) && step.ReleaseStore?
    ensures Inv(Apply(s, step)) && Apply(s, step).Queue() == QueueAfter(s, step)
  {
    if s.consumer.Releasing? {
      ReleaseCounts(s);
      ReleaseTakesOldest(s);
      hide SlotIndex, Counted;
      assert s.produced[..|s.consumed| + 1] == s.produced[..|s.consumed|] + [s.produced[|s.consumed|]];
    }
  }

  /** Every atomic step, from either side, refines a bounded FIFO queue. */
  lemma StepRefinesQueue<T>(s: State<T>, step: Step<T>)
    requires Inv(s)
    ensures Inv(Apply(s, step)) && Apply(s, step).Queue() == QueueAfter(s, step)
    ensures |Apply(s, step).Queue()| <= s.capacity
  {
    Occupancy(s);
    if step.Write? { WriteStep(s, step); }
    else if step.CommitStore? { CommitStep(s, step); }
    else if step.ReleaseStore? { ReleaseStep(s, step); }
  }

  /** Full is reported exactly when the queue holds capacity slots at the tail load, and empty
      exactly when it holds none at the head load. */
  lemma BeginOutcomes<T>(s: State<T>)
    requires Inv(s)
    ensures s.producer.HeadLoaded? ==>
      (Apply(s, ProducerLoadTail).producer.Idle? <==> |s.Queue()| == s.capacity)
    ensures s.consumer.TailLoaded? ==>
      (Apply(s, ConsumerLoadHead).consumer.Idle? <==> s.Queue() == [])
  {
    Occupancy(s);
  }

  /** The slot being read is the oldest committed one and is never the slot being written. */
  lemma ReadIsOldestAndDisjoint<T>(s: State<T>)
    requires Inv(s) && (s.consumer.Reading? || s.consumer.Releasing?)
    ensures s.slots[s.consumer.tail % s.capacity] == s.Queue()[0]
    ensures s.producer.Writing? || s.producer.CommitLoaded? ==>
      s.producer.head % s.capacity != s.consumer.tail % s.capacity
  {
    SlotOf(s, |s.consumed|);
    SlotOf(s, |s.produced|);
    if s.producer.Writing? || s.producer.CommitLoaded? { SlotsDiffer(s, |s.consumed|); }
  }

  function Run<T>(s: State<T>, steps: seq<Step<T>>): (e: State<T>)
    requires s.capacity > 0 && |s.slots| == s.capacity
    ensures e.capacity == s.capacity && |e.slots| == e.capacity && e.base == s.base
    decreases |steps|
  {
    if steps == [] then s else Run(Apply(s, steps[0]), steps[1..])
  }

  lemma HistoriesGrow<T>(s: State<T>, step: Step<T>)
    requires Inv(s)
    ensures s.produced <= Apply(s, step).produced && s.consumed <= Apply(s, step).consumed
  {}

  lemma InvGivesFifo<T>(s: State<T>)
    requires Inv(s)
    ensures s.consumed <= s.produced && s.produced == s.consumed + s.Queue()
    ensures Distance(s.head, s.tail) == |s.Queue()| <= s.capacity
  {
    Occupancy(s);
  }

  /** Over every interleaving, from any attached ring and across index wrap: the occupancy stays
      within capacity and the slots released are, in order, a prefix of the slots committed. */
  lemma {:induction false} RunIsFifo<T>(s: State<T>, steps: seq<Step<T>>)
    requires Inv(s)
    ensures Inv(Run(s, steps))
    ensures var e := Run(s, steps);
      && s.produced <= e.produced && s.consumed <= e.consumed <= e.produced
      && e.produced == e.consumed + e.Queue()
      && Distance(e.head, e.tail) == |e.Queue()| <= e.capacity
    decreases |steps|
  {
    InvGivesFifo(s);
    if steps != [] {
      StepRefinesQueue(s, steps[0]);
      HistoriesGrow(s, steps[0]);
      RunIsFifo(Apply(s, steps[0]), steps[1..]);
    }
  }

  lemma ProducerStepKeepsRead<T>(s: State<T>, step: Step<T>)
    requires Inv(s) && s.consumer.Reading? && !step.ByConsumer()
    ensures Apply(s, step).consumer == s.consumer && Apply(s, step).capacity == s.capacity
    ensures Apply(s, step).slots[s.consumer.tail % s.capacity] == s.slots[s.consumer.tail % s.capacity]
  {
    ReadIsOldestAndDisjoint(s);
  }

  /** A slot handed to the reader keeps its value through any number of producer steps. */
  lemma {:induction false} ReadSlotIsStable<T>(s: State<T>, steps: seq<Step<T>>)
    requires Inv(s) && s.consumer.Reading?
    requires forall k :: 0 <= k < |steps| ==> !steps[k].ByConsumer()
    ensures Run(s, steps).consumer == s.consumer
    ensures Run(s, steps).slots[s.consumer.tail % s.capacity] == s.slots[s.consumer.tail % s.capacity]
    decreases |steps|
  {
    if steps != [] {
      ProducerStepKeepsRead(s, steps[0]);
      StepRefinesQueue(s, steps[0]);
      ReadSlotIsStable(Apply(s, steps[0]), steps[1..]);
    }
  }

  lemma {:induction false} NoCommitNoGrowth<T>(s: State<T>, steps: seq<Step<T>>)
    requires Inv(s) && CommitStore !in steps
    ensures Run(s, steps).produced == s.produced
    decreases |steps|
  {
    if steps != [] {
      assert steps[0] in steps;
      StepRefinesQueue(s, steps[0]);
      NoCommitNoGrowth(Apply(s, steps[0]), steps[1..]);
    }
  }

  /** A begun slot stays invisible until its commit store: whatever both sides do before it, the
      head does not move, and everything the consumer takes or holds was committed before. */
  lemma InvisibleUntilCommit<T>(s: State<T>, steps: seq<Step<T>>)
    requires Inv(s) && CommitStore !in steps
    ensures var e := Run(s, steps);
      && e.head == s.head && e.consumed <= s.produced
      && (e.consumer.Reading? || e.consumer.Releasing? ==>
        && |e.consumed| < |s.produced|
        && e.slots[e.consumer.tail % e.capacity] == s.produced[|e.consumed|]
        && (e.producer.Writing? || e.producer.CommitLoaded? ==> e.producer.head % e.capacity != e.consumer.tail % e.capacity))
  {
    RunIsFifo(s, steps);
    NoCommitNoGrowth(s, steps);
    var e := Run(s, steps);
    hide Run, Apply;
    if e.consumer.Reading? || e.consumer.Releasing? {
      ReadIsOldestAndDisjoint(e);
    }
  }
}
