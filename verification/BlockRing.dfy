/** The block ring of the Airspy and RTL-SDR receivers: a driver thread pushes whole blocks, one reader
    takes them out in fragments, and the two share an atomic count instead of a lock. The model is a state
    machine over the accesses that another thread can interleave with. */
module BlockRing {
  import opened RingIndex
  import opened Sequences

  type Sample = int

  /** A block handed to the callback; id is its rank among all blocks ever handed over. */
  datatype Block = Block(id: nat, data: seq<Sample>)

  /** Where the callback is: before the full test, past it with the ring found full, holding a block that passed it,
      done copying, or past the tail increment but not yet past the count increment. */
  datatype Producer = Idle | Full | Admitted(block: Block) | Copied(block: Block) | Advanced

  /** Where the reader is. The numbers in ResetTaken and OverflowTaken are the result of the atomic exchange
      that has emptied the count and not yet been added to the head index; in ResetCleared the reset flag has been
      cleared and the overflow flag not yet. */
  datatype Reader =
    | Outside
    | Dropping
    | TestReset
    | ResetTaken(drained: nat)
    | ResetCleared
    | TestOverflow
    | OverflowTaken(drained: nat)
    | TestCount
    | Waiting
    | Extract
    | Copying
    | Releasing

  /** A result of readStream. Data also records how many resets had been requested when the block was
      committed and when the call started, and how many elements the caller asked for. */
  datatype Return =
    | Data(samples: seq<Sample>, committed: nat, started: nat, asked: nat)
    | Overflow
    | Timeout

  /** The fields of the driver object, the two program counters, and history (from `produced` on).
      dropOnReset is true for RTL-SDR, whose readStream drops a partly read block when a reset is pending. */
  datatype Ring = Ring(
    n: nat,
    dropOnReset: bool,
    slots: seq<Block>,
    head: nat,
    tail: nat,
    count: nat,
    overflow: bool,
    reset: bool,
    buffered: nat,
    handle: nat,
    offset: nat,
    producer: Producer,
    reader: Reader,
    produced: seq<seq<Sample>>,  // every block given to the callback
    base: nat,                   // how many blocks have left the ring
    queue: seq<Block>,           // the blocks in the ring, oldest first, the held one included
    stamps: seq<nat>,            // per committed block of the queue: requests made before its commit
    requests: nat,               // reset requests so far
    callRequests: nat,           // reset requests made before the current readStream call started
    taken: seq<Block>,           // the blocks that left by being read, each cut to what was read of it
    results: seq<Return>)

  datatype Action =
    // the callback
    | CheckFull(data: seq<Sample>)
    | RaiseOverflow
    | Refuse(data: seq<Sample>)
    | Scribble(garbage: Block)
    | Copy
    | AdvanceTail
    | Publish
    // the settings thread
    | Request
    // the reader
    | StartCall
    | DropRemainder
    | TestResetFlag
    | FinishReset
    | ClearOverflow
    | TestOverflowFlag
    | FinishOverflow
    | TestCountZero
    | WakeUp
    | GiveUp
    | ExtractHandle
    | CopyOut(numElems: nat)
    | Release

  ghost predicate Held(s: Ring) {
    s.reader.Dropping? || s.reader.Copying? || s.reader.Releasing? || (s.reader.Outside? && s.buffered > 0)
  }

  ghost function HeldCount(s: Ring): nat {
    if Held(s) then 1 else 0
  }

  ghost function Pending(s: Ring): nat {
    if s.producer.Advanced? then 1 else 0
  }

  ghost predicate Writing(s: Ring) {
    s.producer.Admitted? || s.producer.Copied?
  }

  /** How far the head index lags behind a drain in progress. */
  ghost function Lag(s: Ring): nat {
    match s.reader
    case ResetTaken(c) => c
    case OverflowTaken(c) => c
    case _ => 0
  }

  ghost function Init(n: nat, dropOnReset: bool, slots: seq<Block>): Ring
    requires n > 0 && |slots| == n
  {
    Ring(n, dropOnReset, slots, 0, 0, 0, false, false, 0, 0, 0, Idle, Outside, [], 0, [], [], 0, 0, [], [])
  }

  /** The control points and the data each step tests. */
  ghost predicate Ready(s: Ring, a: Action) {
    match a
    case CheckFull(_) => s.producer.Idle?
    case RaiseOverflow => s.producer.Full?
    case Refuse(_) => s.producer.Idle?
    case Scribble(_) => s.producer.Admitted?
    case Copy => s.producer.Admitted?
    case AdvanceTail => s.producer.Copied?
    case Publish => s.producer.Advanced?
    case Request => true
    case StartCall => s.reader.Outside?
    case DropRemainder => s.reader.Dropping?
    case TestResetFlag => s.reader.TestReset?
    case FinishReset => s.reader.ResetTaken?
    case ClearOverflow => s.reader.ResetCleared?
    case TestOverflowFlag => s.reader.TestOverflow?
    case FinishOverflow => s.reader.OverflowTaken?
    case TestCountZero => s.reader.TestCount?
    case WakeUp => s.reader.Waiting? && s.count != 0
    case GiveUp => s.reader.Waiting? && s.count == 0
    case ExtractHandle => s.reader.Extract?
    case CopyOut(_) => s.reader.Copying?
    case Release => s.reader.Releasing?
  }

  /** What must hold for the step not to index outside a buffer or drive the count below zero. */
  ghost predicate Safe(s: Ring, a: Action) {
    && s.n > 0 && |s.slots| == s.n
    && (a.Scribble? || a.Copy? ==> s.tail < s.n)
    && (a.Publish? ==> s.count < |s.queue|)
    && (a.DropRemainder? || a.Release? ==>
          s.count > 0 && |s.queue| > 0 && |s.stamps| > 0 && s.offset <= |s.queue[0].data|)
    && (a.TestResetFlag? || a.TestOverflowFlag? ==> s.count <= |s.queue|)
    && (a.ExtractHandle? ==> s.head < s.n)
    && (a.CopyOut? ==> s.handle < s.n && s.offset + s.buffered <= |s.slots[s.handle].data| && |s.stamps| > 0)
  }

  ghost predicate Enabled(s: Ring, a: Action) {
    Ready(s, a) && Safe(s, a)
  }

  /** The oldest block leaves the ring after its first `used` samples were read. */
  ghost function Retire(s: Ring, used: nat, next: Reader): Ring
    requires s.count > 0 && |s.queue| > 0 && |s.stamps| > 0 && used <= |s.queue[0].data|
  {
    s.(count := s.count - 1, base := s.base + 1, queue := s.queue[1..], stamps := s.stamps[1..],
       taken := s.taken + [Block(s.queue[0].id, s.queue[0].data[..used])], reader := next)
  }

  /** The atomic exchange of the count with zero: every committed block leaves unread. */
  ghost function Exchange(s: Ring, next: Reader): Ring
    requires s.count <= |s.queue|
  {
    s.(count := 0, base := s.base + s.count, queue := s.queue[s.count..], stamps := [], reader := next)
  }

  ghost function Apply(s: Ring, a: Action): Ring
    requires Enabled(s, a)
  {
    if OfProducer(a) then Produce(s, a) else if OfDrain(a) then Drain(s, a) else Deliver(s, a)
  }

  /** The steps of the callback and of the settings thread. */
  ghost predicate OfProducer(a: Action) {
    || a.CheckFull? || a.RaiseOverflow? || a.Refuse? || a.Scribble? || a.Copy? || a.AdvanceTail? || a.Publish?
    || a.Request?
  }

  ghost function Produce(s: Ring, a: Action): Ring
    requires Enabled(s, a) && OfProducer(a)
  {
    match a
    case CheckFull(data) =>
      s.(produced := s.produced + [data],
         producer := if s.count == s.n then Full else Admitted(Block(|s.produced|, data)))
    case RaiseOverflow => s.(overflow := true, producer := Idle)
    case Refuse(data) => s.(produced := s.produced + [data])
    case Scribble(garbage) => s.(slots := s.slots[s.tail := garbage])
    case Copy => s.(slots := s.slots[s.tail := s.producer.block], producer := Copied(s.producer.block))
    case AdvanceTail =>
      s.(tail := Wrap(s.tail + 1, s.n), queue := s.queue + [s.producer.block], producer := Advanced)
    case Publish => s.(count := s.count + 1, stamps := s.stamps + [s.requests], producer := Idle)
    case Request => s.(reset := true, requests := s.requests + 1)
  }

  /** The reader's flag tests and drains. */
  ghost predicate OfDrain(a: Action) {
    a.TestResetFlag? || a.FinishReset? || a.ClearOverflow? || a.TestOverflowFlag? || a.FinishOverflow?
  }

  ghost function Drain(s: Ring, a: Action): Ring
    requires Enabled(s, a) && OfDrain(a)
  {
    match a
    // Only the reader clears the two flags, so a flag seen true is still true at the exchange.
    case TestResetFlag => if s.reset then Exchange(s, ResetTaken(s.count)) else s.(reader := TestOverflow)
    case FinishReset =>
      s.(head := Wrap(s.head + s.reader.drained, s.n), reset := false, reader := ResetCleared)
    case ClearOverflow => s.(overflow := false, reader := TestOverflow)
    case TestOverflowFlag => if s.overflow then Exchange(s, OverflowTaken(s.count)) else s.(reader := TestCount)
    case FinishOverflow =>
      s.(head := Wrap(s.head + s.reader.drained, s.n), overflow := false, reader := Outside,
         results := s.results + [Overflow])
  }

  /** The reader's other steps. */
  ghost function Deliver(s: Ring, a: Action): Ring
    requires Enabled(s, a) && !OfProducer(a) && !OfDrain(a)
  {
    match a
    case StartCall =>
      var t := s.(callRequests := s.requests);
      if s.dropOnReset && s.reset && s.buffered != 0 then t.(buffered := 0, reader := Dropping)
      else if s.buffered == 0 then t.(reader := TestReset)
      else t.(reader := Copying)
    case DropRemainder => Retire(s, s.offset, TestReset)
    case TestCountZero => s.(reader := if s.count == 0 then Waiting else Extract)
    case WakeUp => s.(reader := Extract)
    case GiveUp => s.(reader := Outside, results := s.results + [Timeout])
    case ExtractHandle =>
      s.(handle := s.head, head := Wrap(s.head + 1, s.n), offset := 0, buffered := |s.slots[s.head].data|,
         reader := Copying)
    case CopyOut(numElems) =>
      var k := Min(s.buffered, numElems);
      s.(buffered := s.buffered - k, offset := s.offset + k,
         results := s.results +
           [Data(s.slots[s.handle].data[s.offset..s.offset + k], s.stamps[0], s.callRequests, numElems)],
         reader := if s.buffered - k != 0 then Outside else Releasing)
    case Release => Retire(s, s.offset, Outside)
  }

  /** t is reached from s by the interleaving acts. */
  ghost predicate Run(s: Ring, acts: seq<Action>, t: Ring)
    decreases |acts|
  {
    if acts == [] then s == t
    else Enabled(s, acts[0]) && Run(Apply(s, acts[0]), acts[1..], t)
  }

  /** All samples handed to the caller, in order. */
  ghost function Samples(results: seq<Return>): seq<Sample> {
    if results == [] then []
    else Samples(results[..|results| - 1]) +
         (match results[|results| - 1] case Data(d, _, _, _) => d case _ => [])
  }

  lemma SamplesSnoc(results: seq<Return>, r: Return)
    ensures Samples(results + [r]) == Samples(results) + (match r case Data(d, _, _, _) => d case _ => [])
  {
    assert (results + [r])[..|results + [r]| - 1] == results;
  }

  ghost function DataOf(blocks: seq<Block>): seq<seq<Sample>> {
    seq(|blocks|, i requires 0 <= i < |blocks| => blocks[i].data)
  }

  lemma DataOfSnoc(blocks: seq<Block>, b: Block)
    ensures DataOf(blocks + [b]) == DataOf(blocks) + [b.data]
  {
  }

  // ---- The invariant ----

  ghost predicate Shape(s: Ring) {
    && s.n > 0 && |s.slots| == s.n && s.head < s.n
    && |s.queue| == s.count + Pending(s) <= s.n
    && |s.stamps| == s.count
    && (Writing(s) ==> s.count < s.n)
    && HeldCount(s) <= s.count
  }

  ghost predicate Indices(s: Ring)
    requires Shape(s)
  {
    && s.tail == SlotOf(s.base, |s.queue|, s.n)
    && Wrap(s.head + Lag(s), s.n) == SlotOf(s.base, HeldCount(s), s.n)
    && (Held(s) ==> s.handle == SlotOf(s.base, 0, s.n))
  }

  ghost predicate Contents(s: Ring)
    requires Shape(s) && Indices(s)
  {
    && (forall i: nat :: i < |s.queue| ==> s.slots[SlotOf(s.base, i, s.n)] == s.queue[i])
    && (s.producer.Copied? ==> s.slots[s.tail] == s.producer.block)
  }

  ghost predicate Genuine(b: Block, produced: seq<seq<Sample>>) {
    b.id < |produced| && b.data == produced[b.id]
  }

  ghost predicate Excerpt(b: Block, produced: seq<seq<Sample>>) {
    b.id < |produced| && |b.data| <= |produced[b.id]| && b.data == produced[b.id][..|b.data|]
  }

  ghost predicate Increasing(blocks: seq<Block>) {
    forall i, j :: 0 <= i < j < |blocks| ==> blocks[i].id < blocks[j].id
  }

  ghost function LastId(blocks: seq<Block>): int {
    if blocks == [] then -1 else blocks[|blocks| - 1].id
  }

  ghost predicate AllGenuine(blocks: seq<Block>, produced: seq<seq<Sample>>) {
    forall i :: 0 <= i < |blocks| ==> Genuine(blocks[i], produced)
  }

  ghost predicate AllExcerpts(blocks: seq<Block>, produced: seq<seq<Sample>>) {
    forall i :: 0 <= i < |blocks| ==> Excerpt(blocks[i], produced)
  }

  /** Blocks read, blocks in the ring and the block being written follow each other in the order produced. */
  ghost predicate Order(s: Ring) {
    && Increasing(s.taken + s.queue)
    && AllGenuine(s.queue, s.produced)
    && AllExcerpts(s.taken, s.produced)
    && (!s.dropOnReset ==> AllGenuine(s.taken, s.produced))
    && (if Writing(s) then Genuine(s.producer.block, s.produced) && LastId(s.taken + s.queue) < s.producer.block.id
        else LastId(s.taken + s.queue) < |s.produced|)
  }

  ghost predicate Output(s: Ring)
    requires Shape(s)
  {
    && (Held(s) ==> s.offset + s.buffered <= |s.queue[0].data|
                    && (!s.reader.Dropping? ==> s.offset + s.buffered == |s.queue[0].data|))
    && (!Held(s) ==> s.buffered == 0)
    && (s.reader.Releasing? || s.reader.Dropping? ==> s.buffered == 0)
    && (s.reader.Extract? ==> s.count > 0)
    && (s.reader.Dropping? ==> s.dropOnReset)
    && Samples(s.results) ==
       Flatten(DataOf(s.taken)) + (if Held(s) then s.queue[0].data[..s.offset] else [])
  }

  ghost predicate Inv(s: Ring) {
    Shape(s) && Indices(s) && Contents(s) && Order(s) && Output(s)
  }

  lemma InitInv(n: nat, dropOnReset: bool, slots: seq<Block>)
    requires n > 0 && |slots| == n
    ensures Inv(Init(n, dropOnReset, slots))
  {
  }

  // ---- One step ----

  /** No reachable step reads or writes outside a buffer or takes the count below zero. */
  lemma StepSafe(s: Ring, a: Action)
    requires Inv(s) && Ready(s, a)
    ensures Safe(s, a)
  {
  }

  /** The slot the callback writes holds no queued block and is not the one the reader is copying from. */
  lemma ProducerSlotFree(s: Ring)
    requires Inv(s) && Writing(s)
    ensures forall i: nat :: i < |s.queue| ==> SlotOf(s.base, i, s.n) != s.tail
    ensures Held(s) ==> s.handle != s.tail
  {
    hide Wrap, Order, Output;
    WindowDistinct(s.base, |s.queue|, s.n);
  }

  lemma GrowProduced(blocks: seq<Block>, produced: seq<seq<Sample>>, data: seq<Sample>)
    ensures AllGenuine(blocks, produced) ==> AllGenuine(blocks, produced + [data])
    ensures AllExcerpts(blocks, produced) ==> AllExcerpts(blocks, produced + [data])
  {
  }

  lemma RefuseStep(s: Ring, data: seq<Sample>)
    requires Inv(s) && Enabled(s, Refuse(data))
    ensures Inv(Apply(s, Refuse(data)))
  {
    hide SlotOf, Wrap, Increasing, AllGenuine, AllExcerpts, Samples, Flatten, DataOf;
    GrowProduced(s.queue, s.produced, data);
    GrowProduced(s.taken, s.produced, data);
  }

  lemma CheckFullStep(s: Ring, data: seq<Sample>)
    requires Inv(s) && Enabled(s, CheckFull(data))
    ensures Inv(Apply(s, CheckFull(data)))
  {
    hide LastId, SlotOf, Wrap, Increasing, AllGenuine, AllExcerpts, Samples, Flatten, DataOf;
    RefuseStep(s, data);
    var u := Apply(s, Refuse(data));
    assert Apply(s, CheckFull(data)) ==
           u.(producer := if s.count == s.n then Full else Admitted(Block(|s.produced|, data)));
  }

  lemma ScribbleStep(s: Ring, garbage: Block)
    requires Inv(s) && Enabled(s, Scribble(garbage))
    ensures Inv(Apply(s, Scribble(garbage)))
  {
    hide Wrap, Increasing, AllGenuine, AllExcerpts, Samples, Flatten;
    ProducerSlotFree(s);
  }

  lemma CopyStep(s: Ring)
    requires Inv(s) && Enabled(s, Copy)
    ensures Inv(Apply(s, Copy))
  {
    hide Wrap, Increasing, AllGenuine, AllExcerpts, Samples, Flatten;
    ProducerSlotFree(s);
  }

  lemma IncreasingSnoc(blocks: seq<Block>, b: Block)
    requires Increasing(blocks) && LastId(blocks) < b.id
    ensures Increasing(blocks + [b])
  {
  }

  lemma AdvanceTailStep(s: Ring)
    requires Inv(s) && Enabled(s, AdvanceTail)
    ensures Inv(Apply(s, AdvanceTail))
  {
    hide Wrap, Increasing, AllExcerpts, Samples, Flatten;
    WrapAdd(s.base + |s.queue|, 1, s.n);
    IncreasingSnoc(s.taken + s.queue, s.producer.block);
    assert s.taken + (s.queue + [s.producer.block]) == (s.taken + s.queue) + [s.producer.block];
  }

  lemma PublishStep(s: Ring)
    requires Inv(s) && Enabled(s, Publish)
    ensures Inv(Apply(s, Publish))
  {
    hide SlotOf, Wrap, Increasing, AllGenuine, AllExcerpts, Samples, Flatten, DataOf;
  }

  /** Cutting a block in place, or removing a stretch of blocks, keeps the order of the rest. */
  lemma IncreasingCut(blocks: seq<Block>, at: nat, data: seq<Sample>)
    requires Increasing(blocks) && at < |blocks|
    ensures Increasing(blocks[at := Block(blocks[at].id, data)])
    ensures LastId(blocks[at := Block(blocks[at].id, data)]) == LastId(blocks)
  {
  }

  lemma IncreasingSkip(front: seq<Block>, gone: seq<Block>, rest: seq<Block>)
    requires Increasing(front + (gone + rest))
    ensures Increasing(front + rest)
    ensures LastId(front + rest) <= LastId(front + (gone + rest))
  {
    var all := front + (gone + rest);
    forall i, j | 0 <= i < j < |front + rest| ensures (front + rest)[i].id < (front + rest)[j].id {
      var k := if i < |front| then i else i + |gone|;
      var l := if j < |front| then j else j + |gone|;
      assert (front + rest)[i] == all[k] && (front + rest)[j] == all[l];
    }
    if rest == [] && front != [] {
      assert all[|front| - 1] == front[|front| - 1];
      assert gone != [] ==> all[|all| - 1] == gone[|gone| - 1];
    } else if rest != [] {
      assert all[|all| - 1] == rest[|rest| - 1];
    }
  }

  /** Removing the oldest block after its first `offset` samples were read. */
  lemma RetireStep(s: Ring, next: Reader)
    requires Inv(s) && Held(s) && s.buffered == 0
    requires next.Outside? || next.TestReset?
    requires s.dropOnReset || s.offset == |s.queue[0].data|
    ensures s.count > 0 && |s.queue| > 0 && |s.stamps| > 0 && s.offset <= |s.queue[0].data|
    ensures Inv(Retire(s, s.offset, next))
  {
    hide Wrap, Increasing, Samples, Flatten, LastId;
    var t := Retire(s, s.offset, next);
    var b := Block(s.queue[0].id, s.queue[0].data[..s.offset]);
    DataOfSnoc(s.taken, b);
    FlattenSnoc(DataOf(s.taken), b.data);
    assert Genuine(s.queue[0], s.produced);
    assert forall i: nat :: i < |t.queue| ==> SlotOf(t.base, i, s.n) == SlotOf(s.base, i + 1, s.n);
    IncreasingCut(s.taken + s.queue, |s.taken|, b.data);
    assert t.taken + t.queue == (s.taken + s.queue)[|s.taken| := b];
  }

  /** The exchange, whichever flag caused it. */
  lemma ExchangeStep(s: Ring, next: Reader)
    requires Inv(s) && !Held(s) && Lag(s) == 0
    requires next == ResetTaken(s.count) || next == OverflowTaken(s.count)
    ensures Inv(Exchange(s, next))
  {
    hide Wrap, Increasing, Samples, Flatten, LastId, DataOf, AllExcerpts, Contents;
    var t := Exchange(s, next);
    WrapAdd(s.head, s.count, s.n);
    WrapAdd(s.base, s.count, s.n);
    assert s.queue == s.queue[..s.count] + t.queue;
    IncreasingSkip(s.taken, s.queue[..s.count], t.queue);
    ExchangeContents(s, next);
  }

  lemma ExchangeContents(s: Ring, next: Reader)
    requires Shape(s) && Indices(s) && Contents(s) && Shape(Exchange(s, next)) && Indices(Exchange(s, next))
    ensures Contents(Exchange(s, next))
  {
    hide Wrap;
    var t := Exchange(s, next);
    assert forall i: nat :: i < |t.queue| ==> SlotOf(t.base, i, s.n) == SlotOf(s.base, i + s.count, s.n);
  }

  lemma TestResetStep(s: Ring)
    requires Inv(s) && Enabled(s, TestResetFlag)
    ensures Inv(Apply(s, TestResetFlag))
  {
    hide SlotOf, Wrap, Increasing, AllGenuine, AllExcerpts, Samples, Flatten, DataOf;
    if s.reset {
      ExchangeStep(s, ResetTaken(s.count));
    }
  }

  lemma TestOverflowStep(s: Ring)
    requires Inv(s) && Enabled(s, TestOverflowFlag)
    ensures Inv(Apply(s, TestOverflowFlag))
  {
    hide SlotOf, Wrap, Increasing, AllGenuine, AllExcerpts, Samples, Flatten, DataOf;
    if s.overflow {
      ExchangeStep(s, OverflowTaken(s.count));
    }
  }

  lemma StartCallStep(s: Ring)
    requires Inv(s) && Enabled(s, StartCall)
    ensures Inv(Apply(s, StartCall))
  {
    hide LastId, SlotOf, Wrap, Increasing, AllGenuine, AllExcerpts, Samples, Flatten, DataOf;
    var t := Apply(s, StartCall);
    assert Held(t) == Held(s) && Lag(t) == Lag(s) == 0;
    assert Shape(t) && Indices(t) && Contents(t);
  }

  lemma FinishOverflowStep(s: Ring)
    requires Inv(s) && Enabled(s, FinishOverflow)
    ensures Inv(Apply(s, FinishOverflow))
  {
    hide Wrap, Order, Contents, Samples, Flatten, DataOf, Produce, Deliver;
    SamplesSnoc(s.results, Overflow);
    WrapAdd(s.head + s.reader.drained, 0, s.n);
    ReturnKeeps(s, Apply(s, FinishOverflow));
  }

  lemma GiveUpStep(s: Ring)
    requires Inv(s) && Enabled(s, GiveUp)
    ensures Inv(Apply(s, GiveUp))
  {
    hide Wrap, Order, Contents, Samples, Flatten, DataOf, Produce, Drain;
    SamplesSnoc(s.results, Timeout);
    ReturnKeeps(s, Apply(s, GiveUp));
  }

  /** Contents and Order do not depend on the reader. */
  lemma ReturnKeeps(s: Ring, t: Ring)
    requires Inv(s) && Shape(t) && Indices(t)
    requires t == s.(head := t.head, overflow := t.overflow, reader := t.reader, results := t.results)
    ensures Contents(t) && Order(t)
  {
    hide Wrap, SlotOf, Increasing, AllGenuine, AllExcerpts, Samples, Flatten, DataOf, LastId;
  }

  /** Outside a drain the head is the slot of the oldest block not yet taken. */
  lemma HeadIs(s: Ring)
    requires Inv(s) && Lag(s) == 0
    ensures s.head == SlotOf(s.base, HeldCount(s), s.n)
  {
    hide Increasing, AllGenuine, AllExcerpts, Samples, Flatten, DataOf, SlotOf;
  }

  lemma ExtractStep(s: Ring)
    requires Inv(s) && Enabled(s, ExtractHandle)
    ensures Inv(Apply(s, ExtractHandle))
  {
    hide Wrap, Increasing, AllGenuine, AllExcerpts, Samples, Flatten, LastId, DataOf;
    HeadIs(s);
    WrapAdd(s.base, 1, s.n);
    WrapAdd(s.base + 1, 0, s.n);
    assert s.slots[SlotOf(s.base, 0, s.n)] == s.queue[0];
    assert s.queue[0].data[..0] == [];
  }

  lemma HeldSlot(s: Ring)
    requires Shape(s) && Indices(s) && Contents(s) && Held(s)
    ensures s.slots[s.handle] == s.queue[0]
  {
    hide Wrap;
    assert s.slots[SlotOf(s.base, 0, s.n)] == s.queue[0];
  }

  lemma CopyOutOutput(s: Ring, numElems: nat)
    requires Inv(s) && Enabled(s, CopyOut(numElems))
    ensures Shape(Apply(s, CopyOut(numElems))) && Output(Apply(s, CopyOut(numElems)))
  {
    hide Wrap, SlotOf, Order, Samples, Flatten, DataOf;
    var k := Min(s.buffered, numElems);
    var t := Apply(s, CopyOut(numElems));
    HeldSlot(s);
    assert Held(s) && Held(t) && Shape(t);
    SamplesSnoc(s.results, t.results[|s.results|]);
    assert s.queue[0].data[..s.offset + k] ==
           s.queue[0].data[..s.offset] + s.queue[0].data[s.offset..s.offset + k];
  }

  lemma CopyOutStep(s: Ring, numElems: nat)
    requires Inv(s) && Enabled(s, CopyOut(numElems))
    ensures Inv(Apply(s, CopyOut(numElems)))
  {
    hide Wrap, SlotOf, Increasing, AllGenuine, AllExcerpts, LastId, Output, Produce, Drain;
    CopyOutOutput(s, numElems);
  }

  lemma FlagStep(s: Ring, a: Action)
    requires Inv(s) && Enabled(s, a)
    requires a.RaiseOverflow? || a.Request? || a.ClearOverflow? || a.TestCountZero? || a.WakeUp?
    ensures Inv(Apply(s, a))
  {
    hide LastId, Wrap, SlotOf, Increasing, AllGenuine, AllExcerpts, Samples, Flatten, DataOf;
  }

  lemma FinishResetStep(s: Ring)
    requires Inv(s) && Enabled(s, FinishReset)
    ensures Inv(Apply(s, FinishReset))
  {
    hide LastId, Wrap, Increasing, AllGenuine, AllExcerpts, Samples, Flatten, DataOf;
    WrapAdd(s.head + s.reader.drained, 0, s.n);
  }

  lemma StepInv(s: Ring, a: Action)
    requires Inv(s) && Enabled(s, a)
    ensures Inv(Apply(s, a))
  {
    hide Wrap, Order, Contents, Samples, Flatten;
    match a
    case CheckFull(data) => CheckFullStep(s, data);
    case Refuse(data) => RefuseStep(s, data);
    case Scribble(garbage) => ScribbleStep(s, garbage);
    case Copy => CopyStep(s);
    case AdvanceTail => AdvanceTailStep(s);
    case Publish => PublishStep(s);
    case StartCall => StartCallStep(s);
    case DropRemainder => RetireStep(s, TestReset);
    case Release => RetireStep(s, Outside);
    case TestResetFlag => TestResetStep(s);
    case FinishReset => FinishResetStep(s);
    case TestOverflowFlag => TestOverflowStep(s);
    case FinishOverflow => FinishOverflowStep(s);
    case GiveUp => GiveUpStep(s);
    case ExtractHandle => ExtractStep(s);
    case CopyOut(numElems) => CopyOutStep(s, numElems);
    case _ => FlagStep(s, a);
  }

  // ---- Every run ----

  lemma {:induction false} RunInv(s: Ring, acts: seq<Action>, t: Ring)
    requires Inv(s) && Run(s, acts, t)
    ensures Inv(t)
    decreases |acts|
  {
    hide Apply, Enabled, Inv;
    if acts != [] {
      StepInv(s, acts[0]);
      RunInv(Apply(s, acts[0]), acts[1..], t);
    }
  }

  lemma {:induction false} RunSnoc(s: Ring, acts: seq<Action>, m: Ring, a: Action)
    requires Run(s, acts, m) && Enabled(m, a)
    ensures Run(s, acts + [a], Apply(m, a))
    decreases |acts|
  {
    hide Apply, Enabled;
    if acts == [] {
      assert acts + [a] == [a] && [a][1..] == [];
    } else {
      RunSnoc(Apply(s, acts[0]), acts[1..], m, a);
      assert (acts + [a])[1..] == acts[1..] + [a];
    }
  }

  lemma {:induction false} RunConcat(s: Ring, first: seq<Action>, m: Ring, rest: seq<Action>, t: Ring)
    requires Run(s, first, m) && Run(m, rest, t)
    ensures Run(s, first + rest, t)
    decreases |first|
  {
    hide Apply, Enabled;
    if first == [] {
      assert first + rest == rest;
    } else {
      RunConcat(Apply(s, first[0]), first[1..], m, rest, t);
      assert (first + rest)[1..] == first[1..] + rest;
    }
  }

  lemma EmptyRun(s: Ring)
    ensures Run(s, [], s)
  {
  }

  /** Appends one step to a run, keeping the invariant. */
  lemma Took(s: Ring, acts: seq<Action>, m: Ring, a: Action) returns (t: Ring)
    requires Inv(m) && Ready(m, a) && Run(s, acts, m)
    ensures Enabled(m, a) && t == Apply(m, a) && Inv(t) && Run(s, acts + [a], t)
  {
    hide Inv, Ready, Safe, Apply;
    StepSafe(m, a);
    StepInv(m, a);
    t := Apply(m, a);
    RunSnoc(s, acts, m, a);
  }

  /** Which part of the machine a step belongs to, for methods that look into that part only. */
  lemma ApplyIs(s: Ring, a: Action)
    requires Enabled(s, a)
    ensures OfProducer(a) ==> Apply(s, a) == Produce(s, a)
    ensures OfDrain(a) ==> Apply(s, a) == Drain(s, a)
    ensures !OfProducer(a) && !OfDrain(a) ==> Apply(s, a) == Deliver(s, a)
  {
  }

  lemma TookOne(s: Ring, a: Action) returns (t: Ring)
    requires Inv(s) && Ready(s, a)
    ensures Enabled(s, a) && t == Apply(s, a) && Inv(t) && Run(s, [a], t)
  {
    hide Inv, Ready, Safe, Apply, Run;
    EmptyRun(s);
    t := Took(s, [], s, a);
    assert [] + [a] == [a];
  }

  /** A callback that finds room, all steps together. */
  lemma StoreRun(s: Ring, data: seq<Sample>) returns (t: Ring)
    requires Inv(s) && s.producer.Idle? && s.count < s.n && s.tail < |s.slots|
    ensures Inv(t) && Run(s, [CheckFull(data), Copy, AdvanceTail, Publish], t)
    ensures var b := Block(|s.produced|, data);
            t == s.(slots := s.slots[s.tail := b], tail := Wrap(s.tail + 1, s.n), count := s.count + 1,
                    produced := s.produced + [data], queue := s.queue + [b], stamps := s.stamps + [s.requests])
  {
    hide Inv, Safe, Apply, Run, Wrap;
    ApplyIs(s, CheckFull(data)) by { StepSafe(s, CheckFull(data)); }
    var s1 := TookOne(s, CheckFull(data));
    var s2 := Took(s, [CheckFull(data)], s1, Copy);
    ApplyIs(s1, Copy);
    var s3 := Took(s, [CheckFull(data)] + [Copy], s2, AdvanceTail);
    ApplyIs(s2, AdvanceTail);
    t := Took(s, [CheckFull(data)] + [Copy] + [AdvanceTail], s3, Publish);
    ApplyIs(s3, Publish);
    assert [CheckFull(data)] + [Copy] + [AdvanceTail] + [Publish] == [CheckFull(data), Copy, AdvanceTail, Publish];
  }

  lemma ExtractFacts(m: Ring)
    requires Inv(m) && Enabled(m, ExtractHandle)
    ensures |m.queue| > 0 && Apply(m, ExtractHandle).buffered == |m.queue[0].data|
  {
    hide Order, Samples, Flatten, DataOf;
    assert m.slots[SlotOf(m.base, 0, m.n)] == m.queue[0];
  }

  /** A call with a block at hand and no flag up gets as far as taking it. */
  lemma ToExtract(s: Ring, acts: seq<Action>, m: Ring) returns (done: seq<Action>, t: Ring)
    requires Inv(m) && Run(s, acts, m)
    requires m.reader.Outside? && m.buffered == 0 && !m.reset && !m.overflow && m.count > 0
    ensures done == acts + [StartCall] + [TestResetFlag] + [TestOverflowFlag] + [TestCountZero]
    ensures Inv(t) && Run(s, done, t) && t == m.(callRequests := m.requests, reader := Extract)
  {
    hide Run, Inv, Wrap, Produce;
    t := Took(s, acts, m, StartCall);
    done := acts + [StartCall];
    t := Took(s, done, t, TestResetFlag);
    done := done + [TestResetFlag];
    t := Took(s, done, t, TestOverflowFlag);
    done := done + [TestOverflowFlag];
    t := Took(s, done, t, TestCountZero);
    done := done + [TestCountZero];
  }

  lemma InRange(s: Ring)
    requires Inv(s)
    ensures s.n == |s.slots| && s.head < s.n && s.tail < s.n && s.count <= s.n
  {
  }

  /** The index law in the form the drivers' fields show it, in every state of every interleaving. */
  lemma RingLaw(n: nat, dropOnReset: bool, slots: seq<Block>, acts: seq<Action>, t: Ring)
    requires n > 0 && |slots| == n && Run(Init(n, dropOnReset, slots), acts, t)
    ensures t.n == n && HeldCount(t) <= t.count && t.count + Pending(t) <= n
    ensures (t.tail + HeldCount(t)) % n == (t.head + Lag(t) + t.count + Pending(t)) % n
  {
    InitInv(n, dropOnReset, slots);
    RunInv(Init(n, dropOnReset, slots), acts, t);
    RunConstants(Init(n, dropOnReset, slots), acts, t);
    IndexLaw(t);
  }

  lemma IndexLaw(t: Ring)
    requires Shape(t) && Indices(t)
    ensures (t.tail + HeldCount(t)) % t.n == (t.head + Lag(t) + t.count + Pending(t)) % t.n
  {
    hide Wrap;
    var h, l := HeldCount(t), t.head + Lag(t);
    WrapAdd(t.base + |t.queue|, h, t.n);
    WrapAdd(t.base + h, |t.queue|, t.n);
    WrapAdd(l, |t.queue|, t.n);
    assert t.base + |t.queue| + h == t.base + h + |t.queue|;
    WrapIsMod(t.tail + h, t.n);
    WrapIsMod(l + |t.queue|, t.n);
  }

  lemma StepConstants(s: Ring, a: Action)
    requires Enabled(s, a)
    ensures Apply(s, a).n == s.n && Apply(s, a).dropOnReset == s.dropOnReset
  {
    hide Wrap;
    match a case _ =>
  }

  lemma {:induction false} RunConstants(s: Ring, acts: seq<Action>, t: Ring)
    requires Run(s, acts, t)
    ensures t.n == s.n && t.dropOnReset == s.dropOnReset
    decreases |acts|
  {
    hide Apply, Enabled;
    if acts != [] {
      StepConstants(s, acts[0]);
      RunConstants(Apply(s, acts[0]), acts[1..], t);
    }
  }

  /** The block being read, cut to what the caller has of it. */
  ghost function Current(t: Ring): seq<Block> {
    if Held(t) && |t.queue| > 0 && t.offset <= |t.queue[0].data|
    then [Block(t.queue[0].id, t.queue[0].data[..t.offset])] else []
  }

  lemma CurrentInOrder(t: Ring)
    requires Shape(t) && Order(t) && Output(t)
    ensures Increasing(t.taken + Current(t))
    ensures AllExcerpts(Current(t), t.produced)
  {
    hide Increasing, Samples, Flatten, LastId, AllExcerpts;
    if Held(t) {
      var b := Current(t)[0];
      assert Genuine(t.queue[0], t.produced);
      IncreasingCut(t.taken + t.queue, |t.taken|, b.data);
      assert (t.taken + t.queue)[|t.taken| := b] == (t.taken + [b]) + (t.queue[1..] + []);
      IncreasingSkip(t.taken + [b], t.queue[1..], []);
      assert t.taken + [b] + [] == t.taken + Current(t);
      OneExcerpt(b, t.produced);
    } else {
      assert t.taken + t.queue == t.taken + (t.queue + []);
      IncreasingSkip(t.taken, t.queue, []);
      NoExcerpts(t.produced);
    }
  }

  lemma OneExcerpt(b: Block, produced: seq<seq<Sample>>)
    requires Excerpt(b, produced)
    ensures AllExcerpts([b], produced)
  {
  }

  lemma NoExcerpts(produced: seq<seq<Sample>>)
    ensures AllExcerpts([], produced)
  {
  }

  /** What the caller receives, over every interleaving: the samples returned are those of blocks given to the
      callback, in the order they were given, each at most once and untorn; without dropped remainders every
      block but the one being read is returned whole. */
  lemma DeliveredInOrder(n: nat, dropOnReset: bool, slots: seq<Block>, acts: seq<Action>, t: Ring)
    requires n > 0 && |slots| == n && Run(Init(n, dropOnReset, slots), acts, t)
    ensures Samples(t.results) == Flatten(DataOf(t.taken + Current(t)))
    ensures Increasing(t.taken + Current(t))
    ensures AllExcerpts(t.taken, t.produced) && AllExcerpts(Current(t), t.produced)
    ensures !dropOnReset ==> AllGenuine(t.taken, t.produced)
  {
    hide Run, Increasing, Samples, Flatten, AllGenuine, AllExcerpts, Contents;
    InitInv(n, dropOnReset, slots);
    RunInv(Init(n, dropOnReset, slots), acts, t);
    RunConstants(Init(n, dropOnReset, slots), acts, t);
    CurrentInOrder(t);
    if Held(t) {
      DataOfSnoc(t.taken, Current(t)[0]);
      FlattenSnoc(DataOf(t.taken), Current(t)[0].data);
    } else {
      assert t.taken + Current(t) == t.taken;
    }
  }

  // ---- Sizes of what is returned ----

  /** No result is larger than asked for, and the last one is smaller only if nothing of its block is left. */
  ghost predicate Sized(s: Ring) {
    && (forall i :: 0 <= i < |s.results| && s.results[i].Data? ==> |s.results[i].samples| <= s.results[i].asked)
    && (s.results != [] && (s.reader.Outside? || s.reader.Releasing?) ==>
          var last := s.results[|s.results| - 1];
          last.Data? && |last.samples| < last.asked ==> s.buffered == 0)
  }

  lemma SizedStep(s: Ring, a: Action)
    requires Inv(s) && Sized(s) && Enabled(s, a)
    ensures Sized(Apply(s, a))
  {
    hide Wrap, Inv, Produce, Drain;
    StepFacts(s, a);
    match a case _ =>
  }

  /** What a step leaves alone, as far as sizes go. */
  lemma StepFacts(s: Ring, a: Action)
    requires Inv(s) && Enabled(s, a)
    ensures OfProducer(a) ==>
              Apply(s, a).results == s.results && Apply(s, a).reader == s.reader && Apply(s, a).buffered == s.buffered
    ensures OfDrain(a) ==>
              && Apply(s, a).buffered == s.buffered == 0
              && Apply(s, a).results == if a.FinishOverflow? then s.results + [Overflow] else s.results
    ensures s.reader.Waiting? || s.reader.Releasing? ==> s.buffered == 0
  {
    hide Wrap, Samples, Flatten, Indices, Contents, Order;
    match a case _ =>
  }

  lemma {:induction false} SizedRun(s: Ring, acts: seq<Action>, t: Ring)
    requires Inv(s) && Sized(s) && Run(s, acts, t)
    ensures Sized(t)
    decreases |acts|
  {
    hide Apply, Enabled, Inv, Sized;
    if acts != [] {
      StepInv(s, acts[0]);
      SizedStep(s, acts[0]);
      SizedRun(Apply(s, acts[0]), acts[1..], t);
    }
  }

  /** In every run a call returns no more elements than were asked for, and fewer only if it has come to the end of the
      block. */
  lemma FragmentSizes(n: nat, dropOnReset: bool, slots: seq<Block>, acts: seq<Action>, t: Ring)
    requires n > 0 && |slots| == n && Run(Init(n, dropOnReset, slots), acts, t)
    ensures Sized(t)
  {
    hide Run;
    InitInv(n, dropOnReset, slots);
    SizedRun(Init(n, dropOnReset, slots), acts, t);
  }
}
