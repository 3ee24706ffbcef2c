/** The SDRplay receive ring: many callbacks are batched into one slot, slots are handed over whole, and the
    vectors behind them must never be reallocated. Every critical section of the stream mutex is one step. Sizes
    are in I/Q samples, which cancels the format's words per sample out of every comparison. */
module BatchRing {
  import opened RingIndex
  import opened Sequences

  datatype Sample = Sample(i: int, q: int)

  datatype Reader = Outside | TestFlags | Waiting | Copying | Releasing

  datatype Return = Data(samples: seq<Sample>, asked: nat) | Overflow | Timeout

  /** The stream's fields; held says a block is out with the reader; the rest is history since the last drain. */
  datatype Ring = Ring(
    n: nat,
    cap: nat,
    slots: seq<seq<Sample>>,
    head: nat,
    tail: nat,
    count: nat,
    overflow: bool,
    reset: bool,
    nElems: nat,
    handle: nat,
    offset: nat,
    reader: Reader,
    held: bool,
    base: nat,                  // blocks released
    queue: seq<seq<Sample>>,    // blocks in flight, oldest first, the held one included
    got: seq<Sample>,           // samples returned by readStream
    pushed: seq<Sample>,        // samples of all callbacks
    accepted: seq<Sample>,      // samples of the callbacks that were stored
    lost: bool,                 // a callback was dropped
    broken: bool,               // a callback was appended to a slot in flight
    results: seq<Return>)

  datatype Action =
    | Callback(block: seq<Sample>)
    | Request
    | Activate
    | StartCall
    | Enter
    | Wake
    | GiveUp
    | CopyOut(numElems: nat)
    | Release

  ghost function Init(n: nat, cap: nat): Ring {
    Ring(n, cap, seq(n, _ => []), 0, 0, 0, false, false, 0, 0, 0, Outside, false, 0, [], [], [], [], false, false, [])
  }

  ghost predicate Ready(s: Ring, a: Action) {
    match a
    case Callback(_) => true
    case Request => true
    case Activate => s.reader.Outside?
    case StartCall => s.reader.Outside?
    case Enter => s.reader.TestFlags?
    case Wake => s.reader.Waiting? && s.count != 0
    case GiveUp => s.reader.Waiting? && s.count == 0
    case CopyOut(_) => s.reader.Copying?
    case Release => s.reader.Releasing?
  }

  ghost predicate Safe(s: Ring, a: Action) {
    && s.n > 0 && |s.slots| == s.n
    && (a.Callback? ==> s.tail < s.n)
    && (a.Enter? || a.Wake? ==> s.head < s.n)
    && (a.CopyOut? ==> s.handle < s.n && s.offset + s.nElems <= |s.slots[s.handle]|)
    && (a.Release? ==> s.handle < s.n && s.count > 0 && s.queue != [])
  }

  ghost predicate Enabled(s: Ring, a: Action) {
    Ready(s, a) && Safe(s, a)
  }

  ghost function Drop(s: Ring, block: seq<Sample>): Ring {
    s.(overflow := true, lost := true, pushed := s.pushed + block)
  }

  /** The slot at the tail becomes a block in flight. */
  ghost function Advance(s: Ring): Ring
    requires s.n > 0 && s.tail < |s.slots|
  {
    s.(tail := Wrap(s.tail + 1, s.n), count := s.count + 1, queue := s.queue + [s.slots[s.tail]])
  }

  ghost function Append(s: Ring, block: seq<Sample>): Ring
    requires s.tail < |s.slots|
  {
    s.(slots := s.slots[s.tail := s.slots[s.tail] + block],
       pushed := s.pushed + block, accepted := s.accepted + block, broken := s.broken || s.count == s.n)
  }

  ghost function Push(s: Ring, block: seq<Sample>): Ring
    requires s.n > 0 && |s.slots| == s.n && s.tail < s.n
  {
    if s.count == s.n then Drop(s, block)
    else if |s.slots[s.tail]| + |block| >= s.cap then
      var t := Advance(s);
      if t.count == t.n && |block| > t.cap - |t.slots[t.tail]| then Drop(t, block) else Append(t, block)
    else Append(s, block)
  }

  ghost function Drain(s: Ring): Ring {
    s.(head := 0, tail := 0, count := 0, slots := seq(s.n, _ => []), overflow := false,
       held := false, base := 0, queue := [], got := [], pushed := [], accepted := [], lost := false)
  }

  /** The end of acquireReadBuffer, and the assignment of nElems in readStream. */
  ghost function Extract(s: Ring): Ring
    requires s.n > 0 && s.head < |s.slots|
  {
    s.(handle := s.head, head := Wrap(s.head + 1, s.n), offset := 0, nElems := |s.slots[s.head]|, held := true,
       reader := Copying)
  }

  ghost function Take(s: Ring): Ring
    requires s.n > 0 && s.head < |s.slots|
  {
    if s.count == 0 then s.(reader := Waiting) else Extract(s)
  }

  /** The first critical section of acquireReadBuffer. */
  ghost function Acquire(s: Ring): Ring
    requires s.n > 0 && |s.slots| == s.n && s.head < s.n
  {
    if s.reset then Take(Drain(s).(reset := false))
    else if s.overflow then Drain(s).(reader := Outside, results := s.results + [Overflow])
    else Take(s)
  }

  ghost function Apply(s: Ring, a: Action): Ring
    requires Enabled(s, a)
  {
    match a
    case Callback(block) => Push(s, block)
    case Request => s.(reset := true)
    case Activate => s.(reset := true, nElems := 0)
    case StartCall => s.(reader := if s.nElems == 0 then TestFlags else Copying)
    case Enter => Acquire(s)
    case Wake => Extract(s)
    case GiveUp => s.(reader := Outside, results := s.results + [Timeout])
    case CopyOut(numElems) =>
      var k := Min(s.nElems, numElems);
      var piece := s.slots[s.handle][s.offset..s.offset + k];
      s.(nElems := s.nElems - k, offset := s.offset + k, got := s.got + piece,
         results := s.results + [Data(piece, numElems)],
         reader := if s.nElems - k != 0 then Outside else Releasing)
    case Release =>
      s.(slots := s.slots[s.handle := []], count := s.count - 1, base := s.base + 1, queue := s.queue[1..],
         held := false, reader := Outside)
  }

  ghost predicate Run(s: Ring, acts: seq<Action>, t: Ring)
    decreases |acts|
  {
    if acts == [] then s == t
    else Enabled(s, acts[0]) && Run(Apply(s, acts[0]), acts[1..], t)
  }

  /** Every callback brings b samples. */
  ghost predicate Uniform(acts: seq<Action>, b: nat) {
    forall i :: 0 <= i < |acts| && acts[i].Callback? ==> |acts[i].block| == b
  }

  // ---- Sizes ----

  /** What a slot holds when no further block of b samples fits below its capacity. */
  ghost function Full(cap: nat, b: nat): nat
    requires b > 0
  {
    cap - cap % b
  }

  /** With blocks that do not divide the capacity, slots grow in whole blocks up to Full and not beyond, and
      what is then left is too small for one more block. */
  lemma SlotSizes(x: nat, cap: nat, b: nat)
    requires 0 < b < cap && cap % b != 0 && x % b == 0 && x < cap
    ensures x <= Full(cap, b) < cap
    ensures x + b >= cap ==> x == Full(cap, b)
    ensures x + b < cap ==> x + b <= Full(cap, b) && (x + b) % b == 0
    ensures b > cap - Full(cap, b)
    ensures b <= Full(cap, b) && b % b == 0
  {
    hide Full;
    FullFacts(cap, b);
    AtMostFull(x, cap, b);
    if x < Full(cap, b) {
      MultipleGap(x, Full(cap, b), b);
    }
    NextMultiple(x, b);
    if x + b < cap {
      AtMostFull(x + b, cap, b);
    }
    NextMultiple(0, b) by { ModUnique(0, b, 0, 0); }
    AtMostFull(b, cap, b);
  }

  lemma FullFacts(cap: nat, b: nat)
    requires b > 0
    ensures Full(cap, b) % b == 0 && cap - b < Full(cap, b) <= cap
    ensures cap % b != 0 ==> Full(cap, b) < cap
  {
    Division(cap, b);
    ModUnique(Full(cap, b), b, cap / b, 0);
  }

  /** A multiple of b below the capacity does not exceed Full. */
  lemma AtMostFull(x: nat, cap: nat, b: nat)
    requires b > 0 && x % b == 0 && x < cap
    ensures x <= Full(cap, b)
  {
    hide Full;
    FullFacts(cap, b);
    if x > Full(cap, b) {
      MultipleGap(Full(cap, b), x, b);
    }
  }

  /** Different multiples of b are at least b apart. */
  lemma MultipleGap(x: nat, y: nat, b: nat)
    requires b > 0 && x % b == 0 && y % b == 0 && x < y
    ensures x + b <= y
  {
    Division(x, b);
    Division(y, b);
    if y / b <= x / b {
      TimesMonotone(y / b, x / b, b);
    } else {
      TimesMonotone(x / b + 1, y / b, b);
    }
  }

  lemma Division(x: nat, b: nat)
    requires b > 0
    ensures x == (x / b) * b + x % b
  {
  }

  lemma NextMultiple(x: nat, b: nat)
    requires b > 0 && x % b == 0
    ensures (x + b) % b == 0
  {
    Division(x, b);
    assert x + b == (x / b + 1) * b;
    ModUnique(x + b, b, x / b + 1, 0);
  }

  lemma TimesMonotone(x: nat, y: nat, b: nat)
    requires x <= y
    ensures x * b <= y * b
  {
  }

  // ---- The invariant, for callbacks of b samples ----

  ghost function HeldCount(s: Ring): nat {
    if s.held then 1 else 0
  }

  ghost predicate Shape(s: Ring) {
    && s.n > 0 && |s.slots| == s.n
    && |s.queue| == s.count && HeldCount(s) <= s.count <= s.n
    && s.tail == SlotOf(s.base, s.count, s.n)
    && s.head == SlotOf(s.base, HeldCount(s), s.n)
    && (s.held ==> s.handle == SlotOf(s.base, 0, s.n))
  }

  /** Slots in flight are full; the slot at the tail, unless it is one of those, is part full; the rest are empty. */
  ghost predicate Filled(s: Ring, b: nat)
    requires Shape(s) && 0 < b < s.cap
  {
    && (forall i: nat :: i < |s.queue| ==> s.slots[SlotOf(s.base, i, s.n)] == s.queue[i])
    && (forall i :: 0 <= i < |s.queue| ==> |s.queue[i]| == Full(s.cap, b))
    && (s.count < s.n ==> |s.slots[s.tail]| % b == 0 && |s.slots[s.tail]| <= Full(s.cap, b))
    && (forall i: nat :: s.count < i < s.n ==> s.slots[SlotOf(s.base, i, s.n)] == [])
  }

  /** What the reader has not returned yet of the blocks in flight. */
  ghost function Rest(s: Ring): seq<Sample> {
    if s.held && s.queue != [] && s.offset <= |s.queue[0]| then s.queue[0][s.offset..] + Flatten(s.queue[1..])
    else Flatten(s.queue)
  }

  /** The slot being filled. */
  ghost function Filling(s: Ring): seq<Sample> {
    if s.count < s.n && s.tail < |s.slots| then s.slots[s.tail] else []
  }

  ghost predicate Conserved(s: Ring) {
    && s.got + Rest(s) + Filling(s) == s.accepted
    && (!s.lost ==> s.accepted == s.pushed)
    && (s.lost ==> |s.accepted| < |s.pushed|)
    && (s.overflow <==> s.lost)
  }

  ghost predicate Control(s: Ring) {
    && (s.held ==> s.queue != [] && s.offset + s.nElems <= |s.queue[0]|)
    && match s.reader
       case Outside => if s.nElems > 0 then s.held && s.offset + s.nElems == |s.queue[0]| else s.held ==> s.reset
       case TestFlags => s.nElems == 0 && (s.held ==> s.reset)
       case Waiting => s.nElems == 0 && !s.held
       case Copying => s.held && s.offset + s.nElems == |s.queue[0]|
       case Releasing => s.held && s.nElems == 0 && s.offset == |s.queue[0]|
  }

  ghost predicate Sizes(s: Ring, b: nat) {
    0 < b < s.cap && s.cap % b != 0 && !s.broken
  }

  ghost predicate Inv(s: Ring, b: nat) {
    Sizes(s, b) && Shape(s) && Filled(s, b) && Conserved(s) && Control(s)
  }

  // ---- Callbacks of any size ----

  /** What holds whatever the block sizes: the index law, and a current fragment inside its slot. */
  ghost predicate Basic(s: Ring) {
    && Shape(s)
    && (s.held ==> s.offset + s.nElems <= |s.slots[s.handle]|)
    && (s.nElems > 0 || s.reader.Copying? || s.reader.Releasing? ==> s.held)
    && (s.reader.TestFlags? || s.reader.Waiting? || s.reader.Releasing? ==> s.nElems == 0)
    && (s.reader.Waiting? ==> !s.held)
    && (s.held && s.nElems == 0 && (s.reader.Outside? || s.reader.TestFlags?) ==> s.reset)
  }

  lemma InitBasic(n: nat, cap: nat)
    requires n > 0
    ensures Basic(Init(n, cap))
  {
  }

  lemma BasicStepSafe(s: Ring, a: Action)
    requires Basic(s) && Ready(s, a)
    ensures Safe(s, a)
  {
    hide Wrap;
  }

  lemma BasicAppend(s: Ring, block: seq<Sample>)
    requires Basic(s) && s.tail < s.n
    ensures Basic(Append(s, block))
  {
    hide Wrap;
  }

  lemma BasicAdvance(s: Ring)
    requires Basic(s) && s.tail < s.n && s.count < s.n
    ensures Basic(Advance(s)) && Advance(s).tail < s.n
  {
    hide Wrap;
    WrapAdd(s.base + s.count, 1, s.n);
  }

  lemma BasicDrop(s: Ring, block: seq<Sample>)
    requires Basic(s)
    ensures Basic(Drop(s, block))
  {
    hide Wrap;
  }

  lemma BasicPush(s: Ring, block: seq<Sample>)
    requires Basic(s) && s.tail < s.n
    ensures Basic(Push(s, block))
  {
    hide Wrap, Append, Drop, Basic, Shape;
    BasicCount(s);
    if s.count == s.n {
      BasicDrop(s, block);
    } else if |s.slots[s.tail]| + |block| >= s.cap {
      BasicAdvance(s);
      BasicDrop(Advance(s), block);
      BasicAppend(Advance(s), block);
    } else {
      BasicAppend(s, block);
    }
  }

  lemma BasicCount(s: Ring)
    requires Basic(s)
    ensures s.count <= s.n && s.n == |s.slots|
  {
  }

  lemma BasicTake(s: Ring)
    requires Basic(s) && !s.held && s.head < s.n && (s.reader.TestFlags? || (s.reader.Waiting? && s.count > 0))
    ensures Basic(Take(s))
  {
    hide Wrap;
    WrapAdd(s.base, 1, s.n);
  }

  lemma BasicDrain(s: Ring)
    requires Basic(s) && s.reader.TestFlags?
    ensures Basic(Drain(s).(reset := false))
    ensures Basic(Drain(s).(reader := Outside, results := s.results + [Overflow]))
  {
    AtZero(s.n);
  }

  lemma StepBasic(s: Ring, a: Action)
    requires Basic(s) && Enabled(s, a)
    ensures Basic(Apply(s, a))
  {
    hide Wrap, Push, Drain;
    match a
    case Callback(block) => BasicPush(s, block);
    case Enter =>
      BasicDrain(s);
      DrainFacts(s);
      if s.reset {
        BasicTake(Drain(s).(reset := false));
      } else if !s.overflow {
        BasicTake(s);
      }
    case Wake => BasicTake(s);
    case Release =>
      assert SlotOf(s.base + 1, s.count - 1, s.n) == SlotOf(s.base, s.count, s.n);
    case _ =>
  }

  lemma {:induction false} RunBasic(s: Ring, acts: seq<Action>, t: Ring)
    requires Basic(s) && Run(s, acts, t)
    ensures Basic(t)
    decreases |acts|
  {
    hide Basic, Apply, Enabled;
    if acts != [] {
      StepBasic(s, acts[0]);
      RunBasic(Apply(s, acts[0]), acts[1..], t);
    }
  }

  /** In every run, with callbacks of any sizes: the index law holds, and no step that can come next indexes outside the
      ring or its current slot, or releases what is not held. */
  lemma BasicSafe(n: nat, cap: nat, acts: seq<Action>, t: Ring, next: Action)
    requires n > 0 && Run(Init(n, cap), acts, t) && Ready(t, next)
    ensures Shape(t) && Safe(t, next)
  {
    hide Run, Wrap;
    InitBasic(n, cap);
    RunBasic(Init(n, cap), acts, t);
    BasicStepSafe(t, next);
  }

  lemma DrainFacts(s: Ring)
    ensures var t := Drain(s); t.n == s.n && !t.held && t.head == 0 && t.count == 0 && t.reader == s.reader
  {
  }

  lemma InitInv(n: nat, cap: nat, b: nat)
    requires n > 0 && 0 < b < cap && cap % b != 0
    ensures Inv(Init(n, cap), b)
  {
    hide Wrap;
    AtZero(n);
    ModUnique(0, b, 0, 0);
    SlotSizes(0, cap, b);
  }

  lemma AtZero(n: nat)
    requires n > 0
    ensures forall i: nat :: i < n ==> SlotOf(0, i, n) == i
  {
  }

  lemma StepSafe(s: Ring, b: nat, a: Action)
    requires Inv(s, b) && Ready(s, a)
    ensures Safe(s, a)
  {
    hide Wrap, Flatten;
  }

  /** The slots of a ring at distinct places are distinct. */
  lemma SlotsDistinct(base: nat, n: nat, k: nat)
    requires k < n
    ensures forall i: nat :: i < n && i != k ==> SlotOf(base, i, n) != SlotOf(base, k, n)
  {
    forall i: nat | i < n && i != k ensures SlotOf(base, i, n) != SlotOf(base, k, n) {
      WrapDistinct(base + if i < k then i else k, base + if i < k then k else i, n);
    }
  }

  lemma AppendKeeps(s: Ring, b: nat, block: seq<Sample>)
    requires Inv(s, b) && s.count < s.n && |block| == b && |s.slots[s.tail]| + b < s.cap
    ensures Inv(Append(s, block), b)
  {
    hide Wrap, Flatten, Full;
    SlotsDistinct(s.base, s.n, s.count);
    SlotSizes(|s.slots[s.tail]|, s.cap, b);
    var t := Append(s, block);
    assert Rest(t) == Rest(s);
    assert s.got + Rest(s) + (Filling(s) + block) == (s.got + Rest(s) + Filling(s)) + block;
  }

  /** Handing the tail slot over. When it was the last free slot, the new tail is the oldest slot in flight. */
  lemma AdvanceKeeps(s: Ring, b: nat)
    requires Inv(s, b) && s.count < s.n && |s.slots[s.tail]| + b >= s.cap
    ensures Inv(Advance(s), b)
    ensures s.count + 1 == s.n ==> Advance(s).tail == SlotOf(s.base, 0, s.n)
  {
    hide Wrap, Flatten, Full;
    SlotSizes(0, s.cap, b) by { ModUnique(0, b, 0, 0); }
    SlotSizes(|s.slots[s.tail]|, s.cap, b);
    var t := Advance(s);
    WrapAdd(s.base + s.count, 1, s.n);
    FlattenSnoc(s.queue, s.slots[s.tail]);
    if s.held {
      FlattenSnoc(s.queue[1..], s.slots[s.tail]);
      assert t.queue[1..] == s.queue[1..] + [s.slots[s.tail]];
    }
    assert Rest(t) == Rest(s) + s.slots[s.tail];
    if s.count + 1 == s.n {
      WrapAround(s.base, s.n);
    } else {
      assert t.slots[SlotOf(s.base, s.count + 1, s.n)] == [];
      ModUnique(0, b, 0, 0);
    }
    assert s.got + (Rest(s) + s.slots[s.tail]) + Filling(t) == s.got + Rest(s) + Filling(s);
  }

  lemma WrapAround(base: nat, n: nat)
    requires n > 0
    ensures SlotOf(base, n, n) == SlotOf(base, 0, n)
  {
    WrapAdd(n, base, n);
    assert Wrap(n, n) == 0;
    assert n + base == base + n;
  }

  lemma CallbackKeeps(s: Ring, b: nat, block: seq<Sample>)
    requires Inv(s, b) && Enabled(s, Callback(block)) && |block| == b
    ensures Inv(Apply(s, Callback(block)), b)
  {
    hide Wrap, Flatten, Full, Advance, Append;
    if s.count == s.n {
      DropKeeps(s, b, block);
    } else if |s.slots[s.tail]| + b >= s.cap {
      AdvanceKeeps(s, b);
      AdvanceFacts(s);
      var t := Advance(s);
      SlotSizes(0, s.cap, b) by { ModUnique(0, b, 0, 0); }
      if t.count == t.n {
        assert t.slots[SlotOf(t.base, 0, t.n)] == t.queue[0];
        DropKeeps(t, b, block);
      } else {
        NextSlotEmpty(s, b);
        AppendKeeps(t, b, block);
      }
    } else {
      AppendKeeps(s, b, block);
    }
  }

  lemma AdvanceFacts(s: Ring)
    requires s.n > 0 && s.tail < |s.slots|
    ensures var t := Advance(s);
            t.count == s.count + 1 && t.n == s.n && t.cap == s.cap && t.base == s.base && t.slots == s.slots
            && |t.queue| == |s.queue| + 1
  {
  }

  lemma NextSlotEmpty(s: Ring, b: nat)
    requires Inv(s, b) && s.count + 1 < s.n
    ensures Advance(s).tail < s.n && Advance(s).slots[Advance(s).tail] == []
  {
    hide Wrap, Flatten, Full;
    WrapAdd(s.base + s.count, 1, s.n);
    assert s.slots[SlotOf(s.base, s.count + 1, s.n)] == [];
  }

  lemma DropKeeps(s: Ring, b: nat, block: seq<Sample>)
    requires Inv(s, b) && |block| == b
    ensures Inv(Drop(s, block), b)
  {
    hide Wrap, Flatten, Full;
    assert Rest(Drop(s, block)) == Rest(s);
  }

  lemma DrainKeeps(s: Ring, b: nat, next: Reader)
    requires Inv(s, b) && s.nElems == 0 && (next.Outside? || next.TestFlags?)
    ensures Inv(Drain(s).(reader := next, reset := false), b)
  {
    hide Wrap;
    AtZero(s.n);
    SlotSizes(0, s.cap, b) by { ModUnique(0, b, 0, 0); }
    ModUnique(0, b, 0, 0);
  }

  lemma ExtractKeeps(s: Ring, b: nat)
    requires Inv(s, b) && s.count > 0 && !s.held && s.head < s.n
    ensures Inv(Extract(s), b)
  {
    hide Wrap, Full;
    WrapAdd(s.base, 1, s.n);
    assert s.slots[SlotOf(s.base, 0, s.n)] == s.queue[0];
    var t := Extract(s);
    assert t.queue[0][t.offset..] == t.queue[0];
    assert Rest(t) == Rest(s);
  }

  /** Inv says nothing about results. */
  lemma ResultsFree(s: Ring, b: nat, results: seq<Return>)
    requires Inv(s, b)
    ensures Inv(s.(results := results), b)
  {
    hide Wrap, Flatten, Full;
    assert Rest(s.(results := results)) == Rest(s);
  }

  lemma EnterKeeps(s: Ring, b: nat)
    requires Inv(s, b) && Enabled(s, Enter)
    ensures Inv(Apply(s, Enter), b)
  {
    hide Wrap, Flatten, Full, Filled, Conserved;
    if s.reset {
      DrainKeeps(s, b, TestFlags);
      TakeKeeps(Drain(s).(reset := false), b);
    } else if s.overflow {
      DrainKeeps(s, b, Outside);
      ResultsFree(Drain(s).(reader := Outside, reset := false), b, s.results + [Overflow]);
    } else {
      TakeKeeps(s, b);
    }
  }

  lemma TakeKeeps(s: Ring, b: nat)
    requires Inv(s, b) && s.reader.TestFlags? && !s.held && s.head < s.n
    ensures Inv(Take(s), b)
  {
    hide Wrap, Flatten, Full;
    if s.count == 0 {
      assert Rest(Take(s)) == Rest(s);
    } else {
      ExtractKeeps(s, b);
    }
  }

  /** Moving k samples from what is left to what was returned. */
  lemma Regroup(got: seq<Sample>, block: seq<Sample>, offset: nat, k: nat, rest: seq<Sample>)
    requires offset + k <= |block|
    ensures (got + block[offset..offset + k]) + (block[offset + k..] + rest) == got + (block[offset..] + rest)
  {
    assert block[offset..] == block[offset..offset + k] + block[offset + k..];
  }

  lemma HeldSlot(s: Ring, b: nat)
    requires Sizes(s, b) && Shape(s) && Filled(s, b) && s.held
    ensures s.queue != [] && s.slots[s.handle] == s.queue[0]
  {
    hide Wrap, Full;
    assert s.slots[SlotOf(s.base, 0, s.n)] == s.queue[0];
  }

  lemma CopyOutConserves(s: Ring, b: nat, numElems: nat)
    requires Inv(s, b) && Enabled(s, CopyOut(numElems))
    ensures Conserved(Apply(s, CopyOut(numElems)))
  {
    hide Wrap, Flatten, Full, Filled, SlotOf;
    var k := Min(s.nElems, numElems);
    HeldSlot(s, b);
    var t := Apply(s, CopyOut(numElems));
    Regroup(s.got, s.queue[0], s.offset, k, Flatten(s.queue[1..]));
    assert t.got + Rest(t) == s.got + Rest(s);
  }

  lemma CopyOutKeeps(s: Ring, b: nat, numElems: nat)
    requires Inv(s, b) && Enabled(s, CopyOut(numElems))
    ensures Inv(Apply(s, CopyOut(numElems)), b)
  {
    hide Wrap, Full, Conserved, SlotOf;
    CopyOutConserves(s, b, numElems);
  }

  lemma ReleaseKeeps(s: Ring, b: nat)
    requires Inv(s, b) && Enabled(s, Release)
    ensures Inv(Apply(s, Release), b)
  {
    hide Wrap, Flatten, Full;
    var t := Apply(s, Release);
    SlotsDistinct(s.base, s.n, 0);
    WrapAround(s.base, s.n);
    SlotSizes(0, s.cap, b) by { ModUnique(0, b, 0, 0); }
    ModUnique(0, b, 0, 0);
    assert forall i: nat :: SlotOf(t.base, i, s.n) == SlotOf(s.base, i + 1, s.n);
    assert Rest(t) == Rest(s);
    assert Filling(t) == Filling(s);
  }

  lemma ControlKeeps(s: Ring, b: nat, a: Action)
    requires Inv(s, b) && Enabled(s, a) && (a.Request? || a.Activate? || a.StartCall? || a.GiveUp?)
    ensures Inv(Apply(s, a), b)
  {
    hide Wrap, Flatten, Full;
    assert Rest(Apply(s, a)) == Rest(s);
  }

  lemma StepInv(s: Ring, b: nat, a: Action)
    requires Inv(s, b) && Enabled(s, a) && (a.Callback? ==> |a.block| == b)
    ensures Inv(Apply(s, a), b)
  {
    hide Wrap, Flatten, Full, Filled, Conserved, Push;
    match a
    case Callback(block) => CallbackKeeps(s, b, block);
    case Enter => EnterKeeps(s, b);
    case Wake => ExtractKeeps(s, b);
    case CopyOut(numElems) => CopyOutKeeps(s, b, numElems);
    case Release => ReleaseKeeps(s, b);
    case _ => ControlKeeps(s, b, a);
  }

  lemma {:induction false} RunInv(s: Ring, b: nat, acts: seq<Action>, t: Ring)
    requires Inv(s, b) && Run(s, acts, t) && Uniform(acts, b)
    ensures Inv(t, b)
    decreases |acts|
  {
    hide Inv, Apply, Enabled;
    if acts != [] {
      StepInv(s, b, acts[0]);
      assert Uniform(acts[1..], b) by {
        assert forall i :: 0 <= i < |acts[1..]| ==> acts[1..][i] == acts[i + 1];
      }
      RunInv(Apply(s, acts[0]), b, acts[1..], t);
    }
  }

  // ---- Every run ----

  lemma SlotPlace(base: nat, k: nat, n: nat) returns (i: nat)
    requires k < n
    ensures i < n && SlotOf(base, i, n) == k
  {
    var w := Wrap(base, n);
    i := if k >= w then k - w else k + n - w;
    WrapAdd(base, i, n);
  }

  /** Batching over every run with uniform blocks that do not divide the capacity: no slot outgrows its reserved
      capacity, no slot in flight is appended to, the slots beyond the tail are empty, and delivered, in-flight and
      filling samples together are the stored callbacks since the last drain, which are all of them until one is
      dropped, exactly when the overflow flag is up. */
  lemma BatchingSafe(n: nat, cap: nat, b: nat, acts: seq<Action>, t: Ring)
    requires n > 0 && 0 < b < cap && cap % b != 0 && Run(Init(n, cap), acts, t) && Uniform(acts, b)
    ensures |t.slots| == t.n && forall k :: 0 <= k < t.n ==> |t.slots[k]| < t.cap
    ensures !t.broken
    ensures forall i: nat :: t.count < i < t.n ==> t.slots[SlotOf(t.base, i, t.n)] == []
    ensures t.got + Rest(t) + Filling(t) == t.accepted
    ensures t.accepted == t.pushed <==> !t.overflow
  {
    hide Run, Wrap, Flatten, Full;
    InitInv(n, cap, b);
    RunInv(Init(n, cap), b, acts, t);
    SlotSizes(0, t.cap, b) by { ModUnique(0, b, 0, 0); }
    forall k | 0 <= k < t.n ensures |t.slots[k]| < t.cap {
      var i := SlotPlace(t.base, k, t.n);
      if i < t.count {
        assert t.slots[SlotOf(t.base, i, t.n)] == t.queue[i];
      }
    }
  }

  /** Before anything is read: j slots handed over with K blocks of b samples each, k blocks in slot j. */
  ghost predicate Prefix(s: Ring, b: nat, K: nat, j: nat, k: nat) {
    && s.cap == (K + 1) * b && b > 0
    && |s.slots| == s.n && j < s.n && s.count == j && s.tail == j && k <= K
    && (forall i :: 0 <= i < j ==> |s.slots[i]| == K * b)
    && |s.slots[j]| == k * b
    && (forall i :: j < i < s.n ==> s.slots[i] == [])
  }

  lemma PrefixStep(s: Ring, b: nat, K: nat, j: nat, k: nat, block: seq<Sample>)
    requires Prefix(s, b, K, j, k) && |block| == b && K >= 1
    requires k < K || j + 1 < s.n
    ensures Enabled(s, Callback(block)) && Apply(s, Callback(block)).n == s.n
    ensures if k < K then Prefix(Apply(s, Callback(block)), b, K, j, k + 1)
            else Prefix(Apply(s, Callback(block)), b, K, j + 1, 1)
  {
    assert (k + 1) * b == k * b + b && (K + 1) * b == K * b + b;
    if k < K {
      assert (k + 1) * b <= K * b;
    }
  }

  lemma {:induction false} FillRing(s: Ring, b: nat, K: nat, j: nat, k: nat, block: seq<Sample>)
    returns (acts: seq<Action>, t: Ring)
    requires Prefix(s, b, K, j, k) && |block| == b && K >= 1
    ensures Run(s, acts, t) && Uniform(acts, b) && t.n > 0 && Prefix(t, b, K, t.n - 1, K)
    decreases s.n - j, K - k
  {
    hide Apply, Enabled;
    if k < K || j + 1 < s.n {
      PrefixStep(s, b, K, j, k, block);
      var s' := Apply(s, Callback(block));
      var rest;
      if k < K {
        rest, t := FillRing(s', b, K, j, k + 1, block);
      } else {
        rest, t := FillRing(s', b, K, j + 1, 1, block);
      }
      acts := [Callback(block)] + rest;
      assert acts[1..] == rest;
    } else {
      acts, t := [], s;
    }
  }

  lemma {:induction false} RunSnoc(s: Ring, acts: seq<Action>, m: Ring, a: Action)
    requires Run(s, acts, m) && Enabled(m, a)
    ensures Run(s, acts + [a], Apply(m, a))
    decreases |acts|
  {
    hide Apply, Enabled;
    if acts == [] {
      assert acts + [a] == [a] && [a][1..] == [];
    } else {
      RunSnoc(Apply(s, acts[0]), acts[1..], m, a);
      assert (acts + [a])[1..] == acts[1..] + [a];
    }
  }

  lemma EmptyRun(s: Ring)
    ensures Run(s, [], s)
  {
  }

  /** Appends one step to a run, keeping the basic invariant. */
  lemma Took(s: Ring, acts: seq<Action>, m: Ring, a: Action) returns (t: Ring)
    requires Basic(m) && Ready(m, a) && Run(s, acts, m)
    ensures Enabled(m, a) && t == Apply(m, a) && Basic(t) && Run(s, acts + [a], t)
  {
    hide Basic, Ready, Safe, Apply;
    BasicStepSafe(m, a);
    StepBasic(m, a);
    t := Apply(m, a);
    RunSnoc(s, acts, m, a);
  }

  // ---- Which block sizes are safe ----

  /** No slot exceeds its reserved capacity and no callback was appended to a slot in flight. */
  ghost predicate Kept(t: Ring) {
    !t.broken && forall k :: 0 <= k < |t.slots| ==> |t.slots[k]| <= t.cap
  }

  /** The block sizes for which every run keeps this: those below the capacity that do not divide it, and, in a ring of
      one slot, those above it, of which none is ever stored. */
  lemma SafeBlocks(n: nat, cap: nat, b: nat)
    requires n > 0 && b > 0
    ensures (forall acts, t :: Run(Init(n, cap), acts, t) && Uniform(acts, b) ==> Kept(t)) <==>
              (b < cap && cap % b != 0) || (n == 1 && b > cap)
  {
    hide Run, Uniform;
    if b < cap && cap % b != 0 {
      forall acts, t | Run(Init(n, cap), acts, t) && Uniform(acts, b) ensures Kept(t) {
        BatchingSafe(n, cap, b, acts, t);
        RunConstants(Init(n, cap), acts, t);
      }
    } else if b > cap && n == 1 {
      forall acts, t | Run(Init(n, cap), acts, t) && Uniform(acts, b) ensures Kept(t) {
        InitBasic(n, cap);
        NothingStoredRun(Init(n, cap), b, acts, t);
      }
    } else if b > cap {
      LargeBlocksOutgrow(n, cap, b);
    } else {
      WholeSlotDivides(b);
      DividingBlocksBreak(n, cap, b);
    }
  }

  lemma StepConstants(s: Ring, a: Action)
    requires Enabled(s, a)
    ensures Apply(s, a).n == s.n && Apply(s, a).cap == s.cap
  {
    hide Wrap, Push, Acquire;
    match a
    case Callback(block) => PushConstants(s, block);
    case Enter => AcquireConstants(s);
    case _ =>
  }

  /** t has the reader's side of s. */
  ghost predicate SameReader(s: Ring, t: Ring) {
    && t.n == s.n && t.cap == s.cap && t.results == s.results && t.reader == s.reader && t.nElems == s.nElems
  }

  lemma PartsKeepReader(s: Ring, block: seq<Sample>)
    requires s.n > 0 && |s.slots| == s.n && s.tail < s.n
    ensures SameReader(s, Drop(s, block)) && SameReader(s, Append(s, block)) && SameReader(s, Advance(s))
    ensures Advance(s).slots == s.slots
  {
    hide Wrap;
  }

  lemma PushConstants(s: Ring, block: seq<Sample>)
    requires s.n > 0 && |s.slots| == s.n && s.tail < s.n
    ensures SameReader(s, Push(s, block))
  {
    hide Drop, Append;
    PartsKeepReader(s, block);
    var t := Advance(s);
    WrapIsMod(s.tail + 1, s.n);
    PartsKeepReader(t, block);
  }

  lemma AcquireConstants(s: Ring)
    requires s.n > 0 && |s.slots| == s.n && s.head < s.n
    ensures Acquire(s).n == s.n && Acquire(s).cap == s.cap
  {
    hide Wrap;
  }

  lemma {:induction false} RunConstants(s: Ring, acts: seq<Action>, t: Ring)
    requires Run(s, acts, t)
    ensures t.n == s.n && t.cap == s.cap
    decreases |acts|
  {
    hide Enabled, Apply;
    if acts != [] {
      StepConstants(s, acts[0]);
      RunConstants(Apply(s, acts[0]), acts[1..], t);
    }
  }

  /** With blocks larger than the slot of a one-slot ring the slot stays empty. */
  ghost predicate NothingStored(s: Ring) {
    s.n == 1 && s.slots == [[]] && !s.broken
  }

  lemma NothingStoredPush(s: Ring, block: seq<Sample>)
    requires NothingStored(s) && s.count <= 1 && s.tail == 0 && |block| > s.cap
    ensures NothingStored(Push(s, block))
  {
    assert Wrap(1, 1) == 0;
  }

  lemma NothingStoredStep(s: Ring, b: nat, a: Action)
    requires Basic(s) && NothingStored(s) && b > s.cap && Enabled(s, a) && (a.Callback? ==> |a.block| == b)
    ensures NothingStored(Apply(s, a)) && Apply(s, a).cap == s.cap
  {
    hide Wrap, Push;
    StepConstants(s, a);
    BasicCount(s);
    match a
    case Callback(block) => NothingStoredPush(s, block);
    case Enter => assert Drain(s).slots == [[]];
    case _ =>
  }

  lemma {:induction false} NothingStoredRun(s: Ring, b: nat, acts: seq<Action>, t: Ring)
    requires Basic(s) && NothingStored(s) && b > s.cap && Run(s, acts, t) && Uniform(acts, b)
    ensures NothingStored(t)
    decreases |acts|
  {
    hide Basic, NothingStored, Apply, Enabled;
    if acts != [] {
      StepBasic(s, acts[0]);
      NothingStoredStep(s, b, acts[0]);
      assert Uniform(acts[1..], b) by {
        assert forall i :: 0 <= i < |acts[1..]| ==> acts[1..][i] == acts[i + 1];
      }
      NothingStoredRun(Apply(s, acts[0]), b, acts[1..], t);
    }
  }

  /** In any other ring the first such block outgrows the slot it is stored in. */
  lemma LargeBlocksOutgrow(n: nat, cap: nat, b: nat)
    requires n > 1 && b > cap
    ensures exists acts, t :: Run(Init(n, cap), acts, t) && Uniform(acts, b) && !Kept(t)
  {
    var block := seq(b, _ => Sample(0, 0));
    var s, a := Init(n, cap), Callback(block);
    var t := Apply(s, a);
    assert |t.slots[1]| > t.cap;
    assert [a][1..] == [] && Run(s, [a], t) && Uniform([a], b);
  }

  /** Before anything is read, with blocks as large as a slot: j slots handed over, the first of them empty. */
  ghost predicate FirstEmpty(s: Ring, b: nat, j: nat) {
    s.cap == b && |s.slots| == s.n && j < s.n && s.count == j && s.tail == j && s.slots[0] == []
  }

  lemma {:induction false} FillWhole(s: Ring, b: nat, j: nat, block: seq<Sample>) returns (acts: seq<Action>, t: Ring)
    requires FirstEmpty(s, b, j) && |block| == b
    ensures Run(s, acts, t) && Uniform(acts, b) && t.broken
    decreases s.n - j
  {
    var a := Callback(block);
    var m := Apply(s, a);
    if j + 1 < s.n {
      acts, t := FillWhole(m, b, j + 1, block);
    } else {
      assert Wrap(s.n, s.n) == 0;
      acts, t := [], m;
    }
    assert ([a] + acts)[1..] == acts;
    acts := [a] + acts;
  }

  lemma WholeSlotDivides(b: nat)
    requires b > 0
    ensures b % b == 0
  {
    ModUnique(b, b, 1, 0);
  }

  lemma WholeSlotBlocksBreak(n: nat, b: nat)
    requires n > 0 && b > 0
    ensures exists acts, t :: Run(Init(n, b), acts, t) && Uniform(acts, b) && t.broken
  {
    var block := seq(b, _ => Sample(0, 0));
    var acts, t := FillWhole(Init(n, b), b, 0, block);
  }

  /** With blocks that divide the capacity, every ring has a run in which a callback is appended to a slot in flight,
      because what is left in a full slot is then just enough for one block. */
  lemma DividingBlocksBreak(n: nat, cap: nat, b: nat)
    requires n > 0 && 0 < b <= cap && cap % b == 0
    ensures exists acts, t :: Run(Init(n, cap), acts, t) && Uniform(acts, b) && t.broken
  {
    if b == cap {
      WholeSlotBlocksBreak(n, b);
      return;
    }
    var K := cap / b - 1;
    assert cap == (cap / b) * b;
    assert cap / b != 0 && cap / b != 1;
    var block := seq(b, _ => Sample(0, 0));
    var acts, t := FillRing(Init(n, cap), b, K, 0, 0, block);
    LastBlock(t, b, K, block);
    RunSnoc(Init(n, cap), acts, t, Callback(block));
    assert Uniform(acts + [Callback(block)], b);
  }

  lemma LastBlock(s: Ring, b: nat, K: nat, block: seq<Sample>)
    requires s.n > 0 && Prefix(s, b, K, s.n - 1, K) && |block| == b && K >= 1
    ensures Enabled(s, Callback(block)) && Apply(s, Callback(block)).broken
  {
    assert (K + 1) * b == K * b + b;
    assert Wrap(s.n, s.n) == 0;
  }

  // ---- Sizes of what is returned ----

  /** No result is larger than asked for, and the last one is smaller only if nothing of its slot is left. */
  ghost predicate Sized(s: Ring) {
    && (forall i :: 0 <= i < |s.results| && s.results[i].Data? ==> |s.results[i].samples| <= s.results[i].asked)
    && (s.results != [] && (s.reader.Outside? || s.reader.Releasing?) ==>
          var last := s.results[|s.results| - 1];
          last.Data? && |last.samples| < last.asked ==> s.nElems == 0)
  }

  lemma SizedStep(s: Ring, a: Action)
    requires Basic(s) && Sized(s) && Enabled(s, a)
    ensures Sized(Apply(s, a))
  {
    hide Wrap, Push, Acquire;
    match a
    case Callback(block) => PushConstants(s, block);
    case Enter => AcquireSizes(s, a);
    case _ =>
  }

  lemma AcquireSizes(s: Ring, a: Action)
    requires Basic(s) && Enabled(s, a) && a.Enter?
    ensures var t := Acquire(s);
            && (t.results == s.results || t.results == s.results + [Overflow])
            && (t.reader.Outside? || t.reader.Releasing? ==> t.results == s.results + [Overflow])
  {
    hide Wrap;
  }

  lemma {:induction false} SizedRun(s: Ring, acts: seq<Action>, t: Ring)
    requires Basic(s) && Sized(s) && Run(s, acts, t)
    ensures Sized(t)
    decreases |acts|
  {
    hide Apply, Enabled, Basic, Sized;
    if acts != [] {
      StepBasic(s, acts[0]);
      SizedStep(s, acts[0]);
      SizedRun(Apply(s, acts[0]), acts[1..], t);
    }
  }

  /** In every run a call returns no more elements than were asked for, and fewer only if it has come to the end of the
      slot. */
  lemma FragmentSizes(n: nat, cap: nat, acts: seq<Action>, t: Ring)
    requires n > 0 && Run(Init(n, cap), acts, t)
    ensures Sized(t)
  {
    hide Run, Basic;
    InitBasic(n, cap);
    SizedRun(Init(n, cap), acts, t);
  }
}
