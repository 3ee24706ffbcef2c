/** The sound-card receiver: the block ring again, but callback and acquire each run under one mutex, and a
    sample-rate change makes the callback refuse blocks until the next readStream. The question here is whether
    a gap in the delivered blocks can go unreported. */
module AudioRing {
  import opened BlockRing

  /** What the caller can observe, timeouts aside. */
  datatype Event =
    | Took(id: nat)                 // a block starts being delivered
    | OverflowReturned(lost: nat)   // an OVERFLOW return, with the number of blocks dropped since the last drain
    | Drained                       // a reset drain

  /** ring holds the fields and the reader's control point; changed is sampleRateChanged. */
  datatype Audio = Audio(ring: Ring, changed: bool, events: seq<Event>, dropped: nat)

  datatype Step = Callback(data: seq<Sample>) | SetSampleRate | SetFrequency | Read(action: Action)

  /** The control points between the lock of acquireReadBuffer and its unlock (the wait releases it). */
  ghost predicate HoldsMutex(r: Reader) {
    r.ResetTaken? || r.ResetCleared? || r.TestOverflow? || r.OverflowTaken? || r.TestCount? || r.Extract?
  }

  ghost predicate ReaderAction(a: Action) {
    a.StartCall? || a.TestResetFlag? || a.FinishReset? || a.ClearOverflow? || a.TestOverflowFlag? ||
    a.FinishOverflow? || a.TestCountZero? || a.WakeUp? || a.GiveUp? || a.ExtractHandle? || a.CopyOut? || a.Release?
  }

  ghost predicate Ready(s: Audio, step: Step) {
    match step
    case Callback(_) => !HoldsMutex(s.ring.reader)
    case SetSampleRate => true
    case SetFrequency => true
    case Read(a) => ReaderAction(a) && BlockRing.Ready(s.ring, a)
  }

  ghost function One(r: Ring, a: Action): (t: Ring)
    requires Inv(r) && BlockRing.Ready(r, a)
    ensures Enabled(r, a) && t == Apply(r, a) && Inv(t)
  {
    StepSafe(r, a);
    StepInv(r, a);
    Apply(r, a)
  }

  /** The callback that stores a block, all four accesses under the lock. */
  ghost function Store(r: Ring, data: seq<Sample>): (t: Ring)
    requires Inv(r) && r.producer.Idle? && r.count < r.n
    ensures Inv(t) && t.producer.Idle?
  {
    One(One(One(One(r, CheckFull(data)), Copy), AdvanceTail), Publish)
  }

  /** The callback that finds the ring full. */
  ghost function Drop(r: Ring, data: seq<Sample>): (t: Ring)
    requires Inv(r) && r.producer.Idle? && r.count == r.n
    ensures Inv(t) && t.producer.Idle?
  {
    One(One(r, CheckFull(data)), RaiseOverflow)
  }

  ghost function Next(s: Audio, step: Step): Audio
    requires Inv(s.ring) && s.ring.producer.Idle? && Ready(s, step)
  {
    match step
    case Callback(data) =>
      if s.changed then s.(ring := One(s.ring, Refuse(data)))
      else if s.ring.count == s.ring.n then s.(ring := Drop(s.ring, data), dropped := s.dropped + 1)
      else s.(ring := Store(s.ring, data))
    case SetSampleRate => s.(ring := One(s.ring, Request), changed := true)
    case SetFrequency => s.(ring := One(s.ring, Request))
    case Read(a) =>
      var t := s.(ring := One(s.ring, a));
      match a
      case StartCall => t.(changed := false)
      case ExtractHandle => t.(events := s.events + [Took(if s.ring.queue != [] then s.ring.queue[0].id else 0)])
      case FinishOverflow => t.(events := s.events + [OverflowReturned(s.dropped)], dropped := 0)
      case FinishReset => t.(events := s.events + [Drained])
      case ClearOverflow => t.(dropped := 0)
      case _ => t
  }

  // ---- The invariant ----

  /** The block whose delivery was the last thing observed, or -1. */
  ghost function LastTook(events: seq<Event>): int {
    if events != [] && events[|events| - 1].Took? then events[|events| - 1].id else -1
  }

  /** The blocks in the ring are the latest callbacks, and continue the last delivered one. */
  ghost predicate Seamless(s: Audio) {
    var r := s.ring;
    && (forall i :: 0 <= i < |r.queue| ==> r.queue[i].id == |r.produced| - |r.queue| + i)
    && (LastTook(s.events) >= 0 ==> LastTook(s.events) + 1 == |r.produced| - |r.queue| + HeldCount(r))
  }

  /** The block an acquire that is past its flag tests will take continues the last delivered one. */
  ghost predicate NextFollows(s: Audio) {
    var r := s.ring;
    LastTook(s.events) >= 0 ==>
      (if r.queue != [] then r.queue[0].id == LastTook(s.events) + 1
       else s.changed || |r.produced| == LastTook(s.events) + 1)
  }

  ghost predicate Untorn(s: Audio) {
    var r := s.ring;
    && Inv(r) && r.producer.Idle? && !r.dropOnReset
    && (r.reader.ResetTaken? || r.reader.ResetCleared? || r.reader.OverflowTaken? ==> r.queue == [])
    && (r.overflow <==> s.dropped > 0)
    && (r.reader.OverflowTaken? ==> r.overflow)
  }

  ghost predicate AudioInv(s: Audio) {
    var r := s.ring;
    && Untorn(s)
    && (r.reader.ResetCleared? ==> LastTook(s.events) < 0)
    && (s.changed ==> r.reset || (r.queue == [] && LastTook(s.events) < 0))
    && (!r.overflow && !r.reset && !s.changed ==> Seamless(s))
    && (r.reader.TestOverflow? && !r.overflow ==> NextFollows(s))
    && (r.reader.TestCount? || r.reader.Waiting? || r.reader.Extract? ==> NextFollows(s))
    && Reported(s.events)
  }

  /** Blocks delivered in succession are consecutive callbacks, and no OVERFLOW is returned without a loss. */
  ghost predicate Reported(events: seq<Event>) {
    && (forall i :: 0 <= i < |events| - 1 && events[i].Took? && events[i + 1].Took? ==>
          events[i + 1].id == events[i].id + 1)
    && (forall i :: 0 <= i < |events| && events[i].OverflowReturned? ==> events[i].lost > 0)
  }

  lemma StoreFacts(r: Ring, data: seq<Sample>)
    requires Inv(r) && r.producer.Idle? && r.count < r.n
    ensures var t := Store(r, data);
            && t.produced == r.produced + [data] && t.queue == r.queue + [Block(|r.produced|, data)]
            && t.count == r.count + 1 && t.n == r.n && t.overflow == r.overflow && t.reset == r.reset
            && t.reader == r.reader && t.buffered == r.buffered && t.dropOnReset == r.dropOnReset
  {
    hide Inv, RingIndex.Wrap;
  }

  lemma CallbackKeeps(s: Audio, data: seq<Sample>)
    requires AudioInv(s) && Ready(s, Callback(data))
    ensures AudioInv(Next(s, Callback(data)))
  {
    hide Inv, RingIndex.Wrap, Store, Reported;
    if !s.changed && s.ring.count < s.ring.n {
      StoreFacts(s.ring, data);
    }
    CountFacts(s.ring);
  }

  lemma CountFacts(r: Ring)
    requires Inv(r)
    ensures r.n > 0 && |r.queue| == r.count + Pending(r) && r.count <= r.n && HeldCount(r) <= r.count
    ensures !Held(r) || r.reader.Releasing? ==> r.buffered == 0
  {
  }

  lemma SettingsKeep(s: Audio, step: Step)
    requires AudioInv(s) && Ready(s, step) && (step.SetSampleRate? || step.SetFrequency?)
    ensures AudioInv(Next(s, step))
  {
    hide Inv, RingIndex.Wrap, Reported;
  }

  lemma ReportedSnoc(events: seq<Event>, e: Event)
    requires Reported(events)
    requires e.Took? && LastTook(events) >= 0 ==> e.id == LastTook(events) + 1
    requires e.OverflowReturned? ==> e.lost > 0
    ensures Reported(events + [e])
  {
  }

  /** Steps of the reader that report something. */
  lemma ReportKeeps(s: Audio, a: Action)
    requires AudioInv(s) && Ready(s, Read(a)) && (a.ExtractHandle? || a.FinishOverflow? || a.FinishReset?)
    ensures AudioInv(Next(s, Read(a)))
  {
    hide Inv, RingIndex.Wrap, Reported;
    CountFacts(s.ring);
    ExtractNonEmpty(s.ring);
    var t := Next(s, Read(a));
    ReportedSnoc(s.events, t.events[|s.events|]);
    CountFacts(t.ring);
  }

  lemma ExtractNonEmpty(r: Ring)
    requires Inv(r)
    ensures r.reader.Extract? ==> r.count > 0
  {
  }

  /** Steps of the reader inside acquireReadBuffer that report nothing. */
  lemma AcquireKeeps(s: Audio, a: Action)
    requires AudioInv(s) && Ready(s, Read(a))
    requires a.TestResetFlag? || a.ClearOverflow? || a.TestOverflowFlag? || a.TestCountZero? || a.WakeUp? || a.GiveUp?
    ensures AudioInv(Next(s, Read(a)))
  {
    hide Inv, RingIndex.Wrap, Reported;
    CountFacts(s.ring);
    CountFacts(Next(s, Read(a)).ring);
  }

  /** Steps of the reader outside it. */
  lemma FragmentKeeps(s: Audio, a: Action)
    requires AudioInv(s) && Ready(s, Read(a))
    requires a.StartCall? || a.CopyOut? || a.Release?
    ensures AudioInv(Next(s, Read(a)))
  {
    hide Inv, RingIndex.Wrap, Reported;
    CountFacts(s.ring);
    CountFacts(Next(s, Read(a)).ring);
  }

  lemma Keeps(s: Audio, step: Step)
    requires AudioInv(s) && Ready(s, step)
    ensures AudioInv(Next(s, step))
  {
    match step
    case Callback(data) => CallbackKeeps(s, data);
    case SetSampleRate => SettingsKeep(s, step);
    case SetFrequency => SettingsKeep(s, step);
    case Read(a) =>
      if a.ExtractHandle? || a.FinishOverflow? || a.FinishReset? {
        ReportKeeps(s, a);
      } else if a.StartCall? || a.CopyOut? || a.Release? {
        FragmentKeeps(s, a);
      } else {
        AcquireKeeps(s, a);
      }
  }

  // ---- Every run ----

  ghost predicate Run(s: Audio, steps: seq<Step>, t: Audio)
    decreases |steps|
  {
    if steps == [] then s == t
    else Inv(s.ring) && s.ring.producer.Idle? && Ready(s, steps[0]) && Run(Next(s, steps[0]), steps[1..], t)
  }

  lemma {:induction false} RunKeeps(s: Audio, steps: seq<Step>, t: Audio)
    requires AudioInv(s) && Run(s, steps, t)
    ensures AudioInv(t)
    decreases |steps|
  {
    hide AudioInv, Next, Ready, Inv;
    if steps != [] {
      Keeps(s, steps[0]);
      RunKeeps(Next(s, steps[0]), steps[1..], t);
    }
  }

  /** Overflow is always reported, and only then: in every run, two blocks delivered in succession with no
      OVERFLOW return and no reset drain between them were consecutive callbacks, even when the ring fills or
      the rate changes while the reader waits; and every OVERFLOW return stands for at least one lost block. */
  lemma OverflowAlwaysReported(n: nat, slots: seq<Block>, steps: seq<Step>, t: Audio)
    requires n > 0 && |slots| == n && Run(Audio(Init(n, false, slots), false, [], 0), steps, t)
    ensures Reported(t.events)
  {
    hide Run;
    InitAudio(n, slots);
    RunKeeps(Audio(Init(n, false, slots), false, [], 0), steps, t);
  }

  /** A loss is flagged, and only a loss: the flag is up exactly when blocks were dropped since the last drain, and
      while it is down, with no reset or rate change pending, the ring holds the latest callbacks without a gap,
      continuing the block last delivered. */
  lemma LossIsFlagged(n: nat, slots: seq<Block>, steps: seq<Step>, t: Audio)
    requires n > 0 && |slots| == n && Run(Audio(Init(n, false, slots), false, [], 0), steps, t)
    ensures t.ring.overflow <==> t.dropped > 0
    ensures !t.ring.overflow && !t.ring.reset && !t.changed ==> Seamless(t)
  {
    hide Run, Seamless;
    InitAudio(n, slots);
    RunKeeps(Audio(Init(n, false, slots), false, [], 0), steps, t);
  }

  lemma InitAudio(n: nat, slots: seq<Block>)
    requires n > 0 && |slots| == n
    ensures AudioInv(Audio(Init(n, false, slots), false, [], 0))
  {
    InitInv(n, false, slots);
  }

  /** After a loss the next acquire that starts returns OVERFLOW, with all blocks dropped since the last drain, unless a
      reset is pending. */
  lemma LossReturned(n: nat, slots: seq<Block>, steps: seq<Step>, t: Audio)
    requires n > 0 && |slots| == n && Run(Audio(Init(n, false, slots), false, [], 0), steps, t)
    requires t.dropped > 0 && t.ring.reader.TestReset? && !t.ring.reset
    ensures exists u ::
              && Run(t, [Read(TestResetFlag), Read(TestOverflowFlag), Read(FinishOverflow)], u)
              && u.ring.results == t.ring.results + [Overflow] && !u.ring.overflow
              && u.events == t.events + [OverflowReturned(t.dropped)]
  {
    hide AudioInv, Inv, Ready, Next, Seamless;
    LossIsFlagged(n, slots, steps, t);
    InitAudio(n, slots);
    RunKeeps(Audio(Init(n, false, slots), false, [], 0), steps, t);
    var reset, over, finish := Read(TestResetFlag), Read(TestOverflowFlag), Read(FinishOverflow);
    var t1 := FlagSteps(t, TestResetFlag);
    var t2 := FlagSteps(t1, TestOverflowFlag);
    var u := FlagSteps(t2, FinishOverflow);
    assert [reset, over, finish][1..] == [over, finish] && [over, finish][1..] == [finish] && [finish][1..] == [];
    assert Run(t2, [finish], u) && Run(t1, [over, finish], u);
    assert Run(t, [reset, over, finish], u);
  }

  /** The steps by which an acquire without a pending reset reports an overflow. */
  lemma FlagSteps(s: Audio, a: Action) returns (t: Audio)
    requires AudioInv(s) && s.ring.overflow
    requires match a
             case TestResetFlag => s.ring.reader.TestReset? && !s.ring.reset
             case TestOverflowFlag => s.ring.reader.TestOverflow?
             case FinishOverflow => s.ring.reader.OverflowTaken?
             case _ => false
    ensures Inv(s.ring) && s.ring.producer.Idle? && Ready(s, Read(a)) && t == Next(s, Read(a)) && AudioInv(t)
    ensures a.TestResetFlag? ==> t.ring.reader.TestOverflow?
    ensures a.TestOverflowFlag? ==> t.ring.reader.OverflowTaken?
    ensures if a.FinishOverflow?
            then t.ring.results == s.ring.results + [Overflow] && !t.ring.overflow &&
                 t.events == s.events + [OverflowReturned(s.dropped)]
            else t.ring.results == s.ring.results && t.ring.overflow && t.events == s.events && t.dropped == s.dropped
  {
    hide Inv, RingIndex.Wrap, Reported, Seamless, NextFollows;
    t := Next(s, Read(a));
    Keeps(s, Read(a));
  }

  /** The mutex ring is the atomic ring run with fewer interleavings, so its ring law and the order and
      integrity of delivered samples carry over. */
  lemma {:induction false} RefinesBlockRing(s: Audio, steps: seq<Step>, t: Audio) returns (acts: seq<Action>)
    requires AudioInv(s) && Run(s, steps, t)
    ensures BlockRing.Run(s.ring, acts, t.ring)
    decreases |steps|
  {
    hide AudioInv, Next, Ready, Inv, BlockRing.Run;
    if steps == [] {
      EmptyRun(s.ring);
      return [];
    }
    Keeps(s, steps[0]);
    var rest := RefinesBlockRing(Next(s, steps[0]), steps[1..], t);
    var first := StepRefines(s, steps[0]);
    RunConcat(s.ring, first, Next(s, steps[0]).ring, rest, t.ring);
    return first + rest;
  }

  lemma StepRefines(s: Audio, step: Step) returns (acts: seq<Action>)
    requires AudioInv(s) && Ready(s, step)
    ensures BlockRing.Run(s.ring, acts, Next(s, step).ring)
  {
    hide Inv, RingIndex.Wrap, Apply, BlockRing.Run, Reported;
    EmptyRun(s.ring);
    if step.Callback? && !s.changed {
      CountFacts(s.ring);
      if s.ring.count == s.ring.n {
        acts := DropRefines(s.ring, step.data);
      } else {
        acts := StoreRefines(s.ring, step.data);
      }
    } else {
      var a := match step
        case Callback(data) => Refuse(data)
        case Read(a) => a
        case _ => Request;
      var t := BlockRing.Took(s.ring, [], s.ring, a);
      acts := [] + [a];
    }
  }

  lemma DropRefines(r: Ring, data: seq<Sample>) returns (acts: seq<Action>)
    requires Inv(r) && r.producer.Idle? && r.count == r.n
    ensures BlockRing.Run(r, acts, Drop(r, data))
  {
    hide Inv, RingIndex.Wrap, BlockRing.Run;
    EmptyRun(r);
    acts := [];
    var t := BlockRing.Took(r, acts, r, CheckFull(data));
    acts := acts + [CheckFull(data)];
    t := BlockRing.Took(r, acts, t, RaiseOverflow);
    acts := acts + [RaiseOverflow];
  }

  lemma StoreRefines(r: Ring, data: seq<Sample>) returns (acts: seq<Action>)
    requires Inv(r) && r.producer.Idle? && r.count < r.n
    ensures BlockRing.Run(r, acts, Store(r, data))
  {
    hide Inv, RingIndex.Wrap, BlockRing.Run;
    EmptyRun(r);
    acts := [];
    var t := BlockRing.Took(r, acts, r, CheckFull(data));
    acts := acts + [CheckFull(data)];
    t := BlockRing.Took(r, acts, t, Copy);
    acts := acts + [Copy];
    t := BlockRing.Took(r, acts, t, AdvanceTail);
    acts := acts + [AdvanceTail];
    t := BlockRing.Took(r, acts, t, Publish);
    acts := acts + [Publish];
  }
}
