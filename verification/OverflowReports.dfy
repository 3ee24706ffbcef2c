/** Is a lost block reported by the Airspy and RTL-SDR receivers? Callback and reader share the overflow flag without a
    lock, so a flag can be raised after the reader has tested it, or be wiped out by the clearing that ends a drain. The
    states in which raising it goes wrong are found exactly. The sample rate is constant: no callback is refused. */
module OverflowReports {
  import opened BlockRing

  /** What the caller can observe, timeouts aside. */
  datatype Event =
    | Taken(id: nat)      // a block starts being delivered
    | OverflowReturned
    | Drained             // a reset drain

  datatype Watch = Watch(ring: Ring, events: seq<Event>)

  ghost function Next(w: Watch, a: Action): Watch
    requires Enabled(w.ring, a)
  {
    Watch(Apply(w.ring, a),
          match a
          case ExtractHandle => w.events + [Taken(if w.ring.queue != [] then w.ring.queue[0].id else 0)]
          case FinishOverflow => w.events + [OverflowReturned]
          case FinishReset => w.events + [Drained]
          case _ => w.events)
  }

  ghost predicate Run(w: Watch, acts: seq<Action>, v: Watch)
    decreases |acts|
  {
    if acts == [] then w == v else Enabled(w.ring, acts[0]) && Run(Next(w, acts[0]), acts[1..], v)
  }

  ghost function Start(n: nat, dropOnReset: bool, slots: seq<Block>): Watch
    requires n > 0 && |slots| == n
  {
    Watch(Init(n, dropOnReset, slots), [])
  }

  // ---- The property ----

  /** The block whose delivery was the last thing observed, or -1. */
  ghost function LastTaken(events: seq<Event>): int {
    if events != [] && events[|events| - 1].Taken? then events[|events| - 1].id else -1
  }

  /** A block was lost between the two last observed, and nothing said so. */
  ghost predicate GapLast(events: seq<Event>) {
    && |events| >= 2 && events[|events| - 1].Taken? && events[|events| - 2].Taken?
    && events[|events| - 1].id != events[|events| - 2].id + 1
  }

  /** Blocks delivered in succession are consecutive callbacks. */
  ghost predicate Reported(events: seq<Event>) {
    forall k :: 0 <= k <= |events| ==> !GapLast(events[..k])
  }

  /** A gap is reported, by OVERFLOW or a reset drain, at the latest before a second block behind it is taken. */
  ghost predicate ReportedLate(events: seq<Event>) {
    forall k :: 0 <= k < |events| && GapLast(events[..k]) ==> !events[k].Taken?
  }

  // ---- Where raising the flag goes wrong ----

  /** A drain is about to wipe the flag out, although blocks were committed after the drain emptied the ring, which no
      pending reset will drain again. */
  ghost predicate Wipes(r: Ring) {
    r.count > 0 && (r.reader.ResetTaken? || ((r.reader.ResetCleared? || r.reader.OverflowTaken?) && !r.reset))
  }

  /** The reader has passed its test of the flag and waits for the very next block. */
  ghost predicate TooLate(w: Watch) {
    w.ring.count == 0 && (w.ring.reader.TestCount? || w.ring.reader.Waiting?) && LastTaken(w.events) >= 0
  }

  /** No flag is raised where it is wiped out, nor, if strict, where it is too late; and no callback is refused. */
  ghost predicate Heard(w: Watch, acts: seq<Action>, strict: bool)
    decreases |acts|
  {
    acts != [] && Enabled(w.ring, acts[0]) ==>
      && !acts[0].Refuse?
      && (acts[0].RaiseOverflow? ==> !Wipes(w.ring) && !(strict && TooLate(w)))
      && Heard(Next(w, acts[0]), acts[1..], strict)
  }

  // ---- The invariant ----

  /** One more than the id of the last block that was not dropped, as far as the flag tells. */
  ghost function End(r: Ring): int {
    if Writing(r) || r.producer.Full? then |r.produced| - 1 else |r.produced|
  }

  ghost predicate Latest(r: Ring) {
    && (Writing(r) ==> r.producer.block.id == |r.produced| - 1)
    && (r.producer.Advanced? ==> r.queue != [] && r.queue[|r.queue| - 1].id == |r.produced| - 1)
  }

  ghost predicate Seamless(r: Ring) {
    forall i :: 0 <= i < |r.queue| ==> r.queue[i].id == End(r) - |r.queue| + i
  }

  ghost predicate Continues(w: Watch) {
    LastTaken(w.events) >= 0 ==> LastTaken(w.events) + 1 == End(w.ring) - |w.ring.queue| + HeldCount(w.ring)
  }

  /** Past the test of the overflow flag, or about to pass it. */
  ghost predicate AboutToTake(r: Ring) {
    (r.reader.TestOverflow? && !r.overflow) || r.reader.TestCount? || r.reader.Waiting? || r.reader.Extract?
  }

  ghost predicate NextFollows(w: Watch) {
    LastTaken(w.events) >= 0 ==>
      LastTaken(w.events) + 1 == if w.ring.queue != [] then w.ring.queue[0].id else End(w.ring)
  }

  /** With no flag that will still be seen, the ring holds the latest callbacks, continuing what was delivered. */
  ghost predicate Base(w: Watch) {
    var r := w.ring;
    && Inv(r) && Latest(r)
    && (r.reader.ResetTaken? ==> Seamless(r))
    && (!r.reset && (!r.overflow || r.reader.ResetCleared? || r.reader.OverflowTaken?) ==> Seamless(r))
    && (r.reader.ResetCleared? ==> LastTaken(w.events) < 0)
    && (!r.reset && !r.overflow && !r.reader.ResetTaken? && !r.reader.OverflowTaken? ==> Continues(w))
    && (r.reader.ResetTaken? ==> r.reset)
    && (r.reader.OverflowTaken? ==> r.overflow)
  }

  ghost predicate StrictInv(w: Watch) {
    Base(w) && (AboutToTake(w.ring) ==> NextFollows(w)) && Reported(w.events)
  }

  ghost predicate LateInv(w: Watch) {
    && Base(w)
    && (AboutToTake(w.ring) ==> (NextFollows(w) || w.ring.overflow) && !GapLast(w.events))
    && (GapLast(w.events) ==> w.ring.overflow || w.ring.reset)
    && ReportedLate(w.events)
  }

  lemma Facts(r: Ring)
    requires Inv(r)
    ensures r.n > 0 && |r.queue| == r.count + Pending(r) && HeldCount(r) <= r.count && |r.stamps| == r.count
    ensures r.reader.Extract? ==> r.count > 0
    ensures !Held(r) || r.reader.Releasing? || r.reader.Dropping? ==> r.buffered == 0
  {
  }

  lemma ReportedSnoc(events: seq<Event>, e: Event)
    ensures Reported(events + [e]) <==> Reported(events) && !GapLast(events + [e])
    ensures ReportedLate(events + [e]) <==> ReportedLate(events) && !(GapLast(events) && e.Taken?)
  {
    var all := events + [e];
    assert all[..|all|] == all && all[..|events|] == events;
    assert forall k :: 0 <= k <= |events| ==> all[..k] == events[..k];
    assert Reported(all) ==> forall k :: 0 <= k <= |events| ==> !GapLast(all[..k]);
    assert events[..|events|] == events;
  }

  // ---- One step ----

  lemma ProducerBase(w: Watch, a: Action)
    requires Base(w) && Enabled(w.ring, a) && OfProducer(a) && !a.Refuse?
    requires a.RaiseOverflow? ==> !Wipes(w.ring)
    ensures Base(Next(w, a))
  {
    hide Inv, Safe, RingIndex.Wrap, Drain, Deliver;
    StepInv(w.ring, a);
    Facts(w.ring);
    match a case _ =>
  }

  lemma DrainBase(w: Watch, a: Action)
    requires Base(w) && Enabled(w.ring, a) && OfDrain(a)
    ensures Base(Next(w, a))
  {
    hide Inv, Safe, RingIndex.Wrap, Produce, Deliver;
    StepInv(w.ring, a);
    Facts(w.ring);
    match a case _ =>
  }

  lemma RetireBase(w: Watch, a: Action)
    requires Base(w) && Enabled(w.ring, a) && (a.DropRemainder? || a.Release?)
    ensures Base(Next(w, a))
  {
    hide Inv, Safe, RingIndex.Wrap, Produce, Drain;
    StepInv(w.ring, a);
    Facts(w.ring);
    var r := Apply(w.ring, a);
    assert Held(w.ring) && !Held(r) && |r.queue| == |w.ring.queue| - 1;
  }

  lemma DeliverBase(w: Watch, a: Action)
    requires Base(w) && Enabled(w.ring, a) && !OfProducer(a) && !OfDrain(a) && !a.DropRemainder? && !a.Release?
    ensures Base(Next(w, a))
  {
    hide Inv, Safe, RingIndex.Wrap, Produce, Drain;
    StepInv(w.ring, a);
    Facts(w.ring);
    var r := Apply(w.ring, a);
    Facts(r);
    assert r.queue == w.ring.queue && End(r) == End(w.ring);
    match a case _ =>
  }

  lemma BaseStep(w: Watch, a: Action)
    requires Base(w) && Enabled(w.ring, a) && !a.Refuse? && (a.RaiseOverflow? ==> !Wipes(w.ring))
    ensures Base(Next(w, a))
  {
    hide Base, Next;
    if OfProducer(a) {
      ProducerBase(w, a);
    } else if OfDrain(a) {
      DrainBase(w, a);
    } else if a.DropRemainder? || a.Release? {
      RetireBase(w, a);
    } else {
      DeliverBase(w, a);
    }
  }

  lemma StrictProduce(w: Watch, a: Action)
    requires StrictInv(w) && Enabled(w.ring, a) && OfProducer(a) && !a.Refuse?
    requires a.RaiseOverflow? ==> !Wipes(w.ring) && !TooLate(w)
    ensures StrictInv(Next(w, a))
  {
    hide Inv, Safe, RingIndex.Wrap, Reported, Seamless, Drain, Deliver;
    BaseStep(w, a);
    Facts(w.ring);
    match a case _ =>
  }

  lemma StrictTake(w: Watch)
    requires StrictInv(w) && Enabled(w.ring, ExtractHandle)
    ensures StrictInv(Next(w, ExtractHandle))
  {
    hide Inv, Safe, RingIndex.Wrap, Reported, Seamless, Produce, Drain;
    BaseStep(w, ExtractHandle);
    Facts(w.ring);
    ReportedSnoc(w.events, Taken(w.ring.queue[0].id));
  }

  /** A ring without a gap that continues what was delivered offers the next block. */
  lemma Follows(w: Watch)
    requires Seamless(w.ring) && Continues(w) && !Held(w.ring)
    ensures NextFollows(w)
  {
  }

  lemma DrainFollows(w: Watch, a: Action)
    requires Base(w) && Enabled(w.ring, a) && OfDrain(a)
    requires AboutToTake(w.ring) && !w.ring.overflow ==> NextFollows(w)
    ensures AboutToTake(Next(w, a).ring) ==> NextFollows(Next(w, a))
  {
    hide Inv, Safe, RingIndex.Wrap, Seamless, Continues, Latest, Produce, Deliver;
    if a.TestResetFlag? && !w.ring.reset && !w.ring.overflow {
      Follows(w);
    }
    match a case _ =>
  }

  /** A step of a drain ends the last gap by an event, or leaves the events and a flag as they are. */
  lemma DrainEvents(w: Watch, a: Action)
    requires Enabled(w.ring, a) && OfDrain(a)
    ensures a.ClearOverflow? ==> w.ring.reader.ResetCleared?
    ensures var v := Next(w, a);
            || v.events == w.events + [OverflowReturned] || v.events == w.events + [Drained]
            || (v.events == w.events && (w.ring.overflow || w.ring.reset ==>
                  || a.ClearOverflow? || AboutToTake(w.ring)
                  || ((v.ring.overflow || v.ring.reset) && !AboutToTake(v.ring))))
  {
    hide Safe, RingIndex.Wrap, Produce, Deliver;
    match a case _ =>
  }

  lemma StrictDrain(w: Watch, a: Action)
    requires StrictInv(w) && Enabled(w.ring, a) && OfDrain(a)
    ensures StrictInv(Next(w, a))
  {
    hide Base, AboutToTake, NextFollows, Apply, Enabled, Reported;
    BaseStep(w, a);
    DrainFollows(w, a);
    ReportedSnoc(w.events, OverflowReturned);
    ReportedSnoc(w.events, Drained);
  }

  lemma StrictRead(w: Watch, a: Action)
    requires StrictInv(w) && Enabled(w.ring, a) && !OfProducer(a) && !OfDrain(a) && !a.ExtractHandle?
    ensures StrictInv(Next(w, a))
  {
    hide Inv, Safe, RingIndex.Wrap, Reported, Seamless, Produce, Drain;
    BaseStep(w, a);
    Facts(w.ring);
    match a case _ =>
  }

  lemma StrictStep(w: Watch, a: Action)
    requires StrictInv(w) && Enabled(w.ring, a) && !a.Refuse?
    requires a.RaiseOverflow? ==> !Wipes(w.ring) && !TooLate(w)
    ensures StrictInv(Next(w, a))
  {
    hide StrictInv, Next;
    if OfProducer(a) {
      StrictProduce(w, a);
    } else if OfDrain(a) {
      StrictDrain(w, a);
    } else if a.ExtractHandle? {
      StrictTake(w);
    } else {
      StrictRead(w, a);
    }
  }

  lemma LateProduce(w: Watch, a: Action)
    requires LateInv(w) && Enabled(w.ring, a) && OfProducer(a) && !a.Refuse?
    requires a.RaiseOverflow? ==> !Wipes(w.ring)
    ensures LateInv(Next(w, a))
  {
    hide Inv, Safe, RingIndex.Wrap, ReportedLate, Seamless, Drain, Deliver;
    BaseStep(w, a);
    Facts(w.ring);
    match a case _ =>
  }

  lemma LateTake(w: Watch)
    requires LateInv(w) && Enabled(w.ring, ExtractHandle)
    ensures LateInv(Next(w, ExtractHandle))
  {
    hide Inv, Safe, RingIndex.Wrap, ReportedLate, Seamless, Continues, Produce, Drain;
    BaseStep(w, ExtractHandle);
    Facts(w.ring);
    ReportedSnoc(w.events, Taken(w.ring.queue[0].id));
  }

  lemma LateDrain(w: Watch, a: Action)
    requires LateInv(w) && Enabled(w.ring, a) && OfDrain(a)
    ensures LateInv(Next(w, a))
  {
    hide Base, NextFollows, AboutToTake, Apply, Enabled, ReportedLate;
    BaseStep(w, a);
    DrainFollows(w, a);
    ReportedSnoc(w.events, OverflowReturned);
    ReportedSnoc(w.events, Drained);
    DrainEvents(w, a);
    if a.ClearOverflow? {
      NoneTaken(w);
    }
  }

  lemma NoneTaken(w: Watch)
    requires Base(w) && w.ring.reader.ResetCleared?
    ensures !GapLast(w.events)
  {
  }

  lemma LateRead(w: Watch, a: Action)
    requires LateInv(w) && Enabled(w.ring, a) && !OfProducer(a) && !OfDrain(a) && !a.ExtractHandle?
    ensures LateInv(Next(w, a))
  {
    hide Inv, Safe, RingIndex.Wrap, ReportedLate, Seamless, Continues, Produce, Drain;
    BaseStep(w, a);
    Facts(w.ring);
    match a case _ =>
  }

  lemma LateStep(w: Watch, a: Action)
    requires LateInv(w) && Enabled(w.ring, a) && !a.Refuse? && (a.RaiseOverflow? ==> !Wipes(w.ring))
    ensures LateInv(Next(w, a))
  {
    hide LateInv, Next;
    if OfProducer(a) {
      LateProduce(w, a);
    } else if OfDrain(a) {
      LateDrain(w, a);
    } else if a.ExtractHandle? {
      LateTake(w);
    } else {
      LateRead(w, a);
    }
  }

  // ---- Every run ----

  ghost predicate Invariant(w: Watch, strict: bool) {
    if strict then StrictInv(w) else LateInv(w)
  }

  ghost predicate Property(events: seq<Event>, strict: bool) {
    if strict then Reported(events) else ReportedLate(events)
  }

  lemma Step(w: Watch, a: Action, strict: bool)
    requires Invariant(w, strict) && Enabled(w.ring, a) && !a.Refuse?
    requires a.RaiseOverflow? ==> !Wipes(w.ring) && !(strict && TooLate(w))
    ensures Invariant(Next(w, a), strict)
  {
    hide StrictInv, LateInv, Next;
    if strict {
      StrictStep(w, a);
    } else {
      LateStep(w, a);
    }
  }

  lemma {:induction false} RunKeeps(w: Watch, acts: seq<Action>, v: Watch, strict: bool)
    requires Invariant(w, strict) && Run(w, acts, v) && Heard(w, acts, strict)
    ensures Invariant(v, strict)
    decreases |acts|
  {
    hide Invariant, Next, Enabled, Wipes, TooLate;
    if acts != [] {
      Step(w, acts[0], strict);
      RunKeeps(Next(w, acts[0]), acts[1..], v, strict);
    }
  }

  lemma StartInv(n: nat, dropOnReset: bool, slots: seq<Block>, strict: bool)
    requires n > 0 && |slots| == n
    ensures Invariant(Start(n, dropOnReset, slots), strict)
  {
    InitInv(n, dropOnReset, slots);
  }

  /** Over every interleaving: blocks delivered in succession with no OVERFLOW return and no reset drain between
      them were consecutive callbacks, if the flag is raised nowhere too late (strict); and if it is nowhere wiped
      out, a gap is reported before a second block behind it is taken. */
  lemma OverflowReported(n: nat, dropOnReset: bool, slots: seq<Block>, acts: seq<Action>, v: Watch, strict: bool)
    requires n > 0 && |slots| == n && Run(Start(n, dropOnReset, slots), acts, v)
    requires Heard(Start(n, dropOnReset, slots), acts, strict)
    ensures if strict then Reported(v.events) else ReportedLate(v.events)
  {
    hide Run, Heard;
    StartInv(n, dropOnReset, slots, strict);
    RunKeeps(Start(n, dropOnReset, slots), acts, v, strict);
  }

  // ---- The conditions are exact ----

  lemma {:induction false} RunConcat(w: Watch, first: seq<Action>, m: Watch, rest: seq<Action>, v: Watch)
    requires Run(w, first, m) && Run(m, rest, v)
    ensures Run(w, first + rest, v)
    decreases |first|
  {
    hide Next, Enabled;
    if first == [] {
      assert first + rest == rest;
    } else {
      RunConcat(Next(w, first[0]), first[1..], m, rest, v);
      assert (first + rest)[1..] == first[1..] + rest;
    }
  }

  /** Appends one step to a run, keeping the ring's invariant. */
  lemma Goes(w: Watch, acts: seq<Action>, m: Watch, a: Action) returns (v: Watch)
    requires Inv(m.ring) && Ready(m.ring, a) && Run(w, acts, m)
    ensures Enabled(m.ring, a) && v == Next(m, a) && Inv(v.ring) && Run(w, acts + [a], v)
  {
    hide Inv, Ready, Safe, Apply;
    StepSafe(m.ring, a);
    StepInv(m.ring, a);
    v := Next(m, a);
    assert [a][1..] == [] && Run(m, [a], v);
    RunConcat(w, acts, m, [a], v);
  }

  ghost predicate Quiet(acts: seq<Action>) {
    forall i :: 0 <= i < |acts| ==> !acts[i].RaiseOverflow? && !acts[i].Refuse?
  }

  lemma {:induction false} QuietHeard(w: Watch, acts: seq<Action>, strict: bool)
    requires Quiet(acts)
    ensures Heard(w, acts, strict)
    decreases |acts|
  {
    hide Next, Enabled, Wipes, TooLate;
    if acts != [] && Enabled(w.ring, acts[0]) {
      QuietHeard(Next(w, acts[0]), acts[1..], strict);
    }
  }

  /** A callback that finds room. */
  lemma Stores(w: Watch, acts: seq<Action>, m: Watch, data: seq<Sample>) returns (done: seq<Action>, v: Watch)
    requires Inv(m.ring) && Run(w, acts, m) && Quiet(acts) && m.ring.producer.Idle? && m.ring.count < m.ring.n
    ensures Inv(v.ring) && Run(w, done, v) && Quiet(done) && v.events == m.events
    ensures v.ring == m.ring.(slots := v.ring.slots, tail := v.ring.tail, count := m.ring.count + 1,
                              produced := m.ring.produced + [data], stamps := v.ring.stamps,
                              queue := m.ring.queue + [Block(|m.ring.produced|, data)])
  {
    hide Inv, Run, RingIndex.Wrap, Drain, Deliver;
    v := Goes(w, acts, m, CheckFull(data));
    v := Goes(w, acts + [CheckFull(data)], v, Copy);
    v := Goes(w, acts + [CheckFull(data)] + [Copy], v, AdvanceTail);
    v := Goes(w, acts + [CheckFull(data)] + [Copy] + [AdvanceTail], v, Publish);
    done := acts + [CheckFull(data)] + [Copy] + [AdvanceTail] + [Publish];
  }

  /** The reader is outside, holds nothing, and no flag is up. */
  ghost predicate Resting(m: Watch) {
    m.ring.reader.Outside? && m.ring.buffered == 0 && !m.ring.reset && !m.ring.overflow
  }

  /** A call gets as far as taking the oldest block. */
  lemma ToTake(w: Watch, acts: seq<Action>, m: Watch) returns (done: seq<Action>, v: Watch)
    requires Inv(m.ring) && Run(w, acts, m) && Quiet(acts) && Resting(m) && m.ring.count > 0
    ensures Inv(v.ring) && Run(w, done, v) && Quiet(done)
    ensures v == m.(ring := m.ring.(callRequests := m.ring.requests, reader := Extract))
  {
    hide Inv, Run, RingIndex.Wrap, Produce;
    v := Goes(w, acts, m, StartCall);
    v := Goes(w, acts + [StartCall], v, TestResetFlag);
    v := Goes(w, acts + [StartCall] + [TestResetFlag], v, TestOverflowFlag);
    v := Goes(w, acts + [StartCall] + [TestResetFlag] + [TestOverflowFlag], v, TestCountZero);
    done := acts + [StartCall] + [TestResetFlag] + [TestOverflowFlag] + [TestCountZero];
  }

  /** It takes the block, returns all of it and releases it. */
  lemma TakesWhole(w: Watch, acts: seq<Action>, m: Watch) returns (done: seq<Action>, v: Watch)
    requires Inv(m.ring) && Run(w, acts, m) && Quiet(acts) && m.ring.reader.Extract?
    requires !m.ring.reset && !m.ring.overflow
    ensures Inv(v.ring) && Run(w, done, v) && Quiet(done) && Resting(v)
    ensures m.ring.queue != [] && v.events == m.events + [Taken(m.ring.queue[0].id)]
    ensures v.ring.queue == m.ring.queue[1..] && v.ring.count == m.ring.count - 1 >= 0
    ensures v.ring.produced == m.ring.produced && v.ring.n == m.ring.n && v.ring.producer == m.ring.producer
  {
    hide Inv, Run, RingIndex.Wrap, Produce, Drain;
    Facts(m.ring);
    ExtractFacts(m.ring) by { StepSafe(m.ring, ExtractHandle); }
    v := Goes(w, acts, m, ExtractHandle);
    var all := CopyOut(v.ring.buffered);
    v := Goes(w, acts + [ExtractHandle], v, all);
    v := Goes(w, acts + [ExtractHandle] + [all], v, Release);
    done := acts + [ExtractHandle] + [all] + [Release];
  }

  /** A gap lies ahead: fewer blocks are queued than ids have passed since the last one taken. */
  ghost predicate GapAhead(m: Watch) {
    && m.ring.queue != [] && LastTaken(m.events) >= 0
    && m.ring.queue[|m.ring.queue| - 1].id != LastTaken(m.events) + |m.ring.queue|
  }

  /** Blocks are delivered until one behind the gap. */
  lemma {:induction false} DeliversGap(w: Watch, acts: seq<Action>, m: Watch) returns (done: seq<Action>, v: Watch)
    requires Inv(m.ring) && Run(w, acts, m) && Quiet(acts) && Resting(m) && GapAhead(m)
    requires m.ring.producer.Idle?
    ensures Inv(v.ring) && Run(w, done, v) && Quiet(done) && Resting(v) && v.ring.count < v.ring.n
    ensures GapLast(v.events) && v.ring.producer.Idle?
    decreases |m.ring.queue|
  {
    hide Inv, Run;
    Facts(m.ring);
    done, v := ToTake(w, acts, m);
    done, v := TakesWhole(w, done, v);
    Fits(m.ring);
    if !GapLast(v.events) {
      assert m.ring.queue[0].id == LastTaken(m.events) + 1;
      done, v := DeliversGap(w, done, v);
    }
  }

  lemma Fits(r: Ring)
    requires Inv(r)
    ensures r.count <= r.n
  {
  }

  /** A flag that is wiped out: some later gap is not even reported late. */
  lemma WipedIsUnreported(w: Watch) returns (more: seq<Action>, v: Watch)
    requires Base(w) && w.ring.producer.Full? && Wipes(w.ring) && Enabled(w.ring, RaiseOverflow)
    ensures Run(Next(w, RaiseOverflow), more, v) && Quiet(more)
    ensures !Reported(v.events) && !ReportedLate(v.events)
  {
    hide Inv, Run, Enabled, Reported, ReportedLate;
    var w1 := Next(w, RaiseOverflow);
    StepInv(w.ring, RaiseOverflow);
    Facts(w.ring);
    more, v := AfterDrain(w1);
    var last := |w.ring.queue| - 1;
    assert w.ring.queue[last].id == |w.ring.produced| - 2;
    more, v := TakesWhole(w1, more, v);
    Fits(w.ring);
    more, v := Stores(w1, more, v, []);
    assert GapAhead(v);
    more, v := DeliversGap(w1, more, v);
    var events := v.events;
    more, v := Stores(w1, more, v, []);
    more, v := ToTake(w1, more, v);
    more, v := TakesWhole(w1, more, v);
    ReportedSnoc(events, v.events[|events|]);
    WholeReported(events);
  }

  lemma WholeReported(events: seq<Event>)
    ensures Reported(events) ==> !GapLast(events)
  {
    assert events[..|events|] == events;
  }

  /** The end of a drain, and the way to the first block committed since. */
  lemma AfterDrain(m: Watch) returns (done: seq<Action>, v: Watch)
    requires Inv(m.ring) && Wipes(m.ring) && m.ring.producer.Idle?
    requires m.ring.buffered == 0
    ensures Inv(v.ring) && Run(m, done, v) && Quiet(done)
    ensures v.ring.reader.Extract? && !v.ring.reset && !v.ring.overflow && v.ring.producer.Idle?
    ensures v.ring.queue == m.ring.queue && v.ring.count == m.ring.count && v.ring.produced == m.ring.produced
    ensures v.ring.n == m.ring.n
  {
    hide Inv, Run, RingIndex.Wrap, Produce;
    NoSteps(m);
    done, v := [], m;
    if m.ring.reader.OverflowTaken? {
      v := Goes(m, done, v, FinishOverflow);
      done := done + [FinishOverflow];
      done, v := ToTake(m, done, v);
    } else {
      if m.ring.reader.ResetTaken? {
        v := Goes(m, done, v, FinishReset);
        done := done + [FinishReset];
      }
      done, v := FromCleared(m, done, v);
    }
  }

  lemma FromCleared(w: Watch, acts: seq<Action>, m: Watch) returns (done: seq<Action>, v: Watch)
    requires Inv(m.ring) && Run(w, acts, m) && Quiet(acts) && m.ring.reader.ResetCleared? && m.ring.count > 0
    ensures Inv(v.ring) && Run(w, done, v) && Quiet(done)
    ensures v == m.(ring := m.ring.(overflow := false, reader := Extract))
  {
    hide Inv, Run, RingIndex.Wrap, Produce;
    v := Goes(w, acts, m, ClearOverflow);
    v := Goes(w, acts + [ClearOverflow], v, TestOverflowFlag);
    v := Goes(w, acts + [ClearOverflow] + [TestOverflowFlag], v, TestCountZero);
    done := acts + [ClearOverflow] + [TestOverflowFlag] + [TestCountZero];
  }

  /** A flag raised too late: the next block is taken with a gap before it. */
  lemma TooLateIsUnreported(w: Watch) returns (more: seq<Action>, v: Watch)
    requires StrictInv(w) && w.ring.producer.Full? && TooLate(w) && Enabled(w.ring, RaiseOverflow)
    ensures Run(Next(w, RaiseOverflow), more, v) && Quiet(more) && !Reported(v.events)
  {
    hide Inv, Run, Enabled, Reported, Drain, RingIndex.Wrap;
    var w1 := Next(w, RaiseOverflow);
    StepInv(w.ring, RaiseOverflow);
    Facts(w.ring);
    assert w.ring.queue == [] && LastTaken(w.events) + 1 == |w.ring.produced| - 1;
    more, v := [], w1;
    NoSteps(w1);
    if w.ring.reader.TestCount? {
      v := Goes(w1, more, v, TestCountZero);
      more := more + [TestCountZero];
    }
    more, v := WakesToNext(w1, more, v);
    WholeReported(v.events);
  }

  /** A waiting reader takes the next block as soon as it is stored. */
  lemma WakesToNext(w: Watch, acts: seq<Action>, m: Watch) returns (done: seq<Action>, v: Watch)
    requires Inv(m.ring) && Run(w, acts, m) && Quiet(acts)
    requires m.ring.reader.Waiting? && m.ring.producer.Idle? && m.ring.queue == []
    ensures Run(w, done, v) && Quiet(done) && v.events == m.events + [Taken(|m.ring.produced|)]
  {
    hide Inv, Run, RingIndex.Wrap, Produce, Drain;
    Facts(m.ring);
    done, v := Stores(w, acts, m, []);
    v := Goes(w, done, v, WakeUp);
    v := Goes(w, done + [WakeUp], v, ExtractHandle);
    done := done + [WakeUp] + [ExtractHandle];
  }

  lemma NoSteps(w: Watch)
    ensures Run(w, [], w)
  {
  }

  /** Both conditions are exact, for both drivers: after a run in which the flag was heard wherever it was raised,
      raising it can have an unreported gap among its consequences, with the flag heard from then on, if and only if
      it is wiped out or, where a late report does not do, too late. */
  lemma RaiseExact(n: nat, dropOnReset: bool, slots: seq<Block>, past: seq<Action>, w: Watch, strict: bool)
    requires n > 0 && |slots| == n && Run(Start(n, dropOnReset, slots), past, w)
    requires Heard(Start(n, dropOnReset, slots), past, strict) && w.ring.producer.Full?
    ensures Enabled(w.ring, RaiseOverflow)
    ensures Wipes(w.ring) || (strict && TooLate(w)) <==>
              exists more, v :: Run(Next(w, RaiseOverflow), more, v) && Heard(Next(w, RaiseOverflow), more, strict) &&
                                !Property(v.events, strict)
  {
    hide Run, Heard, Wipes, TooLate, Base, Reported, ReportedLate, Next;
    StartInv(n, dropOnReset, slots, strict);
    RunKeeps(Start(n, dropOnReset, slots), past, w, strict);
    BaseInv(w);
    StepSafe(w.ring, RaiseOverflow);
    var w1 := Next(w, RaiseOverflow);
    if Wipes(w.ring) {
      var more, v := WipedIsUnreported(w);
      QuietHeard(w1, more, strict);
    } else if strict && TooLate(w) {
      var more, v := TooLateIsUnreported(w);
      QuietHeard(w1, more, strict);
    } else {
      Step(w, RaiseOverflow, strict);
      forall more, v | Run(w1, more, v) && Heard(w1, more, strict) ensures Property(v.events, strict) {
        RunKeeps(w1, more, v, strict);
      }
    }
  }

  lemma BaseInv(w: Watch)
    requires Base(w)
    ensures Inv(w.ring)
  {
  }

  // ---- Such states are reached ----

  lemma {:induction false} FillsUp(w: Watch, acts: seq<Action>, m: Watch) returns (done: seq<Action>, v: Watch)
    requires Inv(m.ring) && Run(w, acts, m) && Quiet(acts) && m.ring.producer.Idle?
    ensures Inv(v.ring) && Run(w, done, v) && Quiet(done)
    ensures v.ring.producer.Idle? && v.ring.count == v.ring.n == m.ring.n
    ensures v.ring.reader == m.ring.reader && v.ring.buffered == m.ring.buffered && v.events == m.events
    ensures v.ring.reset == m.ring.reset && v.ring.overflow == m.ring.overflow
    decreases m.ring.n - m.ring.count
  {
    hide Inv, Run;
    Fits(m.ring);
    if m.ring.count == m.ring.n {
      done, v := acts, m;
    } else {
      done, v := Stores(w, acts, m, []);
      done, v := FillsUp(w, done, v);
    }
  }

  /** The window in which a flag is wiped out is reached in every ring, during the drain of a first reset. */
  lemma WipedReached(n: nat, dropOnReset: bool, slots: seq<Block>) returns (acts: seq<Action>, v: Watch)
    requires n > 0 && |slots| == n
    ensures Run(Start(n, dropOnReset, slots), acts, v) && v.ring.producer.Full? && Wipes(v.ring)
    ensures Heard(Start(n, dropOnReset, slots), acts, true)
  {
    hide Inv, Run, RingIndex.Wrap;
    var w := Start(n, dropOnReset, slots);
    InitInv(n, dropOnReset, slots);
    NoSteps(w);
    v := Goes(w, [], w, Request);
    v := Goes(w, [] + [Request], v, StartCall);
    v := Goes(w, [] + [Request] + [StartCall], v, TestResetFlag);
    acts, v := FillsUp(w, [] + [Request] + [StartCall] + [TestResetFlag], v);
    v := Goes(w, acts, v, CheckFull([]));
    acts := acts + [CheckFull([])];
    QuietHeard(w, acts, true);
  }

  /** So every ring has a run in which a lost block is not even reported late. */
  lemma UnreportedRun(n: nat, dropOnReset: bool, slots: seq<Block>)
    requires n > 0 && |slots| == n
    ensures exists acts, v :: Run(Start(n, dropOnReset, slots), acts, v) && !ReportedLate(v.events)
  {
    hide Run, Heard, Wipes, Inv, ReportedLate, Next;
    var past, w := WipedReached(n, dropOnReset, slots);
    RaiseExact(n, dropOnReset, slots, past, w, true);
    StartInv(n, dropOnReset, slots, true);
    RunKeeps(Start(n, dropOnReset, slots), past, w, true);
    var more, v := WipedIsUnreported(w);
    assert Run(w, [RaiseOverflow] + more, v) by {
      OneStep(w, RaiseOverflow);
      RunConcat(w, [RaiseOverflow], Next(w, RaiseOverflow), more, v);
    }
    RunConcat(Start(n, dropOnReset, slots), past, w, [RaiseOverflow] + more, v);
  }

  /** The reader takes every block there is. */
  lemma {:induction false} TakesAll(w: Watch, acts: seq<Action>, m: Watch) returns (done: seq<Action>, v: Watch)
    requires Inv(m.ring) && Run(w, acts, m) && Quiet(acts) && Resting(m)
    requires m.ring.count > 0 || LastTaken(m.events) >= 0
    ensures Inv(v.ring) && Run(w, done, v) && Quiet(done) && Resting(v)
    ensures v.ring.count == 0 && LastTaken(v.events) >= 0 && v.ring.producer == m.ring.producer
    decreases m.ring.count
  {
    hide Inv, Run;
    if m.ring.count == 0 {
      done, v := acts, m;
    } else {
      done, v := ToTake(w, acts, m);
      done, v := TakesWhole(w, done, v);
      done, v := TakesAll(w, done, v);
    }
  }

  /** The state in which a flag comes too late is reached in every ring: the callback finds it full, the reader
      empties it and waits, and only then is the flag raised. */
  lemma TooLateReached(n: nat, dropOnReset: bool, slots: seq<Block>) returns (acts: seq<Action>, v: Watch)
    requires n > 0 && |slots| == n
    ensures Run(Start(n, dropOnReset, slots), acts, v) && v.ring.producer.Full? && TooLate(v) && Quiet(acts)
  {
    hide Inv, Run, RingIndex.Wrap;
    var w := Start(n, dropOnReset, slots);
    InitInv(n, dropOnReset, slots);
    NoSteps(w);
    acts, v := FillsUp(w, [], w);
    v := Goes(w, acts, v, CheckFull([]));
    acts := acts + [CheckFull([])];
    acts, v := TakesAll(w, acts, v);
    v := Goes(w, acts, v, StartCall);
    v := Goes(w, acts + [StartCall], v, TestResetFlag);
    v := Goes(w, acts + [StartCall] + [TestResetFlag], v, TestOverflowFlag);
    acts := acts + [StartCall] + [TestResetFlag] + [TestOverflowFlag];
  }

  /** So every ring has a run that reports a lost block only late, although no flag is ever wiped out. */
  lemma LateRun(n: nat, dropOnReset: bool, slots: seq<Block>)
    requires n > 0 && |slots| == n
    ensures exists past, w, more, v ::
              && Run(Start(n, dropOnReset, slots), past, w) && Quiet(past) && Enabled(w.ring, RaiseOverflow)
              && !Wipes(w.ring) && Run(Next(w, RaiseOverflow), more, v) && Quiet(more) && !Reported(v.events)
  {
    hide Run, Heard, Inv, Reported, Next;
    var past, w := TooLateReached(n, dropOnReset, slots);
    QuietHeard(Start(n, dropOnReset, slots), past, true);
    RaiseExact(n, dropOnReset, slots, past, w, true);
    StartInv(n, dropOnReset, slots, true);
    RunKeeps(Start(n, dropOnReset, slots), past, w, true);
    var more, v := TooLateIsUnreported(w);
  }

  lemma OneStep(w: Watch, a: Action)
    requires Enabled(w.ring, a)
    ensures Run(w, [a], Next(w, a))
  {
    hide Next, Enabled;
    assert [a][1..] == [];
  }
}
