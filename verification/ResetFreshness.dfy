/** What a reset request means to the caller of readStream: once requested, later calls return no sample committed
    before. RTL-SDR's driver keeps this except for requests in one window; Airspy's, which does not drop the rest of a
    partly read block, in more states. For both the states in which a request goes wrong are found exactly. */
module ResetFreshness {
  import opened Sequences
  import opened BlockRing

  /** Every sample returned was committed no earlier than the last reset requested before its call started. */
  ghost predicate Fresh(results: seq<Return>) {
    forall i :: 0 <= i < |results| && results[i].Data? && results[i].samples != [] ==>
      results[i].committed >= results[i].started
  }

  /** The drain has emptied the count but not yet cleared the flag, and samples have been committed since: a
      request made now is wiped out by the clearing that belongs to the previous one. */
  ghost predicate LosesRequest(s: Ring) {
    s.reader.ResetTaken? && exists i :: 0 <= i < |s.queue| && i < s.count && s.queue[i].data != []
  }

  /** The current call is past its reset test and will take the oldest block if there is one. */
  ghost predicate AboutToTake(s: Ring) {
    || s.reader.ResetCleared? || (s.reader.TestOverflow? && !s.overflow)
    || s.reader.TestCount? || s.reader.Waiting? || s.reader.Extract?
  }

  /** A request made now can be followed by a stale read: it is wiped out, or, when remainders are kept, samples of a
      block that the reader holds or is about to take can be left to a later call. */
  ghost predicate Exposes(s: Ring) {
    || LosesRequest(s)
    || (!s.dropOnReset && s.queue != [] &&
        ((Held(s) && s.buffered > 0) || (AboutToTake(s) && s.count > 0 && s.queue[0].data != [])))
  }

  /** A run in which no reset is requested in such a state. */
  ghost predicate NoneExposed(s: Ring, acts: seq<Action>)
    decreases |acts|
  {
    acts != [] && Enabled(s, acts[0]) ==>
      !(acts[0].Request? && Exposes(s)) && NoneExposed(Apply(s, acts[0]), acts[1..])
  }

  /** The committed blocks of the queue that hold samples have stamps of at least bound. */
  ghost predicate Recent(s: Ring, bound: nat) {
    forall i :: 0 <= i < |s.stamps| && i < |s.queue| ==> s.stamps[i] >= bound || s.queue[i].data == []
  }

  ghost predicate AllAtMost(stamps: seq<nat>, bound: nat) {
    forall i :: 0 <= i < |stamps| ==> stamps[i] <= bound
  }

  /** The reader is past the reset test of the current call. */
  ghost predicate PastReset(r: Reader) {
    !(r.Outside? || r.Dropping? || r.TestReset?)
  }

  /** Requests are counted before commits can be stamped with them. */
  ghost predicate Stamped(s: Ring) {
    s.callRequests <= s.requests && AllAtMost(s.stamps, s.requests)
  }

  /** When remainders are kept: what the reader holds or is about to take is as new as the last request. */
  ghost predicate HeadRecent(s: Ring) {
    && (s.stamps != [] && Held(s) && s.buffered > 0 ==> s.stamps[0] >= s.requests)
    && (s.stamps != [] && AboutToTake(s) && s.queue != [] && s.queue[0].data != [] ==> s.stamps[0] >= s.requests)
  }

  ghost predicate FreshInv(s: Ring) {
    && Stamped(s)
    && (!s.reset || s.reader.ResetTaken? ==> Recent(s, s.requests))
    && (if s.dropOnReset then PastReset(s.reader) ==> Recent(s, s.callRequests) else HeadRecent(s))
    && Fresh(s.results)
  }

  lemma StampedStep(s: Ring, a: Action)
    requires Inv(s) && Stamped(s) && Enabled(s, a)
    ensures Stamped(Apply(s, a))
  {
    hide RingIndex.Wrap, Shape, Indices, Contents, Order, Output;
    match a case _ =>
  }

  /** A step of the callback or a request, when remainders are dropped. */
  lemma DroppingProduce(s: Ring, a: Action)
    requires s.dropOnReset && Inv(s) && FreshInv(s) && Enabled(s, a) && OfProducer(a)
    requires a.Request? ==> !LosesRequest(s)
    ensures FreshInv(Apply(s, a))
  {
    hide RingIndex.Wrap, Indices, Contents, Order, Output, Drain, Deliver;
    StampedStep(s, a);
    match a case _ =>
  }

  /** A step of the reader, when remainders are dropped. */
  lemma DroppingRead(s: Ring, a: Action)
    requires s.dropOnReset && Inv(s) && FreshInv(s) && Enabled(s, a) && !OfProducer(a)
    ensures FreshInv(Apply(s, a))
  {
    hide RingIndex.Wrap, Indices, Contents, Order, Output, Produce;
    StampedStep(s, a);
    if a.CopyOut? {
      HeldSlot(s);
      assert s.slots[s.handle].data == [] || s.stamps[0] >= s.callRequests;
    }
    match a case _ =>
  }

  /** A step of the callback or a request, when remainders are kept. */
  lemma KeepingProduce(s: Ring, a: Action)
    requires !s.dropOnReset && Inv(s) && FreshInv(s) && Enabled(s, a) && OfProducer(a)
    requires a.Request? ==> !Exposes(s)
    ensures FreshInv(Apply(s, a))
  {
    hide RingIndex.Wrap, Indices, Contents, Order, Output, Drain, Deliver;
    StampedStep(s, a);
    match a case _ =>
  }

  /** A step of the reader, when remainders are kept. */
  lemma KeepingRead(s: Ring, a: Action)
    requires !s.dropOnReset && Inv(s) && FreshInv(s) && Enabled(s, a) && !OfProducer(a)
    ensures FreshInv(Apply(s, a))
  {
    hide RingIndex.Wrap, Indices, Contents, Order, Samples, Flatten, DataOf, Produce;
    StampedStep(s, a);
    if a.ExtractHandle? {
      ExtractFacts(s);
    }
    match a case _ =>
  }

  lemma FreshStep(s: Ring, a: Action)
    requires Inv(s) && FreshInv(s) && Enabled(s, a)
    requires a.Request? ==> !Exposes(s)
    ensures FreshInv(Apply(s, a))
  {
    hide Inv, FreshInv, Apply;
    if s.dropOnReset {
      if OfProducer(a) { DroppingProduce(s, a); } else { DroppingRead(s, a); }
    } else {
      if OfProducer(a) { KeepingProduce(s, a); } else { KeepingRead(s, a); }
    }
  }

  lemma {:induction false} FreshRun(s: Ring, acts: seq<Action>, t: Ring)
    requires Inv(s) && FreshInv(s) && Run(s, acts, t) && NoneExposed(s, acts)
    ensures FreshInv(t)
    decreases |acts|
  {
    hide Inv, Apply, Enabled, FreshInv;
    if acts != [] {
      StepInv(s, acts[0]);
      FreshStep(s, acts[0]);
      FreshRun(Apply(s, acts[0]), acts[1..], t);
    }
  }

  lemma {:induction false} StampedRun(s: Ring, acts: seq<Action>, t: Ring)
    requires Inv(s) && Stamped(s) && Run(s, acts, t)
    ensures Stamped(t)
    decreases |acts|
  {
    hide Inv, Apply, Enabled, Stamped;
    if acts != [] {
      StepInv(s, acts[0]);
      StampedStep(s, acts[0]);
      StampedRun(Apply(s, acts[0]), acts[1..], t);
    }
  }

  /** Freshness over every interleaving in which no request is made in an exposed state. With dropped remainders that is
      the window alone, so calls that find a partly read block and drop it are included. */
  lemma ResetFreshness(n: nat, dropOnReset: bool, slots: seq<Block>, acts: seq<Action>, t: Ring)
    requires n > 0 && |slots| == n && Run(Init(n, dropOnReset, slots), acts, t)
    requires NoneExposed(Init(n, dropOnReset, slots), acts)
    ensures Fresh(t.results)
  {
    hide Run, NoneExposed;
    InitInv(n, dropOnReset, slots);
    InitFresh(n, dropOnReset, slots);
    FreshRun(Init(n, dropOnReset, slots), acts, t);
  }

  /** A partly read block older than the last request is returned by the next call unless that call drops it. */
  lemma StaleRemainder(s: Ring, acts: seq<Action>, m: Ring) returns (t: Ring)
    requires Inv(m) && Run(s, acts, m)
    requires m.reader.Outside? && m.buffered > 0 && !(m.dropOnReset && m.reset)
    requires m.stamps != [] && m.stamps[0] < m.requests
    ensures Run(s, acts + [StartCall] + [CopyOut(1)], t) && !Fresh(t.results)
  {
    hide Run, Indices, Contents, Order, RingIndex.Wrap;
    var m1 := Took(s, acts, m, StartCall);
    t := Took(s, acts + [StartCall], m1, CopyOut(1));
    var r := t.results[|m1.results|];
    assert r.Data? && |r.samples| == 1 && r.committed == m.stamps[0] && r.started == m.requests;
  }

  /** From any reachable exposed state a request can be followed by a call that starts later and returns a sample
      committed earlier. */
  lemma ExposedIsStale(n: nat, dropOnReset: bool, slots: seq<Block>, past: seq<Action>, s: Ring)
    returns (more: seq<Action>, t: Ring)
    requires n > 0 && |slots| == n && Run(Init(n, dropOnReset, slots), past, s) && Exposes(s)
    ensures Enabled(s, Request) && Run(Apply(s, Request), more, t) && NoRequests(more) && !Fresh(t.results)
  {
    hide Run, Fresh, Inv, Stamped, LosesRequest, AboutToTake, Held;
    InitInv(n, dropOnReset, slots);
    RunInv(Init(n, dropOnReset, slots), past, s);
    InitFresh(n, dropOnReset, slots);
    StampedRun(Init(n, dropOnReset, slots), past, s);
    StepSafe(s, Request);
    if LosesRequest(s) {
      more, t := LostIsStale(s);
    } else if Held(s) && s.buffered > 0 {
      more, t := HeldIsStale(s);
    } else {
      more, t := TakenIsStale(s);
    }
  }

  /** A request wiped out by the clearing of the flag. */
  lemma LostIsStale(s: Ring) returns (more: seq<Action>, t: Ring)
    requires Inv(s) && Stamped(s) && LosesRequest(s) && Enabled(s, Request)
    ensures Run(Apply(s, Request), more, t) && NoRequests(more) && !Fresh(t.results)
  {
    hide Run, Fresh, Indices, Contents, Order, Output, RingIndex.Wrap;
    var i :| 0 <= i < |s.queue| && i < s.count && s.queue[i].data != [];
    var s1 := TookOne(s, Request);
    var s2 := TookOne(s1, FinishReset);
    assert s2.stamps == s.stamps && s2.count == s.count && s2.queue == s.queue && s2.requests == s.requests + 1;
    more, t := LateCall(s1, [FinishReset], s2, i);
  }

  /** A request while the reader holds samples, which it keeps. */
  lemma HeldIsStale(s: Ring) returns (more: seq<Action>, t: Ring)
    requires Inv(s) && Stamped(s) && !s.dropOnReset && Held(s) && s.buffered > 0 && Enabled(s, Request)
    ensures Run(Apply(s, Request), more, t) && NoRequests(more) && !Fresh(t.results)
  {
    hide Run, Fresh, Indices, Contents, Order, RingIndex.Wrap, Samples, Flatten, DataOf;
    var s1 := TookOne(s, Request);
    EmptyRun(s1);
    if s.reader.Outside? {
      t := StaleRemainder(s1, [], s1);
      more := [] + [StartCall] + [CopyOut(1)];
    } else {
      var s2 := TookOne(s1, CopyOut(0));
      t := StaleRemainder(s1, [CopyOut(0)], s2);
      more := [CopyOut(0)] + [StartCall] + [CopyOut(1)];
    }
  }

  /** A request while the current call is about to take a block that it need not read to the end. */
  lemma TakenIsStale(s: Ring) returns (more: seq<Action>, t: Ring)
    requires Inv(s) && Stamped(s) && !s.dropOnReset && Enabled(s, Request)
    requires AboutToTake(s) && s.count > 0 && s.queue != [] && s.queue[0].data != []
    ensures Run(Apply(s, Request), more, t) && NoRequests(more) && !Fresh(t.results)
  {
    hide Run, Fresh, Indices, Contents, Order, Output, RingIndex.Wrap;
    var s1 := TookOne(s, Request);
    EmptyRun(s1);
    assert StaleAt(s1, 0);
    var s2;
    more, s2 := Onward(s1);
    more, t := StaleFrom(s1, more, s2, 0);
  }

  /** The current call goes on to the point where it takes its block. */
  lemma {:induction false} Onward(s: Ring) returns (acts: seq<Action>, t: Ring)
    requires Inv(s) && AboutToTake(s) && s.count > 0
    ensures Inv(t) && Run(s, acts, t) && NoRequests(acts) && t.reader.Extract?
    ensures t == s.(overflow := t.overflow, reader := Extract)
    decreases match s.reader case ResetCleared => 3 case TestOverflow => 2 case Extract => 0 case _ => 1
  {
    hide Run, Inv, RingIndex.Wrap, Produce;
    if s.reader.Extract? {
      EmptyRun(s);
      return [], s;
    }
    var a := match s.reader
      case ResetCleared => ClearOverflow
      case TestOverflow => TestOverflowFlag
      case TestCount => TestCountZero
      case _ => WakeUp;
    var m := TookOne(s, a);
    acts, t := Onward(m);
    RunConcat(s, [a], m, acts, t);
    acts := [a] + acts;
  }

  ghost predicate NoRequests(acts: seq<Action>) {
    forall i :: 0 <= i < |acts| ==> !acts[i].Request?
  }

  /** All committed blocks are older than the last request, and block i holds samples. */
  ghost predicate StaleAt(m: Ring, i: nat) {
    && i < m.count && i < |m.queue| && m.queue[i].data != []
    && forall j :: 0 <= j < |m.stamps| ==> m.stamps[j] < m.requests
  }

  /** From the end of the drain on, the current call can leave the oldest block unread for the next call, or, if it is
      empty, release it, and later calls get to the stale one. */
  lemma LateCall(s: Ring, acts: seq<Action>, m: Ring, i: nat) returns (done: seq<Action>, t: Ring)
    requires Inv(m) && Run(s, acts, m) && NoRequests(acts)
    requires m.reader.ResetCleared? && !m.reset && StaleAt(m, i)
    ensures Run(s, done, t) && NoRequests(done) && !Fresh(t.results)
  {
    hide Run, Fresh, Indices, Contents, Order, Output, RingIndex.Wrap;
    var m1 := Took(s, acts, m, ClearOverflow);
    var m2 := Took(s, acts + [ClearOverflow], m1, TestOverflowFlag);
    var m3 := Took(s, acts + [ClearOverflow] + [TestOverflowFlag], m2, TestCountZero);
    done, t := StaleFrom(s, acts + [ClearOverflow] + [TestOverflowFlag] + [TestCountZero], m3, i);
  }

  /** The call about to take a block takes it; empty ones are released until the stale one is the oldest. */
  lemma {:induction false} StaleFrom(s: Ring, acts: seq<Action>, m: Ring, i: nat) returns (done: seq<Action>, t: Ring)
    requires Inv(m) && Run(s, acts, m) && NoRequests(acts)
    requires m.reader.Extract? && StaleAt(m, i)
    requires if i == 0 then !(m.dropOnReset && m.reset) else !m.reset && !m.overflow
    ensures Run(s, done, t) && NoRequests(done) && !Fresh(t.results)
    decreases i
  {
    hide Run, Fresh, Indices, Contents, Order, Output, RingIndex.Wrap;
    ExtractFacts(m) by { StepSafe(m, ExtractHandle); }
    var m1 := Took(s, acts, m, ExtractHandle);
    var m2 := Took(s, acts + [ExtractHandle], m1, CopyOut(0));
    done := acts + [ExtractHandle] + [CopyOut(0)];
    if m.queue[0].data != [] {
      t := StaleRemainder(s, done, m2);
      done := done + [StartCall] + [CopyOut(1)];
    } else {
      var m3;
      done, m3 := PastEmpty(s, done, m2, i);
      done, t := StaleFrom(s, done, m3, i - 1);
    }
  }

  /** A block read to its end is released, and the next call gets as far as taking the block behind it. */
  lemma PastEmpty(s: Ring, acts: seq<Action>, m: Ring, i: nat) returns (done: seq<Action>, t: Ring)
    requires Inv(m) && Run(s, acts, m) && NoRequests(acts)
    requires m.reader.Releasing? && !m.reset && !m.overflow && StaleAt(m, i) && i > 0
    ensures Inv(t) && Run(s, done, t) && NoRequests(done)
    ensures t.reader.Extract? && !t.reset && !t.overflow && StaleAt(t, i - 1)
  {
    hide Run, Indices, Contents, Order, RingIndex.Wrap, Samples, Flatten;
    var m1 := Took(s, acts, m, Release);
    assert m1.buffered == 0 && m1.queue[i - 1] == m.queue[i];
    done, t := ToExtract(s, acts + [Release], m1);
  }

  /** The condition is exact, for both drivers: after a run in which no request was made in an exposed state, a request
      can have a stale read among its consequences, with no further exposed request, if and only if the state is
      exposed. */
  lemma WindowExact(n: nat, dropOnReset: bool, slots: seq<Block>, past: seq<Action>, s: Ring)
    requires n > 0 && |slots| == n && Run(Init(n, dropOnReset, slots), past, s)
    requires NoneExposed(Init(n, dropOnReset, slots), past)
    ensures Enabled(s, Request)
    ensures Exposes(s) <==>
              exists more, t :: Run(Apply(s, Request), more, t) && NoneExposed(Apply(s, Request), more) &&
                                !Fresh(t.results)
  {
    hide Run, Fresh, NoneExposed, Exposes, Inv, FreshInv;
    InitInv(n, dropOnReset, slots);
    RunInv(Init(n, dropOnReset, slots), past, s);
    StepSafe(s, Request);
    StepInv(s, Request);
    var s1 := Apply(s, Request);
    if Exposes(s) {
      var more, t := ExposedIsStale(n, dropOnReset, slots, past, s);
      NoRequestsNoneExposed(s1, more);
    } else {
      InitFresh(n, dropOnReset, slots);
      FreshRun(Init(n, dropOnReset, slots), past, s);
      FreshStep(s, Request);
      forall more, t | Run(s1, more, t) && NoneExposed(s1, more) ensures Fresh(t.results) {
        FreshRun(s1, more, t);
        FreshInvFresh(t);
      }
    }
  }

  lemma InitFresh(n: nat, dropOnReset: bool, slots: seq<Block>)
    requires n > 0 && |slots| == n
    ensures FreshInv(Init(n, dropOnReset, slots)) && Stamped(Init(n, dropOnReset, slots))
  {
  }

  lemma FreshInvFresh(s: Ring)
    requires FreshInv(s)
    ensures Fresh(s.results)
  {
  }

  lemma {:induction false} NoRequestsNoneExposed(s: Ring, acts: seq<Action>)
    requires NoRequests(acts)
    ensures NoneExposed(s, acts)
    decreases |acts|
  {
    hide Apply, Enabled, Exposes;
    if acts != [] && Enabled(s, acts[0]) {
      NoRequestsNoneExposed(Apply(s, acts[0]), acts[1..]);
    }
  }

  // ---- Exposed states are reached ----

  /** The window is reached in every ring: a call starts draining, and a callback commits before the flag is cleared. */
  lemma WindowReached(n: nat, dropOnReset: bool, slots: seq<Block>, x: Sample) returns (past: seq<Action>, s: Ring)
    requires n > 0 && |slots| == n
    ensures Run(Init(n, dropOnReset, slots), past, s) && LosesRequest(s)
  {
    hide Run, Inv, RingIndex.Wrap;
    var s0 := Init(n, dropOnReset, slots);
    InitInv(n, dropOnReset, slots);
    var s1 := TookOne(s0, Request);
    var s2 := Took(s0, [Request], s1, StartCall);
    var s3 := Took(s0, [Request] + [StartCall], s2, TestResetFlag);
    s := StoreRun(s3, [x]);
    past := [Request] + [StartCall] + [TestResetFlag] + [CheckFull([x]), Copy, AdvanceTail, Publish];
    RunConcat(s0, [Request] + [StartCall] + [TestResetFlag], s3, [CheckFull([x]), Copy, AdvanceTail, Publish], s);
    assert s.queue[0].data == [x];
  }

  /** So freshness fails in some run of every ring. */
  lemma StaleRun(n: nat, dropOnReset: bool, slots: seq<Block>)
    requires n > 0 && |slots| == n
    ensures exists acts, t :: Run(Init(n, dropOnReset, slots), acts, t) && !Fresh(t.results)
  {
    hide Run, Fresh, LosesRequest;
    var past, s := WindowReached(n, dropOnReset, slots, 0);
    var more, t := ExposedIsStale(n, dropOnReset, slots, past, s);
    RunSnoc(Init(n, dropOnReset, slots), past, s, Request);
    RunConcat(Init(n, dropOnReset, slots), past + [Request], Apply(s, Request), more, t);
  }

  /** A partly read block is reached in every ring: the callback commits two samples and the caller asks for one. */
  lemma RemainderReached(n: nat, dropOnReset: bool, slots: seq<Block>, x: Sample, y: Sample)
    returns (past: seq<Action>, s: Ring)
    requires n > 0 && |slots| == n
    ensures Run(Init(n, dropOnReset, slots), past, s) && s.reader.Outside? && s.buffered == 1
  {
    hide Run, Inv, RingIndex.Wrap;
    var s0 := Init(n, dropOnReset, slots);
    InitInv(n, dropOnReset, slots);
    s := StoreRun(s0, [x, y]);
    past := [CheckFull([x, y]), Copy, AdvanceTail, Publish];
    past, s := ToExtract(s0, past, s);
    ExtractFacts(s) by { StepSafe(s, ExtractHandle); }
    s := Took(s0, past, s, ExtractHandle);
    past := past + [ExtractHandle];
    s := Took(s0, past, s, CopyOut(1));
    past := past + [CopyOut(1)];
  }

  /** So without the drop, as in the Airspy driver, a request made while no call is in progress already goes wrong. */
  lemma StaleRemainderRun(n: nat, slots: seq<Block>)
    requires n > 0 && |slots| == n
    ensures exists past, s, more, t ::
              && Run(Init(n, false, slots), past, s) && s.reader.Outside? && Enabled(s, Request)
              && Run(Apply(s, Request), more, t) && NoRequests(more) && !Fresh(t.results)
  {
    hide Run, Fresh, LosesRequest, AboutToTake, Inv;
    var past, s := RemainderReached(n, false, slots, 0, 1);
    assert Exposes(s) by {
      InitInv(n, false, slots);
      RunInv(Init(n, false, slots), past, s);
      RunConstants(Init(n, false, slots), past, s);
      HeldIsQueued(s);
    }
    var more, t := ExposedIsStale(n, false, slots, past, s);
  }

  lemma HeldIsQueued(s: Ring)
    requires Inv(s) && Held(s)
    ensures s.queue != []
  {
  }
}
