/** The receive stream object of the Airspy, RTL-SDR and sound-card drivers, its methods running without interference.
    Each method does to the object's fields what a sequence of steps of the BlockRing machine does, so the
    theorems about every interleaving of those steps speak about this code. */
module RingStream {
  import opened RingIndex
  import opened Sequences
  import opened BlockRing

  datatype Outcome = Elements(samples: seq<Sample>, moreFragments: bool) | OverflowCode | TimeoutCode

  ghost predicate ReaderAction(a: Action) {
    a.StartCall? || a.DropRemainder? || a.TestResetFlag? || a.FinishReset? || a.ClearOverflow? || a.TestOverflowFlag? ||
    a.FinishOverflow? || a.TestCountZero? || a.GiveUp? || a.ExtractHandle? || a.CopyOut? || a.Release?
  }

  class Stream {
    const n: nat
    const dropOnReset: bool
    var buffs: seq<seq<Sample>>
    var head: nat
    var tail: nat
    var count: nat
    var overflow: bool
    var reset: bool
    var buffered: nat
    var handle: nat
    var offset: nat
    var rateChanged: bool  // sampleRateChanged of the Airspy and sound-card drivers
    ghost var model: Ring

    /** The fields are those of the model. */
    ghost predicate Linked()
      reads this
    {
      && Inv(model)
      && model.n == n && model.dropOnReset == dropOnReset
      && |buffs| == n && (forall i :: 0 <= i < n ==> buffs[i] == model.slots[i].data)
      && model.head == head && model.tail == tail && model.count == count
      && model.overflow == overflow && model.reset == reset
      && model.buffered == buffered && model.handle == handle && model.offset == offset
    }

    /** Linked, and neither thread is inside a method. */
    ghost predicate Valid()
      reads this
    {
      Linked() && model.producer.Idle? && model.reader.Outside?
    }

    /** setupStream. */
    constructor (n: nat, dropOnReset: bool)
      requires n > 0
      ensures Valid() && this.n == n && this.dropOnReset == dropOnReset
      ensures exists slots :: |slots| == n && model == Init(n, dropOnReset, slots)
    {
      this.n := n;
      this.dropOnReset := dropOnReset;
      this.buffs := seq(n, _ => []);
      this.head, this.tail, this.count := 0, 0, 0;
      this.overflow, this.reset := false, false;
      this.buffered, this.handle, this.offset := 0, 0, 0;
      this.rateChanged := false;
      ghost var slots := seq(n, _ => Block(0, []));
      this.model := Init(n, dropOnReset, slots);
      new;
      InitInv(n, dropOnReset, slots);
      assert |slots| == n && model == Init(n, dropOnReset, slots);
    }

    /** rx_callback. */
    method RxCallback(data: seq<Sample>)
      requires Valid()
      modifies this
      ensures Valid() && rateChanged == old(rateChanged)
      ensures Run(old(model), if rateChanged then [Refuse(data)]
                              else if old(count) == n then [CheckFull(data), RaiseOverflow]
                              else [CheckFull(data), Copy, AdvanceTail, Publish], model)
    {
      hide Inv, Run, Wrap, Apply;
      ghost var s0 := model;
      InRange(s0);
      if rateChanged {
        model := TookOne(s0, Refuse(data));
        ApplyIs(s0, Refuse(data));
        return;
      }
      if count == n {
        ghost var s1 := TookOne(s0, CheckFull(data));
        ApplyIs(s0, CheckFull(data));
        model := Took(s0, [CheckFull(data)], s1, RaiseOverflow);
        ApplyIs(s1, RaiseOverflow);
        assert [CheckFull(data)] + [RaiseOverflow] == [CheckFull(data), RaiseOverflow];
        overflow := true;
        return;
      }
      StoreBlock(data);
    }

    /** The rest of rx_callback, with room in the ring. */
    method StoreBlock(data: seq<Sample>)
      requires Valid() && count < n
      modifies this`buffs, this`tail, this`count, this`model
      ensures Valid() && Run(old(model), [CheckFull(data), Copy, AdvanceTail, Publish], model)
    {
      hide Inv, Run, Wrap, Apply;
      InRange(model);
      model := StoreRun(model, data);
      WrapIsMod(tail + 1, n);
      buffs := buffs[tail := data];
      tail := (tail + 1) % n;
      count := count + 1;
    }

    /** setSampleRate (newRate) and the other settings that ask for a drain. */
    method RequestReset(newRate: bool)
      requires Valid()
      modifies this
      ensures Valid() && Run(old(model), [Request], model)
      ensures rateChanged == (old(rateChanged) || newRate)
    {
      hide Inv, Run, Wrap, Apply;
      rateChanged := rateChanged || newRate;
      ghost var s0 := model;
      model := TookOne(s0, Request);
      ApplyIs(s0, Request);
      reset := true;
    }

    /** releaseReadBuffer. */
    method ReleaseReadBuffer(ghost start: Ring, ghost acts: seq<Action>) returns (ghost done: seq<Action>)
      requires Linked() && Run(start, acts, model) && (model.reader.Releasing? || model.reader.Dropping?)
      modifies this`count, this`model
      ensures Linked() && Run(start, done, model) && model.producer == old(model).producer
      ensures done == acts + [if old(model).reader.Releasing? then Release else DropRemainder]
      ensures old(model).reader.Releasing? ==> model.reader.Outside?
      ensures old(model).reader.Dropping? ==> model.reader.TestReset?
      ensures model.reset == old(model).reset && model.results == old(model).results
    {
      hide Inv, Run, Wrap, Apply;
      ghost var a := if model.reader.Releasing? then Release else DropRemainder;
      ghost var s1 := Took(start, acts, model, a);
      ApplyIs(model, a);
      count := count - 1;
      model := s1;
      done := acts + [a];
    }

    /** acquireReadBuffer, the wait timing out when nothing is there. */
    method AcquireReadBuffer(ghost start: Ring, ghost acts: seq<Action>)
      returns (r: Outcome, ghost done: seq<Action>)
      requires Linked() && Run(start, acts, model) && model.reader.TestReset?
      requires forall i :: 0 <= i < |acts| ==> ReaderAction(acts[i])
      modifies this`head, this`count, this`overflow, this`reset, this`buffered, this`handle, this`offset, this`model
      ensures Linked() && Run(start, done, model) && model.producer == old(model).producer
      ensures forall i :: 0 <= i < |done| ==> ReaderAction(done[i])
      ensures r.OverflowCode? ==> model.reader.Outside? && model.results == old(model).results + [Overflow]
      ensures r.TimeoutCode? ==> model.reader.Outside? && model.results == old(model).results + [Timeout]
      ensures r.Elements? ==> model.reader.Copying? && model.results == old(model).results
      ensures r.OverflowCode? <==> !old(reset) && old(overflow)
      ensures r.TimeoutCode? <==> old(reset) || (!old(overflow) && old(count) == 0)
    {
      hide Inv, Run, Wrap, Apply, Safe;
      done := TestReset(start, acts);
      var over: bool;
      over, done := TestOverflow(start, done);
      if over {
        return OverflowCode, done;
      }
      ghost var s5 := Took(start, done, model, TestCountZero);
      ApplyIs(model, TestCountZero);
      done := done + [TestCountZero];
      if count == 0 {
        model := Took(start, done, s5, GiveUp);
        ApplyIs(s5, GiveUp);
        done := done + [GiveUp];
        return TimeoutCode, done;
      }
      model := s5;
      done := ExtractBuffer(start, done);
      r := Elements([], false);
    }

    /** acquireReadBuffer, first test: a reset drains all buffers. */
    method TestReset(ghost start: Ring, ghost acts: seq<Action>) returns (ghost done: seq<Action>)
      requires Linked() && Run(start, acts, model) && model.reader.TestReset?
      modifies this`head, this`count, this`overflow, this`reset, this`model
      ensures Linked() && Run(start, done, model) && model.producer == old(model).producer
      ensures done == acts + [TestResetFlag] + (if old(reset) then [FinishReset, ClearOverflow] else [])
      ensures model.reader.TestOverflow? && model.results == old(model).results
      ensures !reset && overflow == (!old(reset) && old(overflow)) && count == (if old(reset) then 0 else old(count))
    {
      hide Inv, Run, Wrap, Apply, Safe;
      ghost var s1 := Took(start, acts, model, TestResetFlag);
      ApplyIs(model, TestResetFlag);
      done := acts + [TestResetFlag];
      model := s1;
      if reset {
        model := DrainedRun(start, done, s1);
        WrapIsMod(head + count, n);
        head, count := (head + count) % n, 0;
        reset, overflow := false, false;
        done := done + [FinishReset, ClearOverflow];
      } else {
        assert done + [] == done;
      }
    }

    /** acquireReadBuffer, second test: an overflow drains all buffers and is returned. */
    method TestOverflow(ghost start: Ring, ghost acts: seq<Action>) returns (over: bool, ghost done: seq<Action>)
      requires Linked() && Run(start, acts, model) && model.reader.TestOverflow?
      modifies this`head, this`count, this`overflow, this`model
      ensures Linked() && Run(start, done, model) && model.producer == old(model).producer
      ensures done == acts + [TestOverflowFlag] + (if over then [FinishOverflow] else [])
      ensures over == old(overflow) && !overflow && count == if over then 0 else old(count)
      ensures if over then model.reader.Outside? && model.results == old(model).results + [Overflow]
              else model.reader.TestCount? && model.results == old(model).results
    {
      hide Inv, Run, Wrap, Apply, Safe;
      ghost var s1 := Took(start, acts, model, TestOverflowFlag);
      ApplyIs(model, TestOverflowFlag);
      done := acts + [TestOverflowFlag];
      model := s1;
      over := overflow;
      if over {
        ghost var s2 := Took(start, done, s1, FinishOverflow);
        ApplyIs(s1, FinishOverflow);
        done := done + [FinishOverflow];
        WrapIsMod(head + count, n);
        head, count := (head + count) % n, 0;
        overflow := false;
        model := s2;
      } else {
        assert done + [] == done;
      }
    }

    /** The end of acquireReadBuffer: take the oldest block's slot as the current buffer. */
    method ExtractBuffer(ghost start: Ring, ghost acts: seq<Action>) returns (ghost done: seq<Action>)
      requires Linked() && Run(start, acts, model) && model.reader.Extract?
      modifies this`head, this`count, this`overflow, this`reset, this`buffered, this`handle, this`offset, this`model
      ensures Linked() && Run(start, done, model) && model.producer == old(model).producer
      ensures done == acts + [ExtractHandle]
      ensures model.reader.Copying? && model.results == old(model).results
    {
      hide Inv, Run, Wrap, Apply;
      ghost var s1 := Took(start, acts, model, ExtractHandle);
      ApplyIs(model, ExtractHandle);
      done := acts + [ExtractHandle];
      WrapIsMod(head + 1, n);
      InRange(model);
      handle := head;
      head := (head + 1) % n;
      offset, buffered := 0, |buffs[handle]|;
      model := s1;
    }

    /** readStream. */
    method ReadStream(numElems: nat) returns (r: Outcome, ghost done: seq<Action>)
      requires Valid()
      modifies this
      ensures Valid() && Run(old(model), done, model) && !rateChanged
      ensures forall i :: 0 <= i < |done| ==> ReaderAction(done[i])
      ensures |model.results| == |old(model).results| + 1 && model.results[..|old(model).results|] == old(model).results
      ensures match r
              case OverflowCode => model.results[|old(model).results|] == Overflow
              case TimeoutCode => model.results[|old(model).results|] == Timeout
              case Elements(samples, more) =>
                && model.results[|old(model).results|].Data?
                && model.results[|old(model).results|].samples == samples
                && model.results[|old(model).results|].asked == numElems
                && |samples| <= numElems && (|samples| < numElems ==> buffered == 0)
                && more == (buffered != 0)
    {
      hide Inv, Run, Wrap, Apply, Safe;
      ghost var s0 := model;
      EmptyRun(s0);
      ghost var s1 := Took(s0, [], s0, StartCall);
      ApplyIs(s0, StartCall);
      done := [] + [StartCall];
      model := s1;
      rateChanged := false;
      if dropOnReset && reset && buffered != 0 {
        buffered := 0;
        done := ReleaseReadBuffer(s0, done);
      }
      if buffered == 0 {
        r, done := AcquireReadBuffer(s0, done);
        if !r.Elements? {
          return;
        }
      }
      r, done := TakeFragment(numElems, s0, done);
    }

    /** The copy into the caller's buffer, the bump of the fragment state, and the release of a finished block. */
    method TakeFragment(numElems: nat, ghost start: Ring, ghost acts: seq<Action>)
      returns (r: Outcome, ghost done: seq<Action>)
      requires Linked() && Run(start, acts, model) && model.reader.Copying?
      requires forall i :: 0 <= i < |acts| ==> ReaderAction(acts[i])
      modifies this`head, this`count, this`overflow, this`reset, this`buffered, this`handle, this`offset, this`model
      ensures Linked() && Run(start, done, model) && model.producer == old(model).producer
      ensures model.reader.Outside?
      ensures forall i :: 0 <= i < |done| ==> ReaderAction(done[i])
      ensures done == acts + [CopyOut(numElems)] + (if old(buffered) <= numElems then [Release] else [])
      ensures r.Elements? && r.moreFragments == (buffered != 0)
      ensures |model.results| == |old(model).results| + 1 && model.results[..|old(model).results|] == old(model).results
      ensures model.results[|old(model).results|].Data? && model.results[|old(model).results|].samples == r.samples
      ensures model.results[|old(model).results|].asked == numElems
      ensures |r.samples| <= numElems && (|r.samples| < numElems ==> buffered == 0)
    {
      hide Inv, Run, Wrap, Apply;
      ghost var s1 := Took(start, acts, model, CopyOut(numElems));
      ApplyIs(model, CopyOut(numElems));
      done := acts + [CopyOut(numElems)];
      var k := Min(buffered, numElems);
      r := Elements(buffs[handle][offset..offset + k], buffered - k != 0);
      buffered, offset := buffered - k, offset + k;
      model := s1;
      if buffered == 0 {
        done := ReleaseReadBuffer(start, done);
      }
    }
  }

  /** The end of a reset drain. */
  lemma DrainedRun(start: Ring, acts: seq<Action>, s: Ring) returns (t: Ring)
    requires Inv(s) && Run(start, acts, s) && s.reader.ResetTaken?
    ensures Inv(t) && Run(start, acts + [FinishReset, ClearOverflow], t) && s.n > 0
    ensures t == s.(head := Wrap(s.head + s.reader.drained, s.n), reset := false, overflow := false,
                    reader := TestOverflow)
  {
    hide Inv, Run, Wrap, Apply;
    var m := Took(start, acts, s, FinishReset);
    ApplyIs(s, FinishReset);
    t := Took(start, acts + [FinishReset], m, ClearOverflow);
    ApplyIs(m, ClearOverflow);
    assert acts + [FinishReset] + [ClearOverflow] == acts + [FinishReset, ClearOverflow];
  }
}
