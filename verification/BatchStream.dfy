/** The SDRplay stream object, its methods running without interference: each is a sequence of steps of the
    BatchRing machine, for callbacks of any size. */
module BatchStream {
  import opened RingIndex
  import opened Sequences
  import opened BatchRing

  datatype Outcome = Elements(samples: seq<Sample>, moreFragments: bool) | OverflowCode | TimeoutCode

  ghost predicate ReaderAction(a: Action) {
    a.StartCall? || a.Enter? || a.GiveUp? || a.CopyOut? || a.Release?
  }

  class Stream {
    const n: nat
    const cap: nat
    var slots: seq<seq<Sample>>
    var head: nat
    var tail: nat
    var count: nat
    var overflow: bool
    var reset: bool
    var nElems: nat
    var handle: nat
    var offset: nat
    ghost var model: Ring

    /** The fields are those of s. */
    ghost predicate Shows(s: Ring)
      reads this
    {
      && s.n == n && s.cap == cap && s.slots == slots
      && s.head == head && s.tail == tail && s.count == count
      && s.overflow == overflow && s.reset == reset
      && s.nElems == nElems && s.handle == handle && s.offset == offset
    }

    ghost predicate Linked()
      reads this
    {
      Basic(model) && Shows(model)
    }

    ghost predicate Valid()
      reads this
    {
      Linked() && model.reader.Outside?
    }

    constructor (n: nat, cap: nat)
      requires n > 0
      ensures Valid() && this.n == n && this.cap == cap && model == Init(n, cap)
    {
      this.n := n;
      this.cap := cap;
      this.slots := seq(n, _ => []);
      this.head, this.tail, this.count := 0, 0, 0;
      this.overflow, this.reset := false, false;
      this.nElems, this.handle, this.offset := 0, 0, 0;
      this.model := Init(n, cap);
      new;
      InitBasic(n, cap);
    }

    /** rx_callback; xi and xq are the two arrays of the vendor library. */
    method RxCallback(xi: seq<int>, xq: seq<int>)
      requires Valid() && |xi| == |xq|
      modifies this`slots, this`tail, this`count, this`overflow, this`model
      ensures Valid()
      ensures Run(old(model), [Callback(seq(|xi|, k requires 0 <= k < |xi| => Sample(xi[k], xq[k])))], model)
    {
      hide Basic, Run, Wrap;
      ghost var block := seq(|xi|, k requires 0 <= k < |xi| => Sample(xi[k], xq[k]));
      EmptyRun(model);
      ghost var s1 := Took(model, [], model, Callback(block));
      assert [] + [Callback(block)] == [Callback(block)];
      model := s1;
      if count == n {
        overflow := true;
        return;
      }
      if |slots[tail]| + |xi| >= cap {
        WrapIsMod(tail + 1, n);
        tail := (tail + 1) % n;
        count := count + 1;
        if count == n && |xi| > cap - |slots[tail]| {
          overflow := true;
          return;
        }
      }
      var buff := slots[tail];
      for k := 0 to |xi|
        invariant buff == slots[tail] + block[..k]
      {
        buff := buff + [Sample(xi[k], xq[k])];
        assert block[..k + 1] == block[..k] + [block[k]];
      }
      assert block[..|xi|] == block;
      slots := slots[tail := buff];
    }

    /** activateStream, also while a block is held. */
    method ActivateStream()
      requires Valid()
      modifies this`reset, this`nElems, this`model
      ensures Valid() && Run(old(model), [Activate], model)
    {
      hide Basic, Run, Wrap;
      EmptyRun(model);
      ghost var s1 := Took(model, [], model, Activate);
      assert [] + [Activate] == [Activate];
      reset := true;
      nElems := 0;
      model := s1;
    }

    /** releaseReadBuffer. */
    method ReleaseReadBuffer(ghost start: Ring, ghost acts: seq<Action>)
      requires Linked() && Run(start, acts, model) && model.reader.Releasing?
      modifies this`slots, this`count, this`model
      ensures Valid() && Run(start, acts + [Release], model) && model.results == old(model).results
    {
      hide Basic, Run, Wrap;
      ghost var s1 := Took(start, acts, model, Release);
      slots := slots[handle := []];
      count := count - 1;
      model := s1;
    }

    /** acquireReadBuffer, the wait timing out when nothing is there. */
    method AcquireReadBuffer(ghost start: Ring, ghost acts: seq<Action>) returns (r: Outcome, ghost done: seq<Action>)
      requires Linked() && Run(start, acts, model) && model.reader.TestFlags?
      modifies this
      ensures Linked() && Run(start, done, model)
      ensures done == acts + [Enter] + (if r.TimeoutCode? then [GiveUp] else [])
      ensures r.OverflowCode? <==> !old(reset) && old(overflow)
      ensures r.TimeoutCode? <==> old(reset) || (!old(overflow) && old(count) == 0)
      ensures r.OverflowCode? ==> model.reader.Outside? && model.results == old(model).results + [Overflow]
      ensures r.TimeoutCode? ==> model.reader.Outside? && model.results == old(model).results + [Timeout]
      ensures r.Elements? ==> model.reader.Copying? && model.results == old(model).results
    {
      hide Basic, Run, Wrap, Apply, Take;
      ghost var s1 := Took(start, acts, model, Enter);
      AcquireIs(model);
      done := acts + [Enter];
      ghost var s := model;
      model := s1;
      if reset || overflow {
        DrainSlots();
        if reset {
          reset := false;
          s := Drain(s).(reset := false);
        } else {
          assert done + [] == done;
          return OverflowCode, done;
        }
      }
      r, done := TakeOldest(s, start, done);
    }

    /** The drain of acquireReadBuffer. */
    method DrainSlots()
      modifies this`head, this`tail, this`count, this`slots, this`overflow
      ensures head == tail == count == 0 && !overflow && slots == seq(n, _ => [])
    {
      tail, head, count := 0, 0, 0;
      slots := seq(n, _ => []);
      overflow := false;
    }

    /** The end of acquireReadBuffer: the slot at the head becomes the current buffer, or the wait times out. */
    method TakeOldest(ghost s: Ring, ghost start: Ring, ghost acts: seq<Action>)
      returns (r: Outcome, ghost done: seq<Action>)
      requires Shows(s) && s.n > 0 && |s.slots| == s.n && s.head < s.n
      requires model == Take(s) && Basic(model) && Run(start, acts, model)
      modifies this`head, this`handle, this`nElems, this`offset, this`model
      ensures Linked() && Run(start, done, model)
      ensures done == acts + (if r.TimeoutCode? then [GiveUp] else [])
      ensures if s.count == 0 then r.TimeoutCode? else r.Elements?
      ensures r.TimeoutCode? ==> model.reader.Outside? && model.results == s.results + [Timeout]
      ensures r.Elements? ==> model.reader.Copying? && model.results == s.results
    {
      hide Basic, Run, Wrap;
      if count == 0 {
        model := Took(start, acts, model, GiveUp);
        done := acts + [GiveUp];
        return TimeoutCode, done;
      }
      handle := head;
      WrapIsMod(head + 1, n);
      head := (head + 1) % n;
      nElems, offset := |slots[handle]|, 0;
      r, done := Elements([], false), acts;
    }

    /** readStream. */
    method ReadStream(numElems: nat) returns (r: Outcome, ghost done: seq<Action>)
      requires Valid()
      modifies this
      ensures Valid() && Run(old(model), done, model)
      ensures forall i :: 0 <= i < |done| ==> ReaderAction(done[i])
      ensures |model.results| == |old(model).results| + 1 && model.results[..|old(model).results|] == old(model).results
      ensures match r
              case OverflowCode => model.results[|old(model).results|] == Overflow
              case TimeoutCode => model.results[|old(model).results|] == Timeout
              case Elements(samples, more) =>
                && model.results[|old(model).results|] == Data(samples, numElems) && more == (nElems != 0)
                && |samples| <= numElems && (|samples| < numElems ==> nElems == 0)
    {
      hide Basic, Run, Wrap, Push, Drain, Take, Safe;
      ghost var s0 := model;
      EmptyRun(s0);
      model := Took(s0, [], s0, StartCall);
      done := [] + [StartCall];
      if nElems == 0 {
        r, done := AcquireReadBuffer(s0, done);
        if !r.Elements? {
          return;
        }
      }
      r, done := TakeFragment(numElems, s0, done);
    }

    /** The copy into the caller's buffer, the bump of the fragment state, and the release of a finished block. */
    method TakeFragment(numElems: nat, ghost start: Ring, ghost acts: seq<Action>)
      returns (r: Outcome, ghost done: seq<Action>)
      requires Linked() && Run(start, acts, model) && model.reader.Copying?
      modifies this
      ensures Valid() && Run(start, done, model)
      ensures done == acts + [CopyOut(numElems)] + (if old(nElems) <= numElems then [Release] else [])
      ensures r.Elements? && model.results == old(model).results + [Data(r.samples, numElems)]
      ensures |r.samples| <= numElems && (|r.samples| < numElems ==> nElems == 0)
      ensures r.moreFragments == (nElems != 0)
    {
      hide Basic, Run, Wrap, Push, Drain, Take;
      ghost var s1 := Took(start, acts, model, CopyOut(numElems));
      done := acts + [CopyOut(numElems)];
      var k := Min(nElems, numElems);
      r := Elements(slots[handle][offset..offset + k], nElems - k != 0);
      nElems := nElems - k;
      offset := offset + k;
      model := s1;
      if nElems == 0 {
        ReleaseReadBuffer(start, done);
        done := done + [Release];
      }
    }
  }

  lemma AcquireIs(s: Ring)
    requires Enabled(s, Enter)
    ensures Apply(s, Enter) == Acquire(s)
  {
  }
}
