/** The HackRF transmit stream object, its methods running without interference: conversion loops included, each
    method is a sequence of steps of the HackRfTransmit machine. */
module HackRfStream {
  import opened RingIndex
  import opened Sequences
  import opened HackRfTransmit

  datatype Format = Int8 | Int16 | Float32 | Float64

  /** One I/Q pair of the caller. The integer formats hold whole numbers. */
  datatype Pair = Pair(i: real, q: real)

  datatype Result = Wrote(count: nat) | Timeout | StreamError

  /** A C cast of a floating value to an integer type. */
  function Truncate(x: real): int {
    if x >= 0.0 then x.Floor else -(-x).Floor
  }

  function Convert(format: Format, x: real): int {
    match format
    case Int8 => x.Floor
    case Int16 => (x / 256.0).Floor
    case Float32 => Truncate(x * 127.0)
    case Float64 => Truncate(x * 127.0)
  }

  /** What a conversion means: whole numbers stay as they are, 16-bit ones lose their low byte, rounding down, and
      floating ones are scaled by 127 and cut toward zero. */
  predicate Converts(format: Format, x: real, y: int) {
    match format
    case Int8 => x == x.Floor as real ==> y as real == x
    case Int16 => 256.0 * y as real <= x < 256.0 * (y + 1) as real
    case _ =>
      && (x >= 0.0 ==> 127.0 * x - 1.0 < y as real <= 127.0 * x && y >= 0)
      && (x <= 0.0 ==> 127.0 * x <= y as real < 127.0 * x + 1.0 && y <= 0)
  }

  /** Both components of a pair, each from its own. */
  predicate ConvertsPair(format: Format, p: Pair, y: Sample) {
    Converts(format, p.i, y.i) && Converts(format, p.q, y.q)
  }

  lemma ConvertMeans(format: Format, x: real)
    ensures Converts(format, x, Convert(format, x))
  {
  }

  predicate ConvertsAll(format: Format, src: seq<Pair>, out: seq<Sample>) {
    |out| == |src| && forall j :: 0 <= j < |src| ==> ConvertsPair(format, src[j], out[j])
  }

  /** Every sample of a converted buffer is the conversion of its own pair. */
  lemma ConvertAllMeans(format: Format, src: seq<Pair>)
    ensures ConvertsAll(format, src, ConvertAll(format, src))
  {
    hide Converts, Convert;
    forall j | 0 <= j < |src| ensures ConvertsPair(format, src[j], ConvertAll(format, src)[j]) {
      ConvertMeans(format, src[j].i);
      ConvertMeans(format, src[j].q);
    }
  }

  function ConvertPair(format: Format, p: Pair): Sample {
    Sample(Convert(format, p.i), Convert(format, p.q))
  }

  function ConvertAll(format: Format, src: seq<Pair>): (out: seq<Sample>)
    ensures |out| == |src|
  {
    seq(|src|, j requires 0 <= j < |src| => ConvertPair(format, src[j]))
  }

  lemma ConvertSlice(format: Format, src: seq<Pair>, from: nat, to: nat)
    requires from <= to <= |src|
    ensures ConvertAll(format, src[from..to]) == ConvertAll(format, src)[from..to]
  {
  }

  /** writebuf: converts len pairs from src[offset..] into dst[at..]. */
  method WriteBuf(src: seq<Pair>, dst: seq<Sample>, at: nat, len: nat, format: Format, offset: nat)
    returns (r: seq<Sample>)
    requires offset + len <= |src| && at + len <= |dst|
    ensures r == Overwrite(dst, at, ConvertAll(format, src[offset..offset + len]))
    ensures |r| == |dst| && r[..at] == dst[..at] && r[at + len..] == dst[at + len..]
    ensures ConvertsAll(format, src[offset..offset + len], r[at..at + len])
  {
    hide ConvertsAll, Overwrite, ConvertAll, Convert;
    r := dst;
    OverwriteNothing(dst, at);
    assert src[offset..offset] == [];
    assert ConvertAll(format, []) == [];
    for j := 0 to len
      invariant |r| == |dst| && r == Overwrite(dst, at, ConvertAll(format, src[offset..offset + j]))
    {
      OverwriteSnoc(dst, at, src[offset..offset + j], src[offset + j], format);
      r := r[at + j := Sample(Convert(format, src[offset + j].i), Convert(format, src[offset + j].q))];
      assert src[offset..offset + (j + 1)] == src[offset..offset + j] + [src[offset + j]];
    }
    WriteBufMeans(src[offset..offset + len], dst, at, format);
  }

  lemma OverwriteNothing(dst: seq<Sample>, at: nat)
    requires at <= |dst|
    ensures Overwrite(dst, at, []) == dst
  {
  }

  /** One more sample. */
  lemma OverwriteSnoc(dst: seq<Sample>, at: nat, src: seq<Pair>, p: Pair, format: Format)
    requires at + |src| < |dst|
    ensures |Overwrite(dst, at, ConvertAll(format, src))| == |dst|
    ensures |Overwrite(dst, at, ConvertAll(format, src + [p]))| == |dst|
    ensures Overwrite(dst, at, ConvertAll(format, src))[at + |src| := ConvertPair(format, p)] ==
            Overwrite(dst, at, ConvertAll(format, src + [p]))
  {
    hide Convert;
    assert ConvertAll(format, src + [p]) == ConvertAll(format, src) + [ConvertPair(format, p)];
  }

  lemma WriteBufMeans(src: seq<Pair>, dst: seq<Sample>, at: nat, format: Format)
    requires at + |src| <= |dst|
    ensures var r := Overwrite(dst, at, ConvertAll(format, src));
            && |r| == |dst| && r[..at] == dst[..at] && r[at + |src|..] == dst[at + |src|..]
            && ConvertsAll(format, src, r[at..at + |src|])
  {
    hide ConvertsAll, ConvertAll;
    ConvertAllMeans(format, src);
    assert Overwrite(dst, at, ConvertAll(format, src))[at..at + |src|] == ConvertAll(format, src);
  }

  /** The steps of one writeStream call, with no callback among them. */
  ghost predicate OfCall(acts: seq<Action>) {
    acts != [] && acts[0].Begin? && forall i :: 0 < i < |acts| ==> !acts[i].Begin? && !acts[i].Callback?
  }

  /** What writeStream returns for a chunk of elems samples, of which `room` fit the held slot, if one is held; full
      says that no further slot is free. */
  function Outcome(elems: nat, room: nat, held: bool, activated: bool, full: bool): Result {
    if held && room == elems then Wrote(elems)
    else if !activated then StreamError
    else if !full then Wrote(elems)
    else if room > 0 then Wrote(room)
    else Timeout
  }

  /** What was reported of a call is the conversion of the first of its samples. */
  lemma Reports(format: Format, src: seq<Pair>, before: seq<Sample>, after: seq<Sample>, count: nat)
    requires count <= |src| && after == before + ConvertAll(format, src)[..count]
    ensures ConvertsAll(format, src[..count], after[|before|..])
  {
    hide ConvertAll, ConvertsAll;
    ConvertSlice(format, src, 0, count);
    ConvertAllMeans(format, src[..count]);
    assert src[0..count] == src[..count];
    assert after[|before|..] == ConvertAll(format, src)[0..count];
  }

  class Stream {
    const n: nat
    const m: nat
    const format: Format
    var slots: seq<seq<Sample>>
    var head: nat
    var tail: nat
    var count: nat
    var underflow: bool
    var handle: int
    var remSamps: nat
    var remOffset: nat
    ghost var model: Tx

    ghost predicate Linked()
      reads this
    {
      && Inv(model)
      && model.n == n && model.m == m && model.slots == slots
      && model.head == head && model.tail == tail && model.count == count && model.underflow == underflow
      && model.handle == handle && model.remSamps == remSamps && model.remOffset == remOffset
    }

    ghost predicate Valid()
      reads this
    {
      Linked() && model.writer.Outside?
    }

    constructor (n: nat, m: nat, format: Format)
      requires n > 0 && m > 0
      ensures Valid() && this.n == n && this.m == m && this.format == format
      ensures model == Init(n, m, seq(n, _ => Zeros(m)))
    {
      this.n := n;
      this.m := m;
      this.format := format;
      this.slots := seq(n, _ => Zeros(m));
      this.head, this.tail, this.count, this.underflow := 0, 0, 0, false;
      this.handle, this.remSamps, this.remOffset := -1, 0, 0;
      this.model := Init(n, m, seq(n, _ => Zeros(m)));
      new;
      InitInv(n, m, seq(n, _ => Zeros(m)));
    }

    /** hackrf_tx_callback with a transfer of one slot. */
    method TxCallback() returns (block: seq<Sample>)
      requires Valid()
      modifies this
      ensures Valid() && Run(old(model), [Callback], model)
      ensures |model.sent| == |old(model).sent| + 1 && block == model.sent[|old(model).sent|].block
      ensures block == if old(model).queue == [] then Zeros(m) else old(model).queue[0]
      ensures underflow == (old(underflow) || old(model).queue == [])
    {
      hide Inv, Run, Wrap;
      CallbackServes(model);
      EmptyRun(model);
      ghost var s1 := Took(model, [], model, Callback);
      assert [] + [Callback] == [Callback];
      if count == 0 {
        block := Zeros(m);
        underflow := true;
      } else {
        block := slots[tail];
        WrapIsMod(tail + 1, n);
        tail := (tail + 1) % n;
        count := count - 1;
      }
      model := s1;
    }

    /** releaseWriteBuffer, and the two assignments that follow it at both places it is called. */
    method ReleaseWriteBuffer(ghost start: Tx, ghost acts: seq<Action>) returns (ghost done: seq<Action>)
      requires Linked() && Run(start, acts, model) && (model.writer.FreeFirst? || model.writer.FreeLast?)
      modifies this`count, this`handle, this`remOffset, this`model
      ensures Linked() && Run(start, done, model)
      ensures done == acts + [if old(model).writer.FreeFirst? then ReleaseFirst else ReleaseLast]
      ensures count == old(count) + 1
      ensures old(model).writer.FreeLast? ==>
                model.writer.Outside? && model.reported == old(model).reported + old(model).writer.chunk
      ensures old(model).writer.FreeFirst? ==> var w := old(model).writer;
                if w.k == |w.chunk| then model.writer.Outside? && model.reported == old(model).reported + w.chunk
                else model.writer == HackRfTransmit.Acquire(w.chunk, w.k) && model.reported == old(model).reported
    {
      hide Inv, Run, Wrap, Overwrite;
      ghost var a := if model.writer.FreeFirst? then ReleaseFirst else ReleaseLast;
      ghost var s1 := Took(start, acts, model, a);
      done := acts + [a];
      count := count + 1;
      handle := -1;
      remOffset := 0;
      model := s1;
    }

    /** acquireWriteBuffer; activated is the answer of the device when it has to be switched to transmit. */
    method AcquireWriteBuffer(activated: bool, ghost start: Tx, ghost acts: seq<Action>)
      returns (r: Result, ghost done: seq<Action>)
      requires Linked() && Run(start, acts, model) && model.writer.Acquire?
      modifies this`head, this`handle, this`remSamps, this`model
      ensures Linked() && Run(start, done, model)
      ensures done == acts + [match r
                              case StreamError => AcquireError
                              case Timeout => AcquireTimeout
                              case Wrote(_) => AcquireSlot]
      ensures r.StreamError? <==> !activated
      ensures r.Timeout? <==> activated && count == n
      ensures r.StreamError? ==> model.writer.Outside? && model.reported == old(model).reported
      ensures var w := old(model).writer;
              && (r.Timeout? ==>
                    w.k <= |w.chunk| && model.writer.Outside? && model.reported == old(model).reported + w.chunk[..w.k])
              && (r.Wrote? ==> model.writer == Fill(w.chunk, w.k) && model.reported == old(model).reported)
    {
      hide Inv, Run, Wrap, Overwrite;
      if !activated {
        model := Took(start, acts, model, AcquireError);
        return StreamError, acts + [AcquireError];
      }
      if count == n {
        model := Took(start, acts, model, AcquireTimeout);
        return Timeout, acts + [AcquireTimeout];
      }
      ghost var s1 := Took(start, acts, model, AcquireSlot);
      done := acts + [AcquireSlot];
      WrapIsMod(head + 1, n);
      handle := head;
      head := (head + 1) % n;
      remSamps := m;
      model := s1;
      r := Wrote(m);
    }

    /** writeStream. */
    method WriteStream(src: seq<Pair>, activated: bool) returns (r: Result, ghost done: seq<Action>)
      requires Valid()
      modifies this
      ensures Valid() && Run(old(model), done, model)
      ensures OfCall(done) && done[0] == Begin(ConvertAll(format, src))
      ensures r.Wrote? ==> r.count <= Min(|src|, m)
                           && model.reported == old(model).reported + ConvertAll(format, src)[..r.count]
                           && ConvertsAll(format, src[..r.count], model.reported[|old(model).reported|..])
      ensures !r.Wrote? ==> model.reported == old(model).reported
      ensures r == Outcome(Min(|src|, m), if old(handle) < 0 then 0 else Min(old(remSamps), Min(|src|, m)),
                           old(handle) >= 0, activated, old(count) + (if old(handle) < 0 then 0 else 1) == n)
    {
      hide Inv, Run, Wrap, Overwrite, ConvertAll;
      var elems := Min(|src|, m);
      ghost var data := ConvertAll(format, src);
      ghost var chunk := data[..elems];
      ghost var s0 := model;
      EmptyRun(s0);
      ghost var s1 := Took(s0, [], s0, Begin(data));
      done := [] + [Begin(data)];
      var avail := 0;
      if handle >= 0 {
        var k := Min(remSamps, elems);
        if k < elems {
          avail := k;
        }
        ConvertSlice(format, src, 0, k);
        assert chunk[..k] == data[0..k];
        var filled := WriteBuf(src, slots[handle], remOffset, k, format, 0);
        slots := slots[handle := filled];
        remSamps := remSamps - k;
        remOffset := remOffset + k;
        model := s1;
        if remSamps == 0 {
          ghost var more := ReleaseWriteBuffer(s0, done);
          done := more;
        }
        if k == elems {
          Reports(format, src, s0.reported, model.reported, elems);
          return Wrote(elems), done;
        }
      } else {
        model := s1;
      }
      r, done := FinishWrite(src, elems, avail, activated, s0, done);
      Reports(format, src, s0.reported, model.reported, if r.Wrote? then r.count else 0);
    }

    /** The second half of writeStream: acquire a slot and store what is left of the chunk. */
    method FinishWrite(src: seq<Pair>, elems: nat, avail: nat, activated: bool,
                       ghost start: Tx, ghost acts: seq<Action>)
      returns (r: Result, ghost done: seq<Action>)
      requires elems == Min(|src|, m) && avail <= elems
      requires Linked() && Run(start, acts, model) && OfCall(acts)
      requires model.writer == HackRfTransmit.Acquire(ConvertAll(format, src)[..elems], avail)
      modifies this
      ensures Valid() && Run(start, done, model)
      ensures OfCall(done) && done[0] == acts[0]
      ensures r == if !activated then StreamError
                   else if old(count) != n then Wrote(elems)
                   else if avail > 0 then Wrote(avail) else Timeout
      ensures r.Wrote? ==> r.count <= elems
                           && model.reported == old(model).reported + ConvertAll(format, src)[..r.count]
      ensures !r.Wrote? ==> model.reported == old(model).reported
    {
      hide Inv, Run, Wrap, Overwrite, ConvertAll;
      ghost var data := ConvertAll(format, src);
      ghost var chunk := data[..elems];
      r, done := AcquireWriteBuffer(activated, start, acts);
      if r.StreamError? {
        return;
      }
      if r.Timeout? {
        assert chunk[..avail] == data[..avail];
        if avail > 0 {
          r := Wrote(avail);
        }
        return;
      }
      done := StoreRest(src, elems, avail, start, done);
      r := Wrote(elems);
    }

    /** The copy into the freshly acquired slot, and its release if that fills it. */
    method StoreRest(src: seq<Pair>, elems: nat, avail: nat, ghost start: Tx, ghost acts: seq<Action>)
      returns (ghost done: seq<Action>)
      requires elems == Min(|src|, m) && avail <= elems && OfCall(acts)
      requires Linked() && Run(start, acts, model)
      requires model.writer == Fill(ConvertAll(format, src)[..elems], avail)
      modifies this
      ensures Valid() && Run(start, done, model) && OfCall(done) && done[0] == acts[0]
      ensures model.reported == old(model).reported + ConvertAll(format, src)[..elems]
    {
      hide Inv, Run, Wrap, Overwrite, ConvertAll;
      ghost var data := ConvertAll(format, src);
      ghost var s1 := Took(start, acts, model, CopyRest);
      done := acts + [CopyRest];
      var k := Min(elems - avail, remSamps);
      ConvertSlice(format, src, avail, avail + k);
      assert data[..elems][avail..][..k] == data[avail..avail + k];
      var filled := WriteBuf(src, slots[handle], 0, k, format, avail);
      slots := slots[handle := filled];
      remSamps := remSamps - k;
      remOffset := remOffset + k;
      model := s1;
      if remSamps == 0 {
        done := ReleaseWriteBuffer(start, done);
      }
    }
  }
}
