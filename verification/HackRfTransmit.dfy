/** HackRF continuous transmit: writeStream stages chunks of any size into ring slots of one transfer each, and
    the USB callback takes whole slots. The lock protects the indices, not the copying, so callbacks run between
    the critical sections of a writeStream call. */
module HackRfTransmit {
  import opened RingIndex
  import opened Sequences

  /** One I/Q pair as the device takes it. */
  datatype Sample = Sample(i: int, q: int)

  /** A block given to the device. */
  datatype Sent = Sent(block: seq<Sample>, underflow: bool)

  /** Where writeStream is, with its clipped input and the number k of samples already stored from it. */
  datatype Writer =
    | Outside
    | FreeFirst(chunk: seq<Sample>, k: nat)
    | Acquire(chunk: seq<Sample>, k: nat)
    | Fill(chunk: seq<Sample>, k: nat)
    | FreeLast(chunk: seq<Sample>)

  /** The transmit stream's fields (handle is remainderHandle, -1 when no slot is held) and, from base on, history:
      accepted is what was stored into slots, reported is what the return values told the caller was written. */
  datatype Tx = Tx(
    n: nat,
    m: nat,
    slots: seq<seq<Sample>>,
    head: nat,
    tail: nat,
    count: nat,
    underflow: bool,
    handle: int,
    remSamps: nat,
    remOffset: nat,
    writer: Writer,
    base: nat,
    queue: seq<seq<Sample>>,
    sent: seq<Sent>,
    accepted: seq<Sample>,
    reported: seq<Sample>)

  datatype Action =
    | Callback
    | Begin(data: seq<Sample>)
    | ReleaseFirst
    | AcquireSlot
    | AcquireTimeout
    | AcquireError
    | CopyRest
    | ReleaseLast

  function Zeros(m: nat): seq<Sample> {
    seq(m, _ => Sample(0, 0))
  }

  /** dst with src written at offset `at`. */
  function Overwrite(dst: seq<Sample>, at: nat, src: seq<Sample>): seq<Sample>
    requires at + |src| <= |dst|
  {
    dst[..at] + src + dst[at + |src|..]
  }

  ghost function Init(n: nat, m: nat, slots: seq<seq<Sample>>): Tx {
    Tx(n, m, slots, 0, 0, 0, false, -1, 0, 0, Outside, 0, [], [], [], [])
  }

  ghost function HeldCount(s: Tx): nat {
    if s.handle >= 0 then 1 else 0
  }

  ghost predicate Ready(s: Tx, a: Action) {
    match a
    case Callback => true
    case Begin(_) => s.writer.Outside?
    case ReleaseFirst => s.writer.FreeFirst?
    case AcquireSlot => s.writer.Acquire? && s.count != s.n
    case AcquireTimeout => s.writer.Acquire? && s.count == s.n
    case AcquireError => s.writer.Acquire?
    case CopyRest => s.writer.Fill?
    case ReleaseLast => s.writer.FreeLast?
  }

  /** The copies stay inside their slots and the transfer. */
  ghost predicate Safe(s: Tx, a: Action)
    requires Ready(s, a)
  {
    && s.n > 0 && |s.slots| == s.n
    && (a.Callback? && s.count > 0 ==> s.tail < s.n && s.queue != [])
    && (a.Begin? && s.handle >= 0 ==> s.handle < s.n && s.remOffset + s.remSamps <= |s.slots[s.handle]|)
    && (a.ReleaseFirst? ==> 0 <= s.handle < s.n && s.writer.k <= |s.writer.chunk|)
    && (a.AcquireTimeout? ==> s.writer.k <= |s.writer.chunk|)
    && (a.CopyRest? ==> 0 <= s.handle < s.n && s.writer.k <= |s.writer.chunk| && s.remSamps <= |s.slots[s.handle]|)
    && (a.ReleaseLast? ==> 0 <= s.handle < s.n)
  }

  ghost predicate Enabled(s: Tx, a: Action) {
    Ready(s, a) && Safe(s, a)
  }

  /** writeStream returns having reported the samples of told. */
  ghost function Return(s: Tx, told: seq<Sample>): Tx {
    s.(writer := Outside, reported := s.reported + told)
  }

  /** releaseWriteBuffer and the reset of the remainder fields. */
  ghost function ReleaseSlot(s: Tx): Tx
    requires 0 <= s.handle < |s.slots|
  {
    s.(count := s.count + 1, queue := s.queue + [s.slots[s.handle]], handle := -1, remOffset := 0)
  }

  /** Stores piece at offset `at` of the held slot. */
  ghost function Store(s: Tx, at: nat, piece: seq<Sample>): Tx
    requires 0 <= s.handle < |s.slots| && at + |piece| <= |s.slots[s.handle]| && |piece| <= s.remSamps
  {
    s.(slots := s.slots[s.handle := Overwrite(s.slots[s.handle], at, piece)],
       remSamps := s.remSamps - |piece|, remOffset := s.remOffset + |piece|, accepted := s.accepted + piece)
  }

  ghost function Apply(s: Tx, a: Action): Tx
    requires Enabled(s, a)
  {
    match a
    case Callback =>
      if s.count == 0 then s.(underflow := true, sent := s.sent + [Sent(Zeros(s.m), true)])
      else s.(tail := Wrap(s.tail + 1, s.n), count := s.count - 1, base := s.base + 1, queue := s.queue[1..],
              sent := s.sent + [Sent(s.slots[s.tail], false)])
    case Begin(data) =>
      var chunk := data[..Min(|data|, s.m)];
      if s.handle >= 0 then
        var k := Min(s.remSamps, |chunk|);
        var t := Store(s, s.remOffset, chunk[..k]);
        if t.remSamps == 0 then t.(writer := FreeFirst(chunk, k)) else Return(t, chunk)
      else s.(writer := Acquire(chunk, 0))
    case ReleaseFirst =>
      var t := ReleaseSlot(s);
      if s.writer.k == |s.writer.chunk| then Return(t, s.writer.chunk)
      else t.(writer := Acquire(s.writer.chunk, s.writer.k))
    case AcquireSlot =>
      s.(handle := s.head, head := Wrap(s.head + 1, s.n), remSamps := s.m, writer := Fill(s.writer.chunk, s.writer.k))
    case AcquireTimeout => Return(s, s.writer.chunk[..s.writer.k])
    // the samples stored by the first half of the call are not reported
    case AcquireError => Return(s, [])
    case CopyRest =>
      var rest := s.writer.chunk[s.writer.k..];
      var t := Store(s, 0, rest[..Min(|rest|, s.remSamps)]);
      if t.remSamps == 0 then t.(writer := FreeLast(s.writer.chunk)) else Return(t, s.writer.chunk)
    case ReleaseLast => Return(ReleaseSlot(s), s.writer.chunk)
  }

  ghost predicate Run(s: Tx, acts: seq<Action>, t: Tx)
    decreases |acts|
  {
    if acts == [] then s == t
    else Enabled(s, acts[0]) && Run(Apply(s, acts[0]), acts[1..], t)
  }

  /** The blocks that carry data, in order. */
  ghost function Real(sent: seq<Sent>): seq<seq<Sample>> {
    if sent == [] then []
    else Real(sent[..|sent| - 1]) + (if sent[|sent| - 1].underflow then [] else [sent[|sent| - 1].block])
  }

  lemma RealSnoc(sent: seq<Sent>, x: Sent)
    ensures Real(sent + [x]) == Real(sent) + (if x.underflow then [] else [x.block])
  {
    assert (sent + [x])[..|sent + [x]| - 1] == sent;
  }

  // ---- The invariant ----

  ghost predicate Shape(s: Tx) {
    && s.n > 0 && s.m > 0 && |s.slots| == s.n
    && s.handle < s.n
    && |s.queue| == s.count && s.count + HeldCount(s) <= s.n
    && s.tail == SlotOf(s.base, 0, s.n)
    && s.head == SlotOf(s.base, s.count + HeldCount(s), s.n)
    && (s.handle >= 0 ==> s.handle == SlotOf(s.base, s.count, s.n))
  }

  ghost predicate Contents(s: Tx)
    requires Shape(s)
  {
    && (forall i :: 0 <= i < s.n ==> |s.slots[i]| == s.m)
    && (forall i: nat :: i < |s.queue| ==> s.slots[SlotOf(s.base, i, s.n)] == s.queue[i])
  }

  ghost predicate Control(s: Tx) {
    && (s.handle >= 0 ==> s.remOffset + s.remSamps == s.m)
    && (s.handle < 0 ==> s.remOffset == 0)
    && match s.writer
       case Outside => s.handle >= 0 ==> s.remSamps > 0
       case FreeFirst(chunk, k) => s.handle >= 0 && s.remSamps == 0 && k <= |chunk| <= s.m
       case Acquire(chunk, k) => s.handle < 0 && k <= |chunk| <= s.m
       case Fill(chunk, k) => s.handle >= 0 && s.remOffset == 0 && k <= |chunk| <= s.m
       case FreeLast(chunk) => s.handle >= 0 && s.remSamps == 0
  }

  /** The samples staged in the held slot. */
  ghost function Staged(s: Tx): seq<Sample> {
    if 0 <= s.handle < |s.slots| && s.remOffset <= |s.slots[s.handle]| then s.slots[s.handle][..s.remOffset] else []
  }

  ghost predicate Conserved(s: Tx) {
    Flatten(Real(s.sent)) + Flatten(s.queue) + Staged(s) == s.accepted
  }

  ghost predicate Padded(s: Tx) {
    forall i :: 0 <= i < |s.sent| ==>
      |s.sent[i].block| == s.m && (s.sent[i].underflow ==> s.sent[i].block == Zeros(s.m))
  }

  ghost predicate Inv(s: Tx) {
    Shape(s) && Contents(s) && Control(s) && Conserved(s) && Padded(s)
  }

  lemma StepSafe(s: Tx, a: Action)
    requires Inv(s) && Ready(s, a)
    ensures Safe(s, a)
  {
    hide Wrap, Flatten, Real;
  }

  /** The slot being filled is not the one the callback takes, nor any other queued slot. */
  lemma HeldSlotFree(s: Tx)
    requires Shape(s) && s.handle >= 0
    ensures forall i: nat :: i < |s.queue| ==> SlotOf(s.base, i, s.n) != s.handle
    ensures s.count > 0 ==> s.tail != s.handle
  {
    hide Wrap;
    WindowDistinct(s.base, s.count, s.n);
  }

  lemma CallbackStep(s: Tx)
    requires Inv(s) && Enabled(s, Callback)
    ensures Inv(Apply(s, Callback))
  {
    hide Wrap, Flatten, Real, Overwrite, Conserved;
    CallbackConserves(s);
    var t := Apply(s, Callback);
    if s.count > 0 {
      WrapAdd(s.base, 1, s.n);
      assert s.slots[SlotOf(s.base, 0, s.n)] == s.queue[0];
      assert forall i: nat :: i < |t.queue| ==> SlotOf(t.base, i, s.n) == SlotOf(s.base, i + 1, s.n);
    }
  }

  /** A callback sends the oldest queued block whole, and zeros exactly if there is none. */
  lemma CallbackServes(s: Tx)
    requires Inv(s)
    ensures Enabled(s, Callback)
    ensures var t := Apply(s, Callback);
            && t.sent == s.sent + [if s.queue == [] then Sent(Zeros(s.m), true) else Sent(s.queue[0], false)]
            && t.queue == (if s.queue == [] then [] else s.queue[1..])
            && (t.underflow <==> s.underflow || s.queue == [])
  {
    hide Wrap, Flatten, Real, Conserved, Control;
    StepSafe(s, Callback);
    if s.count > 0 {
      assert s.slots[SlotOf(s.base, 0, s.n)] == s.queue[0];
    }
  }

  lemma CallbackConserves(s: Tx)
    requires Shape(s) && Contents(s) && Conserved(s) && Enabled(s, Callback)
    ensures Conserved(Apply(s, Callback))
  {
    hide Wrap, Flatten, Real, Overwrite;
    var t := Apply(s, Callback);
    RealSnoc(s.sent, t.sent[|s.sent|]);
    if s.count == 0 {
      assert Real(s.sent) + [] == Real(s.sent);
    } else {
      assert s.slots[SlotOf(s.base, 0, s.n)] == s.queue[0];
      FlattenUncons(s.queue);
      FlattenSnoc(Real(s.sent), s.queue[0]);
      Associate(Flatten(Real(s.sent)), s.queue[0], Flatten(s.queue[1..]));
    }
  }

  lemma Associate(a: seq<Sample>, b: seq<Sample>, c: seq<Sample>)
    ensures a + (b + c) == (a + b) + c
  {
  }

  /** Storing into the held slot. */
  lemma StoreStep(s: Tx, piece: seq<Sample>)
    requires Shape(s) && Contents(s) && Conserved(s)
    requires s.handle >= 0 && s.remOffset + s.remSamps == s.m && |piece| <= s.remSamps
    ensures s.remOffset + |piece| <= |s.slots[s.handle]|
    ensures var t := Store(s, s.remOffset, piece); Shape(t) && Contents(t) && Conserved(t)
  {
    hide Wrap, Flatten, Real;
    HeldSlotFree(s);
    var t := Store(s, s.remOffset, piece);
    assert Staged(t) == Staged(s) + piece;
    assert Flatten(Real(s.sent)) + Flatten(s.queue) + (Staged(s) + piece) ==
           (Flatten(Real(s.sent)) + Flatten(s.queue) + Staged(s)) + piece;
  }

  lemma BeginStep(s: Tx, data: seq<Sample>)
    requires Inv(s) && Enabled(s, Begin(data))
    ensures Inv(Apply(s, Begin(data)))
  {
    hide Wrap, Flatten, Real, Shape, Contents, Conserved, Overwrite;
    var chunk := data[..Min(|data|, s.m)];
    if s.handle >= 0 {
      var k := Min(s.remSamps, |chunk|);
      StoreStep(s, chunk[..k]);
      MovedOn(Store(s, s.remOffset, chunk[..k]), Apply(s, Begin(data)));
    } else {
      MovedOn(s, Apply(s, Begin(data)));
    }
  }

  /** Shape, Contents and Conserved do not depend on the control point or on what was reported. */
  lemma MovedOn(s: Tx, t: Tx)
    requires Shape(s) && Contents(s) && Conserved(s)
    requires t == s.(writer := t.writer, reported := t.reported)
    ensures Shape(t) && Contents(t) && Conserved(t)
  {
    hide Wrap, Flatten, Real;
  }

  lemma CopyRestStep(s: Tx)
    requires Inv(s) && Enabled(s, CopyRest)
    ensures Inv(Apply(s, CopyRest))
  {
    hide Wrap, Flatten, Real, Shape, Contents, Conserved, Overwrite;
    var chunk, k := s.writer.chunk, s.writer.k;
    var rest := chunk[k..];
    assert rest[..Min(|rest|, s.remSamps)] == rest;
    StoreStep(s, rest);
    MovedOn(Store(s, 0, rest), Apply(s, CopyRest));
  }

  lemma ReleaseSlotStep(s: Tx)
    requires Shape(s) && Contents(s) && Conserved(s) && s.handle >= 0 && s.remOffset == s.m
    ensures var t := ReleaseSlot(s); Shape(t) && Contents(t) && Conserved(t)
  {
    hide Wrap, Flatten, Real;
    FlattenSnoc(s.queue, s.slots[s.handle]);
    assert Staged(s) == s.slots[s.handle];
  }

  lemma ReleaseStep(s: Tx, a: Action)
    requires Inv(s) && Enabled(s, a) && (a.ReleaseFirst? || a.ReleaseLast?)
    ensures Inv(Apply(s, a))
  {
    hide Wrap, Flatten, Real, Contents, Overwrite;
    ReleaseSlotStep(s);
    MovedOn(ReleaseSlot(s), Apply(s, a));
  }

  lemma AcquireStep(s: Tx, a: Action)
    requires Inv(s) && Enabled(s, a) && (a.AcquireSlot? || a.AcquireTimeout? || a.AcquireError?)
    ensures Inv(Apply(s, a))
  {
    hide Wrap, Flatten, Real, Overwrite;
    if a.AcquireSlot? {
      WrapAdd(s.base + s.count, 1, s.n);
    } else {
      MovedOn(s, Apply(s, a));
    }
  }

  lemma StepInv(s: Tx, a: Action)
    requires Inv(s) && Enabled(s, a)
    ensures Inv(Apply(s, a))
  {
    hide Inv, Apply;
    match a
    case Callback => CallbackStep(s);
    case Begin(data) => BeginStep(s, data);
    case CopyRest => CopyRestStep(s);
    case ReleaseFirst => ReleaseStep(s, a);
    case ReleaseLast => ReleaseStep(s, a);
    case _ => AcquireStep(s, a);
  }

  lemma {:induction false} RunInv(s: Tx, acts: seq<Action>, t: Tx)
    requires Inv(s) && Run(s, acts, t)
    ensures Inv(t)
    decreases |acts|
  {
    hide Inv, Apply, Enabled;
    if acts != [] {
      StepInv(s, acts[0]);
      RunInv(Apply(s, acts[0]), acts[1..], t);
    }
  }

  lemma {:induction false} RunSnoc(s: Tx, acts: seq<Action>, m: Tx, a: Action)
    requires Run(s, acts, m) && Enabled(m, a)
    ensures Run(s, acts + [a], Apply(m, a))
    decreases |acts|
  {
    hide Apply, Enabled;
    if acts == [] {
      assert acts + [a] == [a] && [a][1..] == [];
    } else {
      RunSnoc(Apply(s, acts[0]), acts[1..], m, a);
      assert (acts + [a])[1..] == acts[1..] + [a];
    }
  }

  lemma EmptyRun(s: Tx)
    ensures Run(s, [], s)
  {
  }

  /** Appends one step to a run, keeping the invariant. */
  lemma Took(s: Tx, acts: seq<Action>, m: Tx, a: Action) returns (t: Tx)
    requires Inv(m) && Ready(m, a) && Run(s, acts, m)
    ensures Enabled(m, a) && t == Apply(m, a) && Inv(t) && Run(s, acts + [a], t)
  {
    hide Inv, Ready, Safe, Apply;
    StepSafe(m, a);
    StepInv(m, a);
    t := Apply(m, a);
    RunSnoc(s, acts, m, a);
  }

  lemma InitInv(n: nat, m: nat, slots: seq<seq<Sample>>)
    requires n > 0 && m > 0 && |slots| == n && forall i :: 0 <= i < n ==> |slots[i]| == m
    ensures Inv(Init(n, m, slots))
  {
  }

  /** Transmit end to end, for any chunk sizes and any interleaving with the callbacks: the data blocks sent, then
      the queued blocks, then the staged samples are exactly what was stored, and the other blocks sent are zeros. */
  lemma TransmitConserves(n: nat, m: nat, slots: seq<seq<Sample>>, acts: seq<Action>, t: Tx)
    requires n > 0 && m > 0 && |slots| == n && forall i :: 0 <= i < n ==> |slots[i]| == m
    requires Run(Init(n, m, slots), acts, t)
    ensures Flatten(Real(t.sent)) + Flatten(t.queue) + Staged(t) == t.accepted
    ensures forall i :: 0 <= i < |t.sent| && t.sent[i].underflow ==> t.sent[i].block == Zeros(t.m)
    ensures t.count > 0 ==> t.tail != t.handle
  {
    hide Run;
    InitInv(n, m, slots);
    RunInv(Init(n, m, slots), acts, t);
    if t.handle >= 0 {
      HeldSlotFree(t);
    }
  }

  // ---- Return values ----

  /** The samples of the current call that are stored but not yet reported. */
  ghost function Unreported(w: Writer): seq<Sample> {
    match w
    case Outside => []
    case FreeLast(chunk) => chunk
    case FreeFirst(chunk, k) => if k <= |chunk| then chunk[..k] else []
    case Acquire(chunk, k) => if k <= |chunk| then chunk[..k] else []
    case Fill(chunk, k) => if k <= |chunk| then chunk[..k] else []
  }

  ghost predicate Accounted(s: Tx) {
    s.accepted == s.reported + Unreported(s.writer)
  }

  /** How many samples were stored that no return value has told of or will tell of. */
  ghost function Untold(s: Tx): int {
    |s.accepted| - |s.reported| - |Unreported(s.writer)|
  }

  /** The samples a step hides: activation fails after the first half of the call stored k samples. */
  ghost function Hides(s: Tx, a: Action): nat {
    if a.AcquireError? && s.writer.Acquire? then s.writer.k else 0
  }

  /** The samples hidden in a run. */
  ghost function Hidden(s: Tx, acts: seq<Action>): nat
    decreases |acts|
  {
    if acts != [] && Enabled(s, acts[0]) then Hides(s, acts[0]) + Hidden(Apply(s, acts[0]), acts[1..]) else 0
  }

  /** No call of the run fails in activation after storing samples. */
  ghost predicate NeverFailsHalfway(s: Tx, acts: seq<Action>)
    decreases |acts|
  {
    acts != [] && Enabled(s, acts[0]) ==>
      && !(acts[0].AcquireError? && s.writer.Acquire? && s.writer.k > 0)
      && NeverFailsHalfway(Apply(s, acts[0]), acts[1..])
  }

  lemma AccountBegin(s: Tx, data: seq<Sample>)
    requires Control(s) && Enabled(s, Begin(data))
    ensures var t := Apply(s, Begin(data)); Untold(t) == Untold(s) && (Accounted(s) ==> Accounted(t))
  {
    hide Wrap, Overwrite;
    var chunk := data[..Min(|data|, s.m)];
    assert chunk[..0] == [] && s.reported + [] == s.reported;
    if s.handle >= 0 {
      var k := Min(s.remSamps, |chunk|);
      assert k == |chunk| ==> chunk[..k] == chunk;
    }
  }

  lemma AccountCopyRest(s: Tx)
    requires Control(s) && Enabled(s, CopyRest)
    ensures var t := Apply(s, CopyRest); Untold(t) == Untold(s) && (Accounted(s) ==> Accounted(t))
  {
    hide Wrap, Overwrite;
    var chunk, k := s.writer.chunk, s.writer.k;
    var rest := chunk[k..];
    assert rest[..Min(|rest|, s.remSamps)] == rest;
    assert s.reported + chunk[..k] + rest == s.reported + chunk;
  }

  lemma AccountStep(s: Tx, a: Action)
    requires Control(s) && Enabled(s, a)
    ensures var t := Apply(s, a);
            Untold(t) == Untold(s) + Hides(s, a) && (Accounted(s) && Hides(s, a) == 0 ==> Accounted(t))
  {
    hide Wrap, Overwrite;
    match a
    case Begin(data) => AccountBegin(s, data);
    case CopyRest => AccountCopyRest(s);
    case ReleaseFirst => assert s.writer.k == |s.writer.chunk| ==> s.writer.chunk[..s.writer.k] == s.writer.chunk;
    case AcquireError => assert s.writer.chunk[..0] == [] && s.reported + [] == s.reported;
    case _ =>
  }

  lemma {:induction false} AccountRun(s: Tx, acts: seq<Action>, t: Tx)
    requires Inv(s) && Run(s, acts, t)
    ensures Untold(t) == Untold(s) + Hidden(s, acts)
    ensures NeverFailsHalfway(s, acts) <==> Hidden(s, acts) == 0
    ensures Accounted(s) && Hidden(s, acts) == 0 ==> Accounted(t)
    decreases |acts|
  {
    hide Shape, Contents, Conserved, Padded, Apply, Enabled, Accounted, Untold;
    if acts != [] {
      StepInv(s, acts[0]);
      AccountStep(s, acts[0]);
      AccountRun(Apply(s, acts[0]), acts[1..], t);
    }
  }

  /** Between calls, what was stored is what the return values reported if and only if no call failed in activation
      after it had stored samples; otherwise the samples of those calls are what the return values miss. */
  lemma ReturnValuesHonest(n: nat, m: nat, slots: seq<seq<Sample>>, acts: seq<Action>, t: Tx)
    requires n > 0 && m > 0 && |slots| == n && forall i :: 0 <= i < n ==> |slots[i]| == m
    requires Run(Init(n, m, slots), acts, t) && t.writer.Outside?
    ensures t.accepted == t.reported <==> NeverFailsHalfway(Init(n, m, slots), acts)
    ensures |t.accepted| == |t.reported| + Hidden(Init(n, m, slots), acts)
  {
    hide Run, Hidden, NeverFailsHalfway, Inv;
    InitInv(n, m, slots);
    AccountRun(Init(n, m, slots), acts, t);
  }

  /** Such a call happens, whatever the size of a slot above one sample: with all but one sample of a slot staged, a
      call of two samples completes the slot and then fails to activate. The sample that completed the slot is
      stored and was never reported. */
  lemma HalfwayReached(n: nat, m: nat, slots: seq<seq<Sample>>, data: seq<Sample>, y: Sample, z: Sample)
    requires n > 0 && m >= 2 && |slots| == n && forall i :: 0 <= i < n ==> |slots[i]| == m
    requires |data| == m - 1
    ensures exists acts, t :: Run(Init(n, m, slots), acts, t) && t.writer.Outside? &&
                              t.accepted == data + [y] && t.reported == data
  {
    hide Run, Inv, Wrap, Overwrite;
    var s0 := Init(n, m, slots);
    InitInv(n, m, slots);
    EmptyRun(s0);
    var acts, t := StagedOne(s0, data);
    assert [] + data == data;
    t := Took(s0, acts, t, Begin([y, z]));
    acts := acts + [Begin([y, z])];
    assert [y, z][..2] == [y, z] && [y, z][..1] == [y];
    t := Took(s0, acts, t, ReleaseFirst);
    acts := acts + [ReleaseFirst];
    t := Took(s0, acts, t, AcquireError);
    acts := acts + [AcquireError];
    assert data + [] == data;
  }

  /** A first call with fewer samples than a slot holds. */
  lemma StagedOne(s: Tx, data: seq<Sample>) returns (acts: seq<Action>, t: Tx)
    requires Inv(s) && s.writer.Outside? && s.handle < 0 && s.count < s.n && |data| < s.m
    ensures Inv(t) && Run(s, acts, t) && t.writer.Outside? && t.handle >= 0 && t.remSamps == s.m - |data|
    ensures t.accepted == s.accepted + data && t.reported == s.reported + data && t.m == s.m
  {
    hide Run, Inv, Wrap, Overwrite;
    EmptyRun(s);
    t := Took(s, [], s, Begin(data));
    acts := [] + [Begin(data)];
    assert data[..|data|] == data && data[0..] == data;
    t := Took(s, acts, t, AcquireSlot);
    acts := acts + [AcquireSlot];
    t := Took(s, acts, t, CopyRest);
    acts := acts + [CopyRest];
  }
}
