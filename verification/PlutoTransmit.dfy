/** Pluto transmit staging: send fills the device buffer with whatever fits, full buffers are pushed, and a flush or the
    end of a burst pushes a part-full buffer padded with zeros. */
module PlutoTransmit {
  import opened Sequences

  /** The call that pushed a buffer: a send, with its end-of-burst flag, its number of items and how many of them it
      took in, or a flush. */
  datatype Origin = BySend(endBurst: bool, numElems: nat, taken: nat) | ByFlush

  /** A buffer handed to the device: its words, how many items of it are samples, and whether the push succeeded. */
  datatype Push = Push(words: seq<bv16>, used: nat, origin: Origin, ok: bool)

  /** The streamer's fields, two words per item; as history the pushes and the words of all samples taken in. */
  datatype Tx = Tx(bufSize: nat, buf: seq<bv16>, items: nat, pushes: seq<Push>, accepted: seq<bv16>)

  /** words are the samples in device form; reply is what iio_buffer_push yields in items, negative for an error;
      next is what the buffer contains once the library has moved on to another block. */
  datatype Action =
    | Send(words: seq<bv16>, endBurst: bool, reply: int, next: seq<bv16>)
    | Flush(reply: int, next: seq<bv16>)

  predicate Legal(s: Tx, a: Action) {
    |a.next| == 2 * s.bufSize && (a.Send? ==> |a.words| % 2 == 0)
  }

  function Zeros(n: nat): (z: seq<bv16>)
    ensures |z| == n
  {
    seq(n, _ => 0)
  }

  /** send_buf. */
  function SendBuf(s: Tx, origin: Origin, reply: int, next: seq<bv16>): Tx
    requires |s.buf| == 2 * s.bufSize && s.items <= s.bufSize
  {
    if s.items > 0 then
      s.(items := 0, buf := next,
         pushes := s.pushes +
           [Push(s.buf[..2 * s.items] + Zeros(2 * (s.bufSize - s.items)), s.items, origin, reply == s.bufSize)])
    else s
  }

  /** The items a send takes in. */
  function Taken(s: Tx, words: seq<bv16>): nat
    requires s.items <= s.bufSize
  {
    Min(s.bufSize - s.items, |words| / 2)
  }

  /** send up to the test for a push. */
  function Stage(s: Tx, words: seq<bv16>): Tx
    requires |s.buf| == 2 * s.bufSize && s.items <= s.bufSize && |words| % 2 == 0
  {
    var n := Taken(s, words);
    s.(buf := s.buf[..2 * s.items] + words[..2 * n] + s.buf[2 * s.items + 2 * n..], items := s.items + n,
       accepted := s.accepted + words[..2 * n])
  }

  /** The push that is due after staging, if any. */
  predicate PushDue(s: Tx, words: seq<bv16>, endBurst: bool)
    requires s.items <= s.bufSize
  {
    var n := Taken(s, words);
    s.items + n == s.bufSize || (endBurst && n == |words| / 2)
  }

  function Apply(s: Tx, a: Action): Tx
    requires Inv(s) && Legal(s, a)
  {
    match a
    case Send(words, endBurst, reply, next) =>
      var t := Stage(s, words);
      if PushDue(s, words, endBurst)
      then SendBuf(t, BySend(endBurst, |words| / 2, Taken(s, words)), reply, next)
      else t
    case Flush(reply, next) => SendBuf(s, ByFlush, reply, next)
  }

  /** The return value of send; -1 stands for SOAPY_SDR_ERROR. */
  function SendResult(s: Tx, words: seq<bv16>, endBurst: bool, reply: int): int
    requires s.items <= s.bufSize
  {
    var n := Taken(s, words);
    if PushDue(s, words, endBurst) && (if s.items + n > 0 then reply else 0) != s.bufSize then -1 else n
  }

  // ---- What every call keeps ----

  function Payloads(pushes: seq<Push>): seq<bv16> {
    if pushes == [] then []
    else
      var p := pushes[|pushes| - 1];
      Payloads(pushes[..|pushes| - 1]) + (if 2 * p.used <= |p.words| then p.words[..2 * p.used] else [])
  }

  lemma PayloadsSnoc(pushes: seq<Push>, p: Push)
    ensures Payloads(pushes + [p]) == Payloads(pushes) + (if 2 * p.used <= |p.words| then p.words[..2 * p.used] else [])
  {
    assert (pushes + [p])[..|pushes + [p]| - 1] == pushes;
  }

  /** The push was asked for: by a flush, or by a send that ends a burst and took in all its items. */
  predicate Asked(origin: Origin) {
    origin.BySend? ==> origin.endBurst && origin.taken == origin.numElems
  }

  /** A pushed buffer has the device's size, carries samples, is zero after them, and is part full only if asked for. */
  predicate WellFormed(p: Push, bufSize: nat) {
    && |p.words| == 2 * bufSize && 0 < p.used <= bufSize
    && p.words[2 * p.used..] == Zeros(2 * (bufSize - p.used))
    && (p.used < bufSize ==> Asked(p.origin))
  }

  predicate Inv(s: Tx) {
    && |s.buf| == 2 * s.bufSize && s.items < s.bufSize
    && (forall i :: 0 <= i < |s.pushes| ==> WellFormed(s.pushes[i], s.bufSize))
    && Payloads(s.pushes) + s.buf[..2 * s.items] == s.accepted
  }

  lemma SendBufKeeps(s: Tx, origin: Origin, reply: int, next: seq<bv16>)
    requires |s.buf| == 2 * s.bufSize && s.items <= s.bufSize && s.bufSize > 0 && |next| == 2 * s.bufSize
    requires forall i :: 0 <= i < |s.pushes| ==> WellFormed(s.pushes[i], s.bufSize)
    requires Payloads(s.pushes) + s.buf[..2 * s.items] == s.accepted
    requires s.items < s.bufSize ==> Asked(origin)
    ensures Inv(SendBuf(s, origin, reply, next))
  {
    hide Payloads;
    if s.items > 0 {
      var p := SendBuf(s, origin, reply, next).pushes[|s.pushes|];
      PayloadsSnoc(s.pushes, p);
      assert p.words[..2 * p.used] == s.buf[..2 * s.items];
      assert p.words[2 * p.used..] == Zeros(2 * (s.bufSize - s.items));
      assert next[..0] == [];
      assert Payloads(s.pushes + [p]) + [] == Payloads(s.pushes + [p]);
    }
  }

  lemma StageKeeps(s: Tx, words: seq<bv16>)
    requires Inv(s) && |words| % 2 == 0
    ensures var t := Stage(s, words);
            && |t.buf| == 2 * t.bufSize && t.items == s.items + Taken(s, words) <= t.bufSize
            && Payloads(t.pushes) + t.buf[..2 * t.items] == t.accepted
  {
    hide Payloads;
    var t, n := Stage(s, words), Taken(s, words);
    assert t.buf[..2 * t.items] == s.buf[..2 * s.items] + words[..2 * n];
    assert Payloads(s.pushes) + (s.buf[..2 * s.items] + words[..2 * n]) ==
           (Payloads(s.pushes) + s.buf[..2 * s.items]) + words[..2 * n];
  }

  lemma StepKeeps(s: Tx, a: Action)
    requires Inv(s) && Legal(s, a)
    ensures Inv(Apply(s, a))
  {
    hide Payloads;
    match a
    case Send(words, endBurst, reply, next) =>
      StageKeeps(s, words);
      var t := Stage(s, words);
      if PushDue(s, words, endBurst) {
        SendBufKeeps(t, BySend(endBurst, |words| / 2, Taken(s, words)), reply, next);
      }
    case Flush(reply, next) => SendBufKeeps(s, ByFlush, reply, next);
  }

  /** A run of calls. */
  predicate Run(s: Tx, acts: seq<Action>, t: Tx)
    decreases |acts|
  {
    if acts == [] then s == t else Inv(s) && Legal(s, acts[0]) && Run(Apply(s, acts[0]), acts[1..], t)
  }

  lemma {:induction false} RunKeeps(s: Tx, acts: seq<Action>, t: Tx)
    requires Inv(s) && Run(s, acts, t)
    ensures Inv(t)
    decreases |acts|
  {
    hide Inv, Apply;
    if acts != [] {
      StepKeeps(s, acts[0]);
      RunKeeps(Apply(s, acts[0]), acts[1..], t);
    }
  }

  function Init(bufSize: nat, buf: seq<bv16>): Tx {
    Tx(bufSize, buf, 0, [], [])
  }

  /** Over any run of sends and flushes: the pushed buffers stripped of their padding, then the staged items, are
      the samples taken in; buffers are padded with zeros, and only by a flush or by a send whose call had the
      end-of-burst flag and took in all its items; and the buffer is never full between calls, so that every
      non-empty send takes in at least one item. */
  lemma StagingConserves(bufSize: nat, buf: seq<bv16>, acts: seq<Action>, t: Tx)
    requires bufSize > 0 && |buf| == 2 * bufSize && Run(Init(bufSize, buf), acts, t)
    ensures 2 * t.items <= |t.buf| && Payloads(t.pushes) + t.buf[..2 * t.items] == t.accepted
    ensures forall i :: 0 <= i < |t.pushes| ==> WellFormed(t.pushes[i], t.bufSize)
    ensures t.items < t.bufSize
    ensures forall words: seq<bv16> :: |words| >= 2 ==> Taken(t, words) > 0
  {
    hide Run;
    assert Inv(Init(bufSize, buf)) by {
      assert Payloads([]) + buf[..0] == [];
    }
    RunKeeps(Init(bufSize, buf), acts, t);
  }

  /** When send reports an error although nothing failed: an empty send that ends a burst with nothing staged. In every
      other case an error means that a push was made and did not return the whole buffer. */
  lemma SendErrorExact(s: Tx, a: Action)
    requires Inv(s) && Legal(s, a) && a.Send?
    ensures SendResult(s, a.words, a.endBurst, a.reply) == -1 <==>
              || (|Apply(s, a).pushes| == |s.pushes| + 1 && !Apply(s, a).pushes[|s.pushes|].ok)
              || (a.words == [] && a.endBurst && s.items == 0)
  {
    hide Payloads;
    StageKeeps(s, a.words);
  }

  // ---- What the caller is told ----

  /** The count that send returns, when it does not report an error, is exactly what was taken in: the first items
      of the call, all of them unless the buffer is full. And a burst that was sent completely leaves nothing
      staged. */
  lemma SendCounts(s: Tx, a: Action)
    requires Inv(s) && Legal(s, a) && a.Send?
    ensures var t, ret := Apply(s, a), SendResult(s, a.words, a.endBurst, a.reply);
            && t.bufSize == s.bufSize
            && (ret != -1 ==>
                  && 0 <= ret && 2 * ret <= |a.words|
                  && t.accepted == s.accepted + a.words[..2 * ret]
                  && (2 * ret < |a.words| ==> s.items + ret == s.bufSize)
                  && (a.endBurst && 2 * ret == |a.words| ==> t.items == 0))
            && (ret == -1 ==> t.accepted == s.accepted + a.words[..2 * Taken(s, a.words)])
  {
    hide Payloads;
  }

  /** The counts returned in a run, errors left out. */
  ghost function Returned(s: Tx, acts: seq<Action>): nat
    decreases |acts|
  {
    if acts == [] || !Inv(s) || !Legal(s, acts[0]) then 0
    else
      var a := acts[0];
      var ret := if a.Send? then SendResult(s, a.words, a.endBurst, a.reply) else 0;
      (if ret < 0 then 0 else ret) + Returned(Apply(s, a), acts[1..])
  }

  /** The items taken in by sends that reported an error. */
  ghost function Untold(s: Tx, acts: seq<Action>): nat
    decreases |acts|
  {
    if acts == [] || !Inv(s) || !Legal(s, acts[0]) then 0
    else
      var a := acts[0];
      (if a.Send? && SendResult(s, a.words, a.endBurst, a.reply) == -1 then Taken(s, a.words) else 0) +
      Untold(Apply(s, a), acts[1..])
  }

  lemma {:induction false} CountsRun(s: Tx, acts: seq<Action>, t: Tx)
    requires Inv(s) && Run(s, acts, t)
    ensures |t.accepted| == |s.accepted| + 2 * (Returned(s, acts) + Untold(s, acts))
    decreases |acts|
  {
    hide Inv, Apply, SendResult, Taken;
    if acts != [] {
      StepKeeps(s, acts[0]);
      CountStep(s, acts[0]);
      CountsRun(Apply(s, acts[0]), acts[1..], t);
    }
  }

  lemma CountStep(s: Tx, a: Action)
    requires Inv(s) && Legal(s, a)
    ensures var t := Apply(s, a);
            if a.Flush? then |t.accepted| == |s.accepted|
            else
              var ret := SendResult(s, a.words, a.endBurst, a.reply);
              ret >= -1 && s.items <= s.bufSize &&
              |t.accepted| == |s.accepted| + 2 * (if ret == -1 then Taken(s, a.words) else ret)
  {
    hide Payloads;
    if a.Send? {
      SendCounts(s, a);
    }
  }

  /** Over a run the counts returned add up to the items taken in, exactly if no send that reported an error took in
      any; otherwise those are what the counts miss. */
  lemma CountsAddUp(bufSize: nat, buf: seq<bv16>, acts: seq<Action>, t: Tx)
    requires bufSize > 0 && |buf| == 2 * bufSize && Run(Init(bufSize, buf), acts, t)
    ensures var s := Init(bufSize, buf);
            && |t.accepted| == 2 * (Returned(s, acts) + Untold(s, acts))
            && (|t.accepted| == 2 * Returned(s, acts) <==> Untold(s, acts) == 0)
  {
    hide Run, Returned, Untold;
    assert Inv(Init(bufSize, buf)) by {
      assert Payloads([]) + buf[..0] == [];
    }
    CountsRun(Init(bufSize, buf), acts, t);
  }
}
