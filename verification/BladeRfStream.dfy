/** The streaming part of the BladeRF device object: its methods do to the fields what one step of the transmit and
    receive machines does, and its conversion loops keep the two channels of a 2x2 stream apart. */
module BladeRfStream {
  import opened Sequences
  import T = BladeRfTransmit
  import R = BladeRfReceive

  /** StreamMetadata, as queued by activateStream. */
  datatype Metadata = Metadata(hasTime: bool, ticks: int, numElems: nat)

  datatype ReadResult =
    | Elements(count: nat, ticks: int)
    | NoCommand
    | Overflow(ticks: int)
    | Timeout
    | TimeError
    | Error

  class Device {
    const rxBuffSize: nat
    const txBuffSize: nat
    var rxCmds: seq<Metadata>
    var rxOverflow: bool
    var rxNextTicks: int
    var inTxBurst: bool
    var txNextTicks: int
    var txResps: seq<T.Response>
    ghost var tx: T.Tx
    ghost var rx: R.Rx

    ghost predicate Valid()
      reads this
    {
      && tx.buffSize == txBuffSize && tx.inBurst == inTxBurst && tx.nextTicks == txNextTicks && tx.responses == txResps
      && rx.buffSize == rxBuffSize && rx.overflow == rxOverflow && rx.nextTicks == rxNextTicks
      && |rx.commands| == |rxCmds|
      && forall i :: 0 <= i < |rxCmds| ==>
           rxCmds[i] == Metadata(rx.commands[i].hasTime, rx.commands[i].ticks, rx.commands[i].numElems)
    }

    constructor (rxBuffSize: nat, txBuffSize: nat)
      ensures Valid() && tx == T.Init(txBuffSize) && rx == R.Init(rxBuffSize)
    {
      this.rxBuffSize, this.txBuffSize := rxBuffSize, txBuffSize;
      rxCmds, rxOverflow, rxNextTicks := [], false, 0;
      inTxBurst, txNextTicks, txResps := false, 0, [];
      tx, rx := T.Init(txBuffSize), R.Init(rxBuffSize);
    }

    /** activateStream, receive direction. */
    method ActivateRx(hasTime: bool, ticks: int, numElems: nat)
      requires Valid()
      modifies this`rxCmds, this`rx
      ensures Valid() && rx == R.Apply(old(rx), R.Activate(hasTime, ticks, numElems))
      ensures rxCmds == old(rxCmds) + [Metadata(hasTime, ticks, numElems)]
    {
      rxCmds := rxCmds + [Metadata(hasTime, ticks, numElems)];
      rx := R.Apply(rx, R.Activate(hasTime, ticks, numElems));
    }

    /** deactivateStream, receive direction. */
    method DeactivateRx()
      requires Valid()
      modifies this`rxCmds, this`rx
      ensures Valid() && rx == R.Apply(old(rx), R.Deactivate) && rxCmds == []
    {
      while rxCmds != []
        modifies this`rxCmds
        decreases |rxCmds|
      {
        rxCmds := rxCmds[1..];
      }
      rx := R.Apply(rx, R.Deactivate);
    }

    /** deactivateStream, transmit direction; accepted is whether the device takes the block sent in a burst. */
    method DeactivateTx(accepted: bool)
      requires Valid()
      modifies this`inTxBurst, this`tx
      ensures Valid() && tx == T.Apply(old(tx), T.Deactivate(accepted)) && !inTxBurst
    {
      tx := T.Apply(tx, T.Deactivate(accepted));
      inTxBurst := false;
    }

    /** readStream; reply is the answer of the device if it is asked. */
    method ReadStream(elems: nat, reply: R.Reply) returns (r: ReadResult)
      requires Valid() && R.Legal(rx, R.Read(elems, reply))
      modifies this`rxCmds, this`rxOverflow, this`rxNextTicks, this`rx
      ensures Valid() && rx == R.Apply(old(rx), R.Read(elems, reply))
      ensures r.NoCommand? <==> old(rxCmds) == []
      ensures r.Overflow? <==> old(rxCmds) != [] && old(rxOverflow)
      ensures r.Overflow? ==> r.ticks == old(rxNextTicks)
      ensures old(rxCmds) != [] && !old(rxOverflow) ==>
                r == match reply
                     case TimedOut => Timeout
                     case TimePast => TimeError
                     case Failed => Error
                     case Samples(count, timestamp, _) => Elements(count, timestamp)
    {
      ghost var next := R.Apply(rx, R.Read(elems, reply));
      var numElems := Min(elems, rxBuffSize);
      if rxCmds == [] {
        rx := next;
        return NoCommand;
      }
      if rxOverflow {
        rxOverflow := false;
        rx := next;
        return Overflow(rxNextTicks);
      }
      var cmd := rxCmds[0];
      if cmd.numElems > 0 {
        numElems := Min(cmd.numElems, numElems);
      }
      cmd := cmd.(hasTime := false);
      rxCmds := rxCmds[0 := cmd];
      if reply.TimedOut? || reply.TimePast? {
        rx := next;
        return if reply.TimedOut? then Timeout else TimeError;
      }
      if reply.Failed? {
        if cmd.numElems > 0 {
          rxCmds := rxCmds[1..];
        }
        rx := next;
        return Error;
      }
      numElems := reply.count;
      if reply.overrun {
        rxOverflow := true;
      }
      if cmd.numElems > 0 {
        cmd := cmd.(numElems := cmd.numElems - numElems);
        rxCmds := rxCmds[0 := cmd];
        if cmd.numElems == 0 {
          rxCmds := rxCmds[1..];
        }
      }
      rxNextTicks := reply.timestamp + numElems;
      rx := next;
      r := Elements(numElems, reply.timestamp);
    }

    /** writeStream; now is the device time and outcome the device's answer. Returns the number of elements sent, or -1
        for an error, and the flag as the caller sees it afterwards. */
    method WriteStream(data: seq<T.Sample>, hasTime: bool, ticks: int, endBurst: bool, now: int, outcome: T.Outcome)
      returns (r: int, endFlag: bool)
      requires Valid()
      modifies this`inTxBurst, this`txNextTicks, this`txResps, this`tx
      ensures Valid() && tx == T.Apply(old(tx), T.WriteStream(data, hasTime, ticks, endBurst, now, outcome))
      ensures endFlag == (endBurst && |data| <= txBuffSize)
      ensures r == if outcome.Accepted? then Min(|data|, txBuffSize) else -1
    {
      tx := T.Apply(tx, T.WriteStream(data, hasTime, ticks, endBurst, now, outcome));
      endFlag := endBurst;
      if |data| > txBuffSize {
        endFlag := false;
      }
      var numElems := Min(|data|, txBuffSize);
      if inTxBurst {
        if hasTime {
          txNextTicks := ticks;
        }
      } else {
        txNextTicks := if hasTime then ticks else now;
      }
      if !outcome.Accepted? {
        return -1, endFlag;
      }
      txNextTicks := txNextTicks + numElems;
      inTxBurst := true;
      if outcome.underrun {
        txResps := txResps + [T.Underflow];
      }
      if endFlag {
        txResps := txResps + [T.EndOfBurst(txNextTicks)];
        inTxBurst := false;
      }
      r := numElems;
    }

    /** readStreamStatus once its polling is over. */
    method ReadStreamStatus() returns (found: bool, resp: T.Response)
      requires Valid()
      modifies this`txResps, this`tx
      ensures Valid() && tx == T.Apply(old(tx), T.ReadStatus)
      ensures found <==> old(txResps) != []
      ensures found ==> resp == old(txResps)[0] && txResps == old(txResps)[1..]
    {
      tx := T.Apply(tx, T.ReadStatus);
      found, resp := txResps != [], T.Underflow;
      if found {
        resp := txResps[0];
        txResps := txResps[1..];
      }
    }
  }

  // ---- Two channels in one buffer ----

  /** n elements of two channels, an I and a Q word each, in turn. */
  function Interleaved(ch0: seq<int>, ch1: seq<int>, n: nat): (conv: seq<int>)
    requires |ch0| == |ch1| == 2 * n
    ensures |conv| == 4 * n
  {
    if n == 0 then [] else [ch0[0], ch0[1], ch1[0], ch1[1]] + Interleaved(ch0[2..], ch1[2..], n - 1)
  }

  /** The words of one channel in an interleaved buffer of n elements. */
  function Channel(conv: seq<int>, which: nat, n: nat): (ch: seq<int>)
    requires |conv| == 4 * n && which < 2
    ensures |ch| == 2 * n
  {
    if n == 0 then [] else [conv[2 * which], conv[2 * which + 1]] + Channel(conv[4..], which, n - 1)
  }

  /** Sending two channels and receiving them back changes nothing and mixes nothing. */
  lemma {:induction false} ChannelsRoundTrip(ch0: seq<int>, ch1: seq<int>, n: nat)
    requires |ch0| == |ch1| == 2 * n
    ensures Channel(Interleaved(ch0, ch1, n), 0, n) == ch0 && Channel(Interleaved(ch0, ch1, n), 1, n) == ch1
    decreases n
  {
    if n > 0 {
      ChannelsRoundTrip(ch0[2..], ch1[2..], n - 1);
      assert Interleaved(ch0, ch1, n)[4..] == Interleaved(ch0[2..], ch1[2..], n - 1);
    }
  }

  lemma {:induction false} InterleavedAt(ch0: seq<int>, ch1: seq<int>, n: nat, j: nat)
    requires |ch0| == |ch1| == 2 * n && j < n
    ensures var conv := Interleaved(ch0, ch1, n);
            && conv[4 * j] == ch0[2 * j] && conv[4 * j + 1] == ch0[2 * j + 1]
            && conv[4 * j + 2] == ch1[2 * j] && conv[4 * j + 3] == ch1[2 * j + 1]
    decreases j
  {
    if j > 0 {
      InterleavedAt(ch0[2..], ch1[2..], n - 1, j - 1);
    }
  }

  lemma {:induction false} ChannelAt(conv: seq<int>, which: nat, n: nat, j: nat)
    requires |conv| == 4 * n && which < 2 && j < n
    ensures Channel(conv, which, n)[2 * j] == conv[4 * j + 2 * which]
    ensures Channel(conv, which, n)[2 * j + 1] == conv[4 * j + 2 * which + 1]
    decreases j
  {
    if j > 0 {
      ChannelAt(conv[4..], which, n - 1, j - 1);
    }
  }

  /** The transmit conversion loop for two integer channels, n elements each. */
  method Interleave(input0: seq<int>, input1: seq<int>, conv: array<int>, n: nat)
    requires |input0| == 2 * n && |input1| == 2 * n && conv.Length >= 4 * n
    modifies conv
    ensures conv[..4 * n] == Interleaved(input0, input1, n)
    ensures forall j :: 0 <= j < n ==> conv[4 * j] == input0[2 * j] && conv[4 * j + 1] == input0[2 * j + 1]
    ensures forall j :: 0 <= j < n ==> conv[4 * j + 2] == input1[2 * j] && conv[4 * j + 3] == input1[2 * j + 1]
    ensures conv[4 * n..] == old(conv[4 * n..])
  {
    hide Interleaved;
    ghost var goal := Interleaved(input0, input1, n);
    for j := 0 to n
      invariant forall w :: 0 <= w < 4 * j ==> conv[w] == goal[w]
      invariant forall w :: 4 * n <= w < conv.Length ==> conv[w] == old(conv[w])
    {
      InterleavedAt(input0, input1, n, j);
      conv[4 * j] := input0[2 * j];
      conv[4 * j + 1] := input0[2 * j + 1];
      conv[4 * j + 2] := input1[2 * j];
      conv[4 * j + 3] := input1[2 * j + 1];
    }
    forall j | 0 <= j < n
      ensures goal[4 * j] == input0[2 * j] && goal[4 * j + 1] == input0[2 * j + 1]
      ensures goal[4 * j + 2] == input1[2 * j] && goal[4 * j + 3] == input1[2 * j + 1]
    {
      InterleavedAt(input0, input1, n, j);
    }
  }

  /** The receive conversion loop for two integer channels. */
  method Deinterleave(conv: seq<int>, output0: array<int>, output1: array<int>, n: nat)
    requires |conv| == 4 * n && output0.Length >= 2 * n && output1.Length >= 2 * n && output0 != output1
    modifies output0, output1
    ensures output0[..2 * n] == Channel(conv, 0, n) && output1[..2 * n] == Channel(conv, 1, n)
    ensures forall j :: 0 <= j < n ==> output0[2 * j] == conv[4 * j] && output0[2 * j + 1] == conv[4 * j + 1]
    ensures forall j :: 0 <= j < n ==> output1[2 * j] == conv[4 * j + 2] && output1[2 * j + 1] == conv[4 * j + 3]
  {
    hide Channel;
    ghost var goal0, goal1 := Channel(conv, 0, n), Channel(conv, 1, n);
    for j := 0 to n
      invariant forall w :: 0 <= w < 2 * j ==> output0[w] == goal0[w]
      invariant forall w :: 0 <= w < 2 * j ==> output1[w] == goal1[w]
    {
      ChannelAt(conv, 0, n, j);
      ChannelAt(conv, 1, n, j);
      output0[2 * j] := conv[4 * j];
      output0[2 * j + 1] := conv[4 * j + 1];
      output1[2 * j] := conv[4 * j + 2];
      output1[2 * j + 1] := conv[4 * j + 3];
    }
    forall j | 0 <= j < n
      ensures goal0[2 * j] == conv[4 * j] && goal0[2 * j + 1] == conv[4 * j + 1]
      ensures goal1[2 * j] == conv[4 * j + 2] && goal1[2 * j + 1] == conv[4 * j + 3]
    {
      ChannelAt(conv, 0, n, j);
      ChannelAt(conv, 1, n, j);
    }
  }
}
