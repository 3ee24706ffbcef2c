/** NetSDR receive: readStream serves any requested size from packets of one fixed size, keeping the rest of a
    packet for the next call. */
module NetSdrReceive {
  import opened Sequences

  type Sample = real

  /** What one receive from the socket yields: the elements of a data packet, or nothing usable (an error, or a packet
      that is not data). */
  datatype Datagram = Packet(elems: seq<Sample>) | Useless

  datatype Wait = Ready | TimedOut | Broken

  /** The fields; as history the elements reported to the caller and what the socket yielded. */
  datatype Net = Net(datasize: nat, save: seq<Sample>, count: nat, got: seq<Sample>, received: seq<Datagram>)

  /** numElems requested, the answer of select, and what the socket yields from then on. */
  datatype Call = Call(numElems: nat, wait: Wait, feed: seq<Datagram>)

  datatype Result = Elements(out: seq<Sample>) | Timeout | StreamError

  function Init(datasize: nat, save: seq<Sample>): Net {
    Net(datasize, save, 0, [], [])
  }

  /** The elements left over from earlier packets, of which the first `from` have been used. */
  function Saved(s: Net): seq<Sample>
    requires s.count <= s.datasize <= |s.save|
  {
    s.save[s.datasize - s.count..s.datasize]
  }

  /** The whole-packet loop: the elements it collects, and how much of the feed it uses. */
  function WholePackets(datasize: nat, nn: nat, feed: seq<Datagram>): (r: (seq<Sample>, nat))
    requires datasize > 0 && Uniform(feed, datasize)
    ensures r.1 <= |feed| && |r.0| <= nn
    decreases |feed|
  {
    if nn < datasize || feed == [] then ([], 0)
    else match feed[0]
      case Packet(elems) =>
        assert |elems| == datasize;
        var (more, used) := WholePackets(datasize, nn - datasize, feed[1..]);
        (elems + more, used + 1)
      case Useless =>
        var (more, used) := WholePackets(datasize, nn, feed[1..]);
        (more, used + 1)
  }

  /** Every packet carries exactly datasize elements. */
  predicate Uniform(feed: seq<Datagram>, datasize: nat) {
    forall i :: 0 <= i < |feed| && feed[i].Packet? ==> |feed[i].elems| == datasize
  }

  /** The elements of the packets in a feed. */
  function Content(feed: seq<Datagram>): seq<Sample> {
    if feed == [] then []
    else (match feed[0] case Packet(elems) => elems case Useless => []) + Content(feed[1..])
  }

  /** The call gets past its loops: the socket yields enough. */
  predicate Returns(s: Net, c: Call)
    requires s.datasize > 0 && Uniform(c.feed, s.datasize)
  {
    var nn := c.numElems - Min(c.numElems, s.count);
    nn > 0 && c.wait.Ready? ==>
      var (whole, used) := WholePackets(s.datasize, nn, c.feed);
      nn - |whole| < s.datasize && (nn > |whole| ==> used < |c.feed|)
  }

  predicate Legal(s: Net, c: Call) {
    s.datasize > 0 && s.count <= s.datasize <= |s.save| && Uniform(c.feed, s.datasize) && Returns(s, c)
  }

  /** readStream. */
  function Read(s: Net, c: Call): (Net, Result)
    requires Legal(s, c)
  {
    var k := Min(c.numElems, s.count);
    var first := Saved(s)[..k];
    var t := s.(count := s.count - k);
    if k == c.numElems then Report(t, first)
    else match c.wait
      case Broken => (t, StreamError)
      case TimedOut => if k > 0 then Report(t, first) else (t, Timeout)
      case Ready => Refill(t, first, c.numElems - k, c.feed)
  }

  function Report(s: Net, out: seq<Sample>): (Net, Result) {
    (s.(got := s.got + out), Elements(out))
  }

  /** The part of readStream after select, nn elements still missing. */
  function Refill(s: Net, first: seq<Sample>, nn: nat, feed: seq<Datagram>): (Net, Result)
    requires s.datasize > 0 && s.datasize <= |s.save| && Uniform(feed, s.datasize)
    requires var w := WholePackets(s.datasize, nn, feed);
             nn - |w.0| < s.datasize && (nn > |w.0| ==> w.1 < |feed|)
  {
    var (whole, used) := WholePackets(s.datasize, nn, feed);
    var left := nn - |whole|;
    var t := s.(received := s.received + feed[..if left == 0 then used else used + 1]);
    if left == 0 then Report(t, first + whole)
    else match feed[used]
      case Packet(elems) =>
        assert |elems| == s.datasize;
        Report(t.(save := elems + s.save[s.datasize..], count := s.datasize - left),
               first + whole + elems[..left])
      case Useless => Report(t, first + whole)
  }

  // ---- What the socket yielded ----

  lemma {:induction false} ContentConcat(a: seq<Datagram>, b: seq<Datagram>)
    ensures Content(a + b) == Content(a) + Content(b)
    decreases |a|
  {
    if a == [] {
      assert a + b == b;
    } else {
      assert (a + b)[1..] == a[1..] + b && (a + b)[0] == a[0];
      ContentConcat(a[1..], b);
    }
  }

  /** The whole-packet loop takes the packets' elements in order, whatever useless datagrams lie between. */
  lemma {:induction false} WholePacketsInOrder(datasize: nat, nn: nat, feed: seq<Datagram>)
    requires datasize > 0 && Uniform(feed, datasize)
    ensures var (whole, used) := WholePackets(datasize, nn, feed); whole == Content(feed[..used])
    decreases |feed|
  {
    if nn >= datasize && feed != [] {
      var nn' := if feed[0].Packet? then nn - datasize else nn;
      WholePacketsInOrder(datasize, nn', feed[1..]);
      var used := WholePackets(datasize, nn', feed[1..]).1;
      assert feed[..used + 1][1..] == feed[1..][..used];
      assert feed[..used + 1][0] == feed[0];
    }
  }

  /** The content of a received stretch, with or without the datagram that readStream saves. */
  lemma TakenContent(datasize: nat, nn: nat, feed: seq<Datagram>)
    requires datasize > 0 && Uniform(feed, datasize)
    ensures var (whole, used) := WholePackets(datasize, nn, feed);
            && Content(feed[..used]) == whole
            && (used < |feed| ==>
                  Content(feed[..used + 1]) == whole + (if feed[used].Packet? then feed[used].elems else []))
  {
    hide WholePackets;
    WholePacketsInOrder(datasize, nn, feed);
    var used := WholePackets(datasize, nn, feed).1;
    if used < |feed| {
      assert feed[..used + 1] == feed[..used] + [feed[used]];
      ContentConcat(feed[..used], [feed[used]]);
      assert Content([feed[used]]) == (match feed[used] case Packet(elems) => elems case Useless => []) + Content([]);
    }
  }

  // ---- What every call keeps ----

  predicate Bounded(s: Net) {
    0 < s.datasize <= |s.save| && s.count <= s.datasize
  }

  /** What was reported and what is saved are together all elements received. */
  predicate Complete(s: Net)
    requires Bounded(s)
  {
    Content(s.received) == s.got + Saved(s)
  }

  /** select fails although saved elements were already copied out. */
  predicate LosesElements(s: Net, c: Call) {
    c.wait.Broken? && 0 < s.count < c.numElems
  }

  /** How many elements are neither reported nor saved. */
  function Missing(s: Net): int
    requires Bounded(s)
  {
    |Content(s.received)| - |s.got| - |Saved(s)|
  }

  /** The elements a call loses. */
  function Loss(s: Net, c: Call): nat {
    if LosesElements(s, c) then s.count else 0
  }

  lemma RefillKeeps(s: Net, first: seq<Sample>, nn: nat, feed: seq<Datagram>)
    requires Bounded(s) && s.count == 0 && Uniform(feed, s.datasize)
    requires var w := WholePackets(s.datasize, nn, feed);
             nn - |w.0| < s.datasize && (nn > |w.0| ==> w.1 < |feed|)
    ensures var t := Refill(s, first, nn, feed).0;
            && Bounded(t) && |t.got| + |Saved(t)| - |Content(t.received)| == |s.got + first| - |Content(s.received)|
            && (s.got + first == Content(s.received) ==> Complete(t))
  {
    hide WholePackets, Content;
    var (whole, used) := WholePackets(s.datasize, nn, feed);
    TakenContent(s.datasize, nn, feed);
    var left := nn - |whole|;
    var t := Refill(s, first, nn, feed).0;
    ContentConcat(s.received, feed[..if left == 0 then used else used + 1]);
    if left > 0 && feed[used].Packet? {
      var elems := feed[used].elems;
      assert |elems| == s.datasize;
      assert Saved(t) == elems[left..];
      assert t.got == s.got + (first + whole + elems[..left]);
      assert t.got + Saved(t) == (s.got + first) + (whole + elems);
    } else {
      assert Saved(t) == [];
      assert t.got + Saved(t) == (s.got + first) + whole;
    }
  }

  /** One call, on any answer of select: it adds exactly its loss to what is missing. */
  lemma ReadKeeps(s: Net, c: Call)
    requires Bounded(s) && Legal(s, c)
    ensures var t := Read(s, c).0;
            && Bounded(t) && Missing(t) == Missing(s) + Loss(s, c)
            && (Complete(s) && !LosesElements(s, c) ==> Complete(t))
  {
    hide WholePackets, Content;
    var k := Min(c.numElems, s.count);
    var rest := s.(count := s.count - k);
    assert Saved(s) == Saved(s)[..k] + Saved(rest);
    if k == c.numElems || c.wait.TimedOut? {
      assert (s.got + Saved(s)[..k]) + Saved(rest) == s.got + Saved(s);
    } else if c.wait.Ready? {
      assert Saved(s)[..k] == Saved(s);
      RefillKeeps(rest, Saved(s)[..k], c.numElems - k, c.feed);
    }
  }

  /** When select fails with elements already copied out, exactly those are lost. */
  lemma BrokenSelectLoses(s: Net, c: Call)
    requires Bounded(s) && Complete(s) && Legal(s, c) && LosesElements(s, c)
    ensures var t := Read(s, c).0;
            && Read(s, c).1 == StreamError && Saved(s) != [] && t.count == 0
            && Content(t.received) == t.got + Saved(s)
  {
  }

  /** What a call returns: as many elements as asked for, unless the wait timed out with fewer saved or the last
      datagram was not usable; a timeout only with nothing to return; and an error only if select failed. */
  lemma ReadReturns(s: Net, c: Call)
    requires Bounded(s) && Legal(s, c)
    ensures var (t, r) := Read(s, c);
            && (r.StreamError? <==> c.wait.Broken? && s.count < c.numElems)
            && (r.Timeout? <==> c.wait.TimedOut? && s.count == 0 < c.numElems)
            && t.got == s.got + (if r.Elements? then r.out else [])
            && (r.Elements? ==>
                  && |r.out| <= c.numElems
                  && (|r.out| < c.numElems ==>
                        || (c.wait.TimedOut? && |r.out| == s.count)
                        || (c.wait.Ready? && t.received != [] && t.received[|t.received| - 1].Useless? &&
                            c.numElems - |r.out| < s.datasize)))
  {
    hide WholePackets, Content;
    var k := Min(c.numElems, s.count);
    var w := WholePackets(s.datasize, c.numElems - k, c.feed);
    if c.wait.Ready? && k < c.numElems && c.numElems - k > |w.0| && c.feed[w.1].Useless? {
      var t := Read(s, c).0;
      assert t.received == s.received + c.feed[..w.1 + 1];
      assert t.received[|t.received| - 1] == c.feed[w.1];
    }
  }

  // ---- Every run ----

  predicate Run(s: Net, calls: seq<Call>, t: Net)
    decreases |calls|
  {
    if calls == [] then s == t else Legal(s, calls[0]) && Run(Read(s, calls[0]).0, calls[1..], t)
  }

  /** No call of the run loses elements. */
  predicate NeverLoses(s: Net, calls: seq<Call>)
    decreases |calls|
  {
    calls != [] && Legal(s, calls[0]) ==>
      !LosesElements(s, calls[0]) && NeverLoses(Read(s, calls[0]).0, calls[1..])
  }

  /** The elements the calls of a run lose. */
  function Lost(s: Net, calls: seq<Call>): nat
    decreases |calls|
  {
    if calls != [] && Legal(s, calls[0])
    then Loss(s, calls[0]) + Lost(Read(s, calls[0]).0, calls[1..])
    else 0
  }

  lemma {:induction false} RunKeeps(s: Net, calls: seq<Call>, t: Net)
    requires Bounded(s) && Run(s, calls, t)
    ensures Bounded(t) && Missing(t) == Missing(s) + Lost(s, calls)
    ensures NeverLoses(s, calls) <==> Lost(s, calls) == 0
    ensures Complete(s) && NeverLoses(s, calls) ==> Complete(t)
    decreases |calls|
  {
    hide Complete, Missing, Bounded, Read, Legal;
    if calls != [] {
      ReadKeeps(s, calls[0]);
      RunKeeps(Read(s, calls[0]).0, calls[1..], t);
    }
  }

  /** Over any sequence of read sizes, answers of select and datagrams: what was returned followed by the saved
      elements, at offset datasize - datacount, is everything the socket delivered, in order, exactly if no call of
      the run fails in select after copying saved elements out; and what is missing otherwise is what those calls
      had copied. */
  lemma ChunkingTransparent(datasize: nat, save: seq<Sample>, calls: seq<Call>, t: Net)
    requires 0 < datasize <= |save| && Run(Init(datasize, save), calls, t)
    ensures t.count <= t.datasize <= |t.save|
    ensures Content(t.received) == t.got + Saved(t) <==> NeverLoses(Init(datasize, save), calls)
    ensures NeverLoses(Init(datasize, save), calls) ==> t.got <= Content(t.received)
    ensures |Content(t.received)| == |t.got| + |Saved(t)| + Lost(Init(datasize, save), calls)
  {
    hide Run, NeverLoses, Lost;
    var s := Init(datasize, save);
    assert Content(s.received) == s.got + Saved(s);
    RunKeeps(s, calls, t);
  }

  /** Such a call happens: read one element of a packet, then ask for the rest and more while select fails. */
  lemma LossReachable(datasize: nat, save: seq<Sample>, elems: seq<Sample>)
    requires 2 <= datasize <= |save| && |elems| == datasize
    ensures exists calls, t :: Run(Init(datasize, save), calls, t) && t.got == elems[..1] && t.count == 0 &&
                               Content(t.received) == elems
  {
    var a, b := Call(1, Ready, [Packet(elems)]), Call(datasize, Broken, []);
    var s := Init(datasize, save);
    assert WholePackets(datasize, 1, a.feed) == ([], 0);
    assert Saved(s)[..0] == [];
    var m := Read(s, a).0;
    assert m.got == [] + ([] + [] + elems[..1]);
    assert m.received == [Packet(elems)];
    var t := Read(m, b).0;
    assert Content([Packet(elems)]) == elems + Content([]);
    assert Run(m, [b], t) by {
      assert Run(t, [b][1..], t);
    }
    assert [a, b][1..] == [b];
    assert Run(s, [a, b], t);
  }
}
