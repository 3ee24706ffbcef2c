/** The NetSDR receiver object: readStream with its copies and loops over the caller's buffer and the saved packet. */
module NetSdrStream {
  import opened Sequences
  import opened NetSdrReceive

  class Receiver {
    const datasize: nat
    const datasave: array<Sample>
    var datacount: nat
    ghost var model: Net

    ghost predicate Valid()
      reads this, datasave
    {
      && 0 < datasize <= datasave.Length && datacount <= datasize
      && model.datasize == datasize && model.count == datacount && model.save == datasave[..]
    }

    constructor (datasize: nat, datasave: array<Sample>)
      requires 0 < datasize <= datasave.Length
      ensures Valid() && this.datasize == datasize && this.datasave == datasave && model == Init(datasize, datasave[..])
    {
      this.datasize, this.datasave, this.datacount := datasize, datasave, 0;
      this.model := Init(datasize, datasave[..]);
    }

    /** memcpy. */
    static method CopyTo(dst: array<Sample>, at: nat, src: seq<Sample>)
      requires at + |src| <= dst.Length
      modifies dst
      ensures dst[..] == old(dst[..at]) + src + old(dst[at + |src|..])
    {
      for i := 0 to |src|
        invariant forall j :: 0 <= j < i ==> dst[at + j] == src[j]
        invariant forall w :: 0 <= w < dst.Length && !(at <= w < at + i) ==> dst[w] == old(dst[w])
      {
        dst[at + i] := src[i];
      }
    }

    /** processUDP, for packets already decoded: writes a packet's elements and returns how many, or 0. */
    static method ProcessUdp(dst: array<Sample>, at: nat, d: Datagram) returns (ret: nat)
      requires d.Packet? ==> at + |d.elems| <= dst.Length
      modifies dst
      ensures d.Useless? ==> ret == 0 && dst[..] == old(dst[..])
      ensures d.Packet? ==> ret == |d.elems| && dst[..] == old(dst[..at]) + d.elems + old(dst[at + ret..])
    {
      if d.Useless? {
        return 0;
      }
      CopyTo(dst, at, d.elems);
      return |d.elems|;
    }

    /** The loop over whole packets, from position `at` of out, nn elements missing. */
    method CopyWhole(out: array<Sample>, at: nat, nn: nat, feed: seq<Datagram>) returns (pos: nat, used: nat)
      requires datasize > 0 && Uniform(feed, datasize) && at + nn <= out.Length
      modifies out
      ensures var w := WholePackets(datasize, nn, feed);
              pos == at + |w.0| && used == w.1 && pos <= out.Length && out[..pos] == old(out[..at]) + w.0
    {
      hide WholePackets, Uniform;
      ghost var w := WholePackets(datasize, nn, feed);
      ghost var done: seq<Sample> := [];
      var missing: nat := nn;
      pos, used := at, 0;
      assert feed[0..] == feed;
      assert out[..pos] == old(out[..at]) + done;
      while missing >= datasize && used < |feed|
        invariant used <= |feed| && pos == at + |done| && pos + missing == at + nn
        invariant out[..pos] == old(out[..at]) + done
        invariant Uniform(feed[used..], datasize)
        invariant var m := WholePackets(datasize, missing, feed[used..]); w.0 == done + m.0 && w.1 == used + m.1
        decreases |feed| - used
      {
        WholeStep(datasize, missing, feed, used, done);
        ghost var before := out[..pos];
        var ret := ProcessUdp(out, pos, feed[used]);
        if ret > 0 {
          assert out[..pos + ret] == before + feed[used].elems;
          assert before + feed[used].elems == old(out[..at]) + (done + feed[used].elems);
          done := done + feed[used].elems;
          pos := pos + ret;
          missing := missing - ret;
        }
        used := used + 1;
      }
      WholeEnd(datasize, missing, feed[used..]);
      assert done + [] == done;
    }

    /** readStream. A call that would wait for ever is outside its precondition. */
    method ReadStream(out: array<Sample>, c: Call) returns (ret: int)
      requires Valid() && Legal(model, c) && out != datasave && c.numElems <= out.Length
      modifies this, datasave, out
      ensures Valid() && model == Read(old(model), c).0
      ensures match Read(old(model), c).1
              case Elements(elems) => ret == |elems| && ret <= out.Length && out[..ret] == elems
              case Timeout => ret == -1
              case StreamError => ret == -2
    {
      hide WholePackets;
      ghost var s := model;
      model := Read(s, c).0;
      var offs := datasize - datacount;
      var k := Min(c.numElems, datacount);
      CopyTo(out, 0, datasave[offs..offs + k]);
      ghost var first := Saved(s)[..k];
      assert out[..k] == first;
      datacount := datacount - k;
      var nn := c.numElems - k;
      if nn == 0 {
        return c.numElems;
      }
      if c.wait.Broken? {
        return -2;
      }
      if c.wait.TimedOut? {
        return if k > 0 then k else -1;
      }
      ret := Finish(out, k, nn, c.feed, first, s.(count := s.count - k));
    }

    /** The part of readStream after select. */
    method Finish(out: array<Sample>, k: nat, nn: nat, feed: seq<Datagram>, ghost first: seq<Sample>, ghost s: Net)
      returns (ret: int)
      requires s.datasize == datasize && s.count == datacount == 0 && s.save == datasave[..]
      requires 0 < datasize <= datasave.Length && Uniform(feed, datasize)
      requires var w := WholePackets(datasize, nn, feed);
               nn - |w.0| < datasize && (nn > |w.0| ==> w.1 < |feed|)
      requires out != datasave && k + nn <= out.Length && out[..k] == first && nn > 0
      requires model == Refill(s, first, nn, feed).0
      modifies this`datacount, datasave, out
      ensures Valid() && model == Refill(s, first, nn, feed).0
      ensures var r := Refill(s, first, nn, feed).1;
              r.Elements? && ret == |r.out| && ret <= out.Length && out[..ret] == r.out
    {
      hide WholePackets;
      var pos, used := CopyWhole(out, k, nn, feed);
      ghost var whole := WholePackets(datasize, nn, feed).0;
      assert out[..pos] == first + whole;
      var left := k + nn - pos;
      if left > 0 {
        var got := ProcessUdp(datasave, 0, feed[used]);
        if got > 0 {
          ghost var elems := feed[used].elems;
          assert datasave[..] == elems + s.save[datasize..];
          ghost var before := out[..];
          CopyTo(out, pos, datasave[..left]);
          assert datasave[..left] == elems[..left];
          AppendedPrefix(before, pos, elems[..left], out[..]);
          assert out[..][..pos + left] == out[..pos + left] && before[..pos] == first + whole;
          datacount := got - left;
          left := 0;
        }
      }
      ret := k + nn - left;
    }
  }

  /** One round of the whole-packet loop, with `done` collected before it. */
  lemma WholeStep(datasize: nat, nn: nat, feed: seq<Datagram>, used: nat, done: seq<Sample>)
    requires used < |feed| && 0 < datasize <= nn && Uniform(feed[used..], datasize)
    ensures Uniform(feed[used + 1..], datasize)
    ensures var m := WholePackets(datasize, nn, feed[used..]);
            match feed[used]
            case Packet(elems) =>
              && |elems| == datasize
              && var r := WholePackets(datasize, nn - datasize, feed[used + 1..]);
                 done + m.0 == (done + elems) + r.0 && m.1 == r.1 + 1
            case Useless =>
              var r := WholePackets(datasize, nn, feed[used + 1..]); m.0 == r.0 && m.1 == r.1 + 1
  {
    assert feed[used..][0] == feed[used] && feed[used..][1..] == feed[used + 1..];
  }

  lemma WholeEnd(datasize: nat, nn: nat, feed: seq<Datagram>)
    requires datasize > 0 && Uniform(feed, datasize) && (nn < datasize || feed == [])
    ensures WholePackets(datasize, nn, feed) == ([], 0)
  {
  }

  lemma AppendedPrefix(before: seq<Sample>, at: nat, src: seq<Sample>, after: seq<Sample>)
    requires at + |src| <= |before| && after == before[..at] + src + before[at + |src|..]
    ensures |after| == |before| && after[..at + |src|] == before[..at] + src
  {
  }
}
