/** A wrapper that presents several devices as one: global channels are mapped to devices, a stream over any list of
    channels is cut into one stream per run of equal devices, and buffers and status masks follow the cuts. */
module MultiRouting {
  /** A device, identified by its pointer, and its number of channels in one direction. */
  datatype Device = Device(ptr: nat, channels: nat)

  datatype Channel = Channel(local: nat, ptr: nat)

  /** One entry of the stream data: a device and the local channels streamed from it. */
  datatype Group = Group(ptr: nat, channels: seq<nat>)

  // ---- The channel map ----

  function ChannelsOf(d: Device): (cs: seq<Channel>)
    ensures |cs| == d.channels
  {
    seq(d.channels, ch requires 0 <= ch < d.channels => Channel(ch, d.ptr))
  }

  function ChanMap(devs: seq<Device>): seq<Channel> {
    if devs == [] then [] else ChanMap(devs[..|devs| - 1]) + ChannelsOf(devs[|devs| - 1])
  }

  class Wrapper {
    var rx: seq<Device>
    var tx: seq<Device>
    var rxChanMap: seq<Channel>
    var txChanMap: seq<Channel>

    /** reloadChanMaps; rx and tx list the same devices with their numbers of channels in each direction. */
    method ReloadChanMaps()
      requires |rx| == |tx|
      modifies this`rxChanMap, this`txChanMap
      ensures rxChanMap == ChanMap(rx) && txChanMap == ChanMap(tx)
    {
      rxChanMap, txChanMap := [], [];
      for i := 0 to |rx|
        invariant rxChanMap == ChanMap(rx[..i]) && txChanMap == ChanMap(tx[..i])
      {
        assert rx[..i + 1][..i] == rx[..i] && tx[..i + 1][..i] == tx[..i];
        for ch := 0 to rx[i].channels
          invariant rxChanMap == ChanMap(rx[..i]) + ChannelsOf(rx[i])[..ch] && txChanMap == ChanMap(tx[..i])
        {
          rxChanMap := rxChanMap + [Channel(ch, rx[i].ptr)];
        }
        for ch := 0 to tx[i].channels
          invariant txChanMap == ChanMap(tx[..i]) + ChannelsOf(tx[i])[..ch]
          invariant rxChanMap == ChanMap(rx[..i + 1])
        {
          txChanMap := txChanMap + [Channel(ch, tx[i].ptr)];
        }
      }
      assert rx[..|rx|] == rx && tx[..|tx|] == tx;
    }
  }

  ghost predicate DistinctDevices(devs: seq<Device>) {
    forall i, j :: 0 <= i < j < |devs| ==> devs[i].ptr != devs[j].ptr
  }

  /** The global number of a device's first channel. */
  function FirstChannel(devs: seq<Device>, d: nat): nat
    requires d <= |devs|
  {
    if d == 0 then 0 else FirstChannel(devs, d - 1) + devs[d - 1].channels
  }

  lemma {:induction false} ChanMapAt(devs: seq<Device>, d: nat, ch: nat)
    requires d < |devs| && ch < devs[d].channels
    ensures FirstChannel(devs, d) + ch < |ChanMap(devs)|
    ensures ChanMap(devs)[FirstChannel(devs, d) + ch] == Channel(ch, devs[d].ptr)
  {
    var n := |devs| - 1;
    MapLength(devs[..n]);
    FirstPrefix(devs, n, n);
    if d < n {
      ChanMapAt(devs[..n], d, ch);
      FirstPrefix(devs, n, d);
    }
  }

  lemma {:induction false} MapLength(devs: seq<Device>)
    ensures |ChanMap(devs)| == FirstChannel(devs, |devs|)
  {
    if devs != [] {
      var n := |devs| - 1;
      MapLength(devs[..n]);
      FirstPrefix(devs, n, n);
    }
  }

  lemma {:induction false} FirstPrefix(devs: seq<Device>, n: nat, d: nat)
    requires d <= n <= |devs|
    ensures FirstChannel(devs[..n], d) == FirstChannel(devs, d)
  {
    if d > 0 {
      FirstPrefix(devs, n, d - 1);
    }
  }

  /** Every global channel is some device's local channel. */
  lemma {:induction false} ChanMapOnto(devs: seq<Device>, g: nat) returns (d: nat, ch: nat)
    requires g < |ChanMap(devs)|
    ensures d < |devs| && ch < devs[d].channels && g == FirstChannel(devs, d) + ch
  {
    var n := |devs| - 1;
    MapLength(devs[..n]);
    FirstPrefix(devs, n, n);
    if g < |ChanMap(devs[..n])| {
      d, ch := ChanMapOnto(devs[..n], g);
      FirstPrefix(devs, n, d);
    } else {
      d, ch := n, g - |ChanMap(devs[..n])|;
    }
  }

  /** For distinct devices the channel map is a bijection onto the pairs of a device and one of its channels: every
      such pair is an entry, every entry is one, and no two entries are equal. */
  lemma ChanMapBijective(devs: seq<Device>)
    requires DistinctDevices(devs)
    ensures forall d, ch :: 0 <= d < |devs| && 0 <= ch < devs[d].channels ==> Channel(ch, devs[d].ptr) in ChanMap(devs)
    ensures forall c :: c in ChanMap(devs) ==>
              exists d :: 0 <= d < |devs| && devs[d].ptr == c.ptr && c.local < devs[d].channels
    ensures forall g, h :: 0 <= g < h < |ChanMap(devs)| ==> ChanMap(devs)[g] != ChanMap(devs)[h]
  {
    forall d, ch | 0 <= d < |devs| && 0 <= ch < devs[d].channels ensures Channel(ch, devs[d].ptr) in ChanMap(devs) {
      ChanMapAt(devs, d, ch);
    }
    forall c | c in ChanMap(devs)
      ensures exists d :: 0 <= d < |devs| && devs[d].ptr == c.ptr && c.local < devs[d].channels
    {
      var g :| 0 <= g < |ChanMap(devs)| && ChanMap(devs)[g] == c;
      var d, ch := ChanMapOnto(devs, g);
      ChanMapAt(devs, d, ch);
    }
    forall g, h | 0 <= g < h < |ChanMap(devs)| ensures ChanMap(devs)[g] != ChanMap(devs)[h] {
      var d, ch := ChanMapOnto(devs, g);
      var d', ch' := ChanMapOnto(devs, h);
      ChanMapAt(devs, d, ch);
      ChanMapAt(devs, d', ch');
    }
  }

  // ---- Groups ----

  datatype Setup = Streams(groups: seq<Group>) | OutOfRange

  /** The entries of the requested channels; an empty request means channel 0. */
  function Requests(chanMap: seq<Channel>, channels: seq<nat>): seq<Channel>
    requires forall i :: 0 <= i < |Request(channels)| ==> Request(channels)[i] < |chanMap|
  {
    seq(|Request(channels)|, i requires 0 <= i < |Request(channels)| => chanMap[Request(channels)[i]])
  }

  function Request(channels: seq<nat>): seq<nat> {
    if channels == [] then [0] else channels
  }

  function AddChannel(gs: seq<Group>, c: Channel): seq<Group> {
    if gs == [] || gs[|gs| - 1].ptr != c.ptr then gs + [Group(c.ptr, [c.local])]
    else gs[|gs| - 1 := Group(c.ptr, gs[|gs| - 1].channels + [c.local])]
  }

  function Grouped(cs: seq<Channel>): seq<Group> {
    if cs == [] then [] else AddChannel(Grouped(cs[..|cs| - 1]), cs[|cs| - 1])
  }

  lemma GroupedSnoc(cs: seq<Channel>, c: Channel)
    ensures Grouped(cs + [c]) == AddChannel(Grouped(cs), c)
  {
    assert (cs + [c])[..|cs + [c]| - 1] == cs;
  }

  /** setupStream up to the creation of the device streams. */
  method SetupStream(chanMap: seq<Channel>, channels: seq<nat>) returns (r: Setup)
    ensures r.Streams? <==> (if channels == [] then chanMap != []
                             else forall i :: 0 <= i < |channels| ==> channels[i] < |chanMap|)
    ensures r.Streams? ==> r.groups == Grouped(Requests(chanMap, channels))
    ensures r.Streams? && channels == [] ==> Spread(r.groups) == [chanMap[0]]
    ensures r.Streams? && channels != [] ==>
              |Spread(r.groups)| == |channels| &&
              forall i :: 0 <= i < |channels| ==> Spread(r.groups)[i] == chanMap[channels[i]]
  {
    hide Spread;
    var request := Request(channels);
    var gs: seq<Group> := [];
    ghost var done: seq<Channel> := [];
    for i := 0 to |request|
      invariant |done| == i && forall j :: 0 <= j < i ==> request[j] < |chanMap| && done[j] == chanMap[request[j]]
      invariant gs == Grouped(done)
    {
      if request[i] >= |chanMap| {
        return OutOfRange;
      }
      var c := chanMap[request[i]];
      ghost var before := gs;
      if gs == [] || gs[|gs| - 1].ptr != c.ptr {
        gs := gs + [Group(c.ptr, [])];
      }
      assert [] + [c.local] == [c.local];
      gs := gs[|gs| - 1 := Group(c.ptr, gs[|gs| - 1].channels + [c.local])];
      assert gs == AddChannel(before, c);
      GroupedSnoc(done, c);
      done := done + [c];
    }
    assert done == Requests(chanMap, channels);
    GroupedCanonical(done);
    assert channels == [] ==> done == [chanMap[0]];
    r := Streams(gs);
  }

  function GroupChannels(g: Group): seq<Channel> {
    seq(|g.channels|, k requires 0 <= k < |g.channels| => Channel(g.channels[k], g.ptr))
  }

  /** The groups written out channel by channel. */
  function Spread(gs: seq<Group>): seq<Channel> {
    if gs == [] then [] else Spread(gs[..|gs| - 1]) + GroupChannels(gs[|gs| - 1])
  }

  /** The number of channels before group g, which is the offset of its buffers and mask bits. */
  function Offset(gs: seq<Group>, g: nat): nat
    requires g <= |gs|
  {
    if g == 0 then 0 else Offset(gs, g - 1) + |gs[g - 1].channels|
  }

  /** No group is empty and neighbours differ in device. */
  ghost predicate Canonical(gs: seq<Group>) {
    && (forall i :: 0 <= i < |gs| ==> gs[i].channels != [])
    && (forall i :: 0 <= i < |gs| - 1 ==> gs[i].ptr != gs[i + 1].ptr)
  }

  lemma SpreadSnoc(gs: seq<Group>, g: Group)
    ensures Spread(gs + [g]) == Spread(gs) + GroupChannels(g)
  {
    assert (gs + [g])[..|gs + [g]| - 1] == gs;
  }

  lemma SpreadAdd(gs: seq<Group>, c: Channel)
    ensures Spread(AddChannel(gs, c)) == Spread(gs) + [c]
  {
    hide Spread;
    if gs == [] || gs[|gs| - 1].ptr != c.ptr {
      SpreadSnoc(gs, Group(c.ptr, [c.local]));
      assert GroupChannels(Group(c.ptr, [c.local])) == [c];
    } else {
      var front, g := gs[..|gs| - 1], gs[|gs| - 1];
      var g' := Group(c.ptr, g.channels + [c.local]);
      assert gs == front + [g] && AddChannel(gs, c) == front + [g'];
      SpreadSnoc(front, g);
      SpreadSnoc(front, g');
      assert GroupChannels(g') == GroupChannels(g) + [c];
    }
  }

  lemma CanonicalAdd(gs: seq<Group>, c: Channel)
    requires Canonical(gs)
    ensures Canonical(AddChannel(gs, c))
  {
  }

  lemma {:induction false} GroupedCanonical(cs: seq<Channel>)
    ensures Spread(Grouped(cs)) == cs && Canonical(Grouped(cs))
  {
    if cs != [] {
      var front, c := cs[..|cs| - 1], cs[|cs| - 1];
      hide Spread, Grouped, AddChannel, Canonical;
      GroupedCanonical(front);
      SpreadAdd(Grouped(front), c);
      CanonicalAdd(Grouped(front), c);
      GroupedSnoc(front, c);
      assert front + [c] == cs;
    }
  }

  /** There is only one way to cut a list of channels like this, so setupStream makes as few streams as possible. */
  lemma {:induction false} CanonicalUnique(gs: seq<Group>)
    requires Canonical(gs)
    ensures Grouped(Spread(gs)) == gs
    decreases |Spread(gs)|
  {
    if gs != [] {
      hide Spread, Grouped;
      var gs', c := Shorten(gs);
      SpreadAdd(gs', c);
      assert |Spread(gs')| < |Spread(gs)|;
      CanonicalUnique(gs');
      GroupedSnoc(Spread(gs'), c);
    } else {
      assert Spread(gs) == [];
    }
  }

  /** Canonical groups without their last channel. */
  lemma Shorten(gs: seq<Group>) returns (gs': seq<Group>, c: Channel)
    requires Canonical(gs) && gs != []
    ensures Canonical(gs') && AddChannel(gs', c) == gs
  {
    var front, g := gs[..|gs| - 1], gs[|gs| - 1];
    var k := |g.channels| - 1;
    c := Channel(g.channels[k], g.ptr);
    if k == 0 {
      gs' := front;
      assert g.channels == [c.local];
    } else {
      gs' := front + [Group(g.ptr, g.channels[..k])];
      assert g.channels[..k] + [c.local] == g.channels;
      assert AddChannel(gs', c) == gs;
    }
  }

  lemma {:induction false} SpreadAt(gs: seq<Group>, g: nat, k: nat)
    requires g < |gs| && k < |gs[g].channels|
    ensures Offset(gs, g) + k < |Spread(gs)|
    ensures Spread(gs)[Offset(gs, g) + k] == Channel(gs[g].channels[k], gs[g].ptr)
    decreases |gs|
  {
    var n := |gs| - 1;
    SpreadLength(gs[..n]);
    OffsetPrefix(gs, n, n);
    if g < n {
      SpreadAt(gs[..n], g, k);
      OffsetPrefix(gs, n, g);
    }
  }

  lemma {:induction false} SpreadLength(gs: seq<Group>)
    ensures |Spread(gs)| == Offset(gs, |gs|)
  {
    if gs != [] {
      var n := |gs| - 1;
      SpreadLength(gs[..n]);
      OffsetPrefix(gs, n, n);
    }
  }

  lemma {:induction false} OffsetPrefix(gs: seq<Group>, n: nat, g: nat)
    requires g <= n <= |gs|
    ensures Offset(gs[..n], g) == Offset(gs, g)
  {
    if g > 0 {
      OffsetPrefix(gs, n, g - 1);
    }
  }

  lemma {:induction false} OffsetMonotone(gs: seq<Group>, g: nat, h: nat)
    requires g <= h <= |gs|
    ensures Offset(gs, g) <= Offset(gs, h)
    decreases h
  {
    if g < h {
      OffsetMonotone(gs, g, h - 1);
    }
  }

  // ---- Reading ----

  /** A device's answer: its return value, flags and time. */
  datatype Reply = Reply(ret: int, flags: int, timeNs: int)

  /** A call made to a device: the flags passed in and the buffers of its channels. */
  datatype Call<B> = Call(ptr: nat, flags: int, buffs: seq<B>)

  /** The call for group g gets the caller's flags and exactly the buffers at the group's offset. */
  ghost predicate Served<B>(gs: seq<Group>, g: nat, buffs: seq<B>, flags: int, call: Call<B>)
    requires g < |gs|
  {
    && Offset(gs, g) + |gs[g].channels| <= |buffs|
    && call == Call(gs[g].ptr, flags, buffs[Offset(gs, g)..Offset(gs, g) + |gs[g].channels|])
  }

  /** readStream over the groups; replies are the devices' answers in order. */
  method ReadStream<B>(gs: seq<Group>, buffs: seq<B>, flagsIn: int, timeIn: int, replies: seq<Reply>)
    returns (ret: int, flags: int, timeNs: int, calls: seq<Call<B>>)
    requires Canonical(gs) && gs != [] && |buffs| == |Spread(gs)| && |replies| == |gs|
    ensures 0 < |calls| <= |gs| && forall g :: 0 <= g < |calls| ==> Served(gs, g, buffs, flagsIn, calls[g])
    ensures forall g :: 0 <= g < |calls| - 1 ==> replies[g].ret > 0
    ensures ret == replies[|calls| - 1].ret
    ensures ret > 0 ==> |calls| == |gs| && flags == replies[0].flags && timeNs == replies[0].timeNs
    ensures ret <= 0 ==> flags == replies[|calls| - 1].flags && timeNs == replies[|calls| - 1].timeNs
  {
    hide Spread;
    SpreadLength(gs);
    ret, calls := 0, [];
    flags, timeNs := flagsIn, timeIn;
    var offset, flagsOut, timeOut := 0, 0, 0;
    for g := 0 to |gs|
      invariant offset == Offset(gs, g) && |calls| == g
      invariant offset == 0 <==> g == 0
      invariant forall h :: 0 <= h < g ==> replies[h].ret > 0 && Served(gs, h, buffs, flagsIn, calls[h])
      invariant g > 0 ==> ret == replies[g - 1].ret && flagsOut == replies[0].flags && timeOut == replies[0].timeNs
    {
      OffsetMonotone(gs, g + 1, |gs|);
      calls := calls + [Call(gs[g].ptr, flagsIn, buffs[offset..offset + |gs[g].channels|])];
      assert Served(gs, g, buffs, flagsIn, calls[g]);
      ret, flags, timeNs := replies[g].ret, replies[g].flags, replies[g].timeNs;
      if ret <= 0 {
        return;
      }
      if offset == 0 {
        flagsOut, timeOut := flags, timeNs;
      }
      offset := offset + |gs[g].channels|;
    }
    flags, timeNs := flagsOut, timeOut;
  }

  /** writeStream over the groups: the same way, but there is no time to return. */
  method WriteStream<B>(gs: seq<Group>, buffs: seq<B>, flagsIn: int, replies: seq<Reply>)
    returns (ret: int, flags: int, calls: seq<Call<B>>)
    requires Canonical(gs) && gs != [] && |buffs| == |Spread(gs)| && |replies| == |gs|
    ensures 0 < |calls| <= |gs| && forall g :: 0 <= g < |calls| ==> Served(gs, g, buffs, flagsIn, calls[g])
    ensures forall g :: 0 <= g < |calls| - 1 ==> replies[g].ret > 0
    ensures ret == replies[|calls| - 1].ret
    ensures ret > 0 ==> |calls| == |gs| && flags == replies[0].flags
    ensures ret <= 0 ==> flags == replies[|calls| - 1].flags
  {
    hide Spread;
    SpreadLength(gs);
    ret, flags, calls := 0, flagsIn, [];
    var offset, flagsOut := 0, 0;
    for g := 0 to |gs|
      invariant offset == Offset(gs, g) && |calls| == g
      invariant offset == 0 <==> g == 0
      invariant forall h :: 0 <= h < g ==> replies[h].ret > 0 && Served(gs, h, buffs, flagsIn, calls[h])
      invariant g > 0 ==> ret == replies[g - 1].ret && flagsOut == replies[0].flags
    {
      OffsetMonotone(gs, g + 1, |gs|);
      calls := calls + [Call(gs[g].ptr, flagsIn, buffs[offset..offset + |gs[g].channels|])];
      assert Served(gs, g, buffs, flagsIn, calls[g]);
      ret, flags := replies[g].ret, replies[g].flags;
      if ret <= 0 {
        return;
      }
      if offset == 0 {
        flagsOut := flags;
      }
      offset := offset + |gs[g].channels|;
    }
    flags := flagsOut;
  }

  // ---- Status masks ----

  function Bit(m: nat, i: nat): bool {
    if i == 0 then m % 2 == 1 else Bit(m / 2, i - 1)
  }

  /** The low w bits of a number. */
  function Low(m: nat, w: nat): nat {
    if w == 0 then 0 else 2 * Low(m / 2, w - 1) + m % 2
  }

  /** A size_t of 64 bits shifted left by k. */
  function ShiftLeft(m: nat, k: nat): nat {
    if k == 0 then m else Low(2 * ShiftLeft(m, k - 1), 64)
  }

  lemma {:induction false} BitLow(m: nat, w: nat, i: nat)
    requires i < w
    ensures Bit(Low(m, w), i) == Bit(m, i)
    decreases i
  {
    assert Low(m, w) == 2 * Low(m / 2, w - 1) + m % 2;
    assert Low(m, w) / 2 == Low(m / 2, w - 1);
    if i > 0 {
      BitLow(m / 2, w - 1, i - 1);
    }
  }

  lemma {:induction false} BitShift(m: nat, k: nat, i: nat)
    requires i < 64
    ensures Bit(ShiftLeft(m, k), i) <==> i >= k && Bit(m, i - k)
    decreases k
  {
    hide Low;
    if k > 0 {
      var x := ShiftLeft(m, k - 1);
      BitLow(2 * x, 64, i);
      assert (2 * x) / 2 == x;
      if i > 0 {
        BitShift(m, k - 1, i - 1);
      }
    }
  }

  /** A device's status answer. */
  datatype Status = Status(ret: int, mask: nat)

  /** readStreamStatus over the groups; from is the group whose message is returned. */
  method ReadStreamStatus(gs: seq<Group>, replies: seq<Status>) returns (ret: int, mask: nat, from: nat)
    requires |replies| == |gs| && gs != []
    ensures from < |gs|
    ensures ret == replies[from].ret && mask == ShiftLeft(replies[from].mask, Offset(gs, from))
    ensures forall h :: 0 <= h < from ==> replies[h].ret != 0
    ensures ret != 0 ==> from == |gs| - 1
  {
    var offset := 0;
    ret, mask, from := 0, 0, 0;
    for g := 0 to |gs|
      invariant offset == Offset(gs, g)
      invariant forall h :: 0 <= h < g ==> replies[h].ret != 0
      invariant g > 0 ==> from == g - 1 && ret == replies[from].ret &&
                          mask == ShiftLeft(replies[from].mask, Offset(gs, from))
    {
      ret, mask, from := replies[g].ret, ShiftLeft(replies[g].mask, offset), g;
      if ret == 0 {
        return;
      }
      offset := offset + |gs[g].channels|;
    }
  }

  // ---- Routing ----

  /** The k-th channel of group g is number i of all. */
  ghost predicate Place(gs: seq<Group>, g: nat, k: nat, i: nat) {
    g < |gs| && k < |gs[g].channels| && Offset(gs, g) + k == i
  }

  lemma PlaceUnique(gs: seq<Group>, g: nat, k: nat, g': nat, k': nat, i: nat)
    requires Place(gs, g, k, i) && Place(gs, g', k', i)
    ensures g == g' && k == k'
  {
    if g' < g {
      OffsetMonotone(gs, g' + 1, g);
    } else if g < g' {
      OffsetMonotone(gs, g + 1, g');
    }
  }

  /** Routing end to end: for any requested channels within the map, none standing for channel 0, and any request i,
      there is exactly one group and place in it whose offset adds up to i, and it is the group of request i's
      device and the place of its local channel. So buffer i goes to that channel, and (up to the width of the mask)
      bit i of a status mask shifted by the group's offset is that channel's bit. */
  lemma RequestRouted(chanMap: seq<Channel>, channels: seq<nat>, i: nat) returns (g: nat, k: nat)
    requires if channels == [] then i == 0 && chanMap != []
             else i < |channels| && forall j :: 0 <= j < |channels| ==> channels[j] < |chanMap|
    ensures var gs := Grouped(Requests(chanMap, channels));
            var c := if channels == [] then chanMap[0] else chanMap[channels[i]];
            && Place(gs, g, k, i)
            && gs[g].ptr == c.ptr && gs[g].channels[k] == c.local
            && (forall g', k' :: Place(gs, g', k', i) ==> g' == g && k' == k)
            && (i < 64 ==> forall mask: nat :: Bit(ShiftLeft(mask, Offset(gs, g)), i) <==> Bit(mask, k))
  {
    hide Grouped, Spread, Bit, ShiftLeft, Offset;
    var cs := Requests(chanMap, channels);
    var gs := Grouped(cs);
    GroupedCanonical(cs);
    g, k := Locate(gs, i);
    SpreadAt(gs, g, k);
    forall g', k' | Place(gs, g', k', i) ensures g' == g && k' == k {
      PlaceUnique(gs, g, k, g', k', i);
    }
    if i < 64 {
      forall mask: nat ensures Bit(ShiftLeft(mask, Offset(gs, g)), i) <==> Bit(mask, k) {
        BitShift(mask, Offset(gs, g), i);
      }
    }
  }

  lemma {:induction false} Locate(gs: seq<Group>, i: nat) returns (g: nat, k: nat)
    requires i < |Spread(gs)|
    ensures g < |gs| && k < |gs[g].channels| && Offset(gs, g) + k == i
    decreases |gs|
  {
    var n := |gs| - 1;
    SpreadLength(gs[..n]);
    OffsetPrefix(gs, n, n);
    if i < |Spread(gs[..n])| {
      g, k := Locate(gs[..n], i);
      OffsetPrefix(gs, n, g);
    } else {
      g, k := n, i - Offset(gs, n);
    }
  }
}
