/** BladeRF receive commands: activateStream queues a command, readStream serves the front one, and an overrun
    seen in one read is reported by a later one. */
module BladeRfReceive {
  import opened Sequences

  /** A queued command; numElems is what is left of a finite one and 0 for a continuous one. id is its rank among all
      commands ever queued. */
  datatype Command = Command(hasTime: bool, ticks: int, numElems: nat, id: nat)

  /** The device's answer to one receive call. */
  datatype Reply = TimedOut | TimePast | Failed | Samples(count: nat, timestamp: int, overrun: bool)

  /** When the device is told to begin. */
  datatype When = Now | At(ticks: int)

  /** What a call did; asked is the number of elements the caller asked for, requested what was asked from the
      device. */
  datatype Event =
    | NoCommand
    | Cleared
    | OverflowReturned(ticks: int)
    | Refused(id: nat, begin: When, failed: bool, popped: bool)
    | Got(id: nat, begin: When, asked: nat, requested: nat, count: nat, timestamp: int, overrun: bool, popped: bool)

  /** The driver's fields; as history the sizes and times of all commands in order of activation, and the events. */
  datatype Rx = Rx(buffSize: nat, commands: seq<Command>, overflow: bool, nextTicks: int,
                   sizes: seq<nat>, times: seq<When>, trace: seq<Event>)

  datatype Action =
    | Activate(hasTime: bool, ticks: int, numElems: nat)
    | Deactivate
    | Read(numElems: nat, reply: Reply)

  function Init(buffSize: nat): Rx {
    Rx(buffSize, [], false, 0, [], [], [])
  }

  /** How many elements readStream asks for, given the front command. */
  function Requested(s: Rx, numElems: nat): nat
    requires s.commands != []
  {
    var elems := Min(numElems, s.buffSize);
    if s.commands[0].numElems > 0 then Min(s.commands[0].numElems, elems) else elems
  }

  /** The device returns no more than requested. */
  predicate Legal(s: Rx, a: Action) {
    a.Read? && a.reply.Samples? && s.commands != [] ==> a.reply.count <= Requested(s, a.numElems)
  }

  function Emit(s: Rx, e: Event): Rx {
    s.(trace := s.trace + [e])
  }

  function Serve(s: Rx, numElems: nat, reply: Reply): Rx
    requires s.commands != []
    requires reply.Samples? ==> reply.count <= Requested(s, numElems)
  {
    var begin := if s.commands[0].hasTime then At(s.commands[0].ticks) else Now;
    var c := s.commands[0].(hasTime := false);
    var rest := s.commands[1..];
    match reply
    case Samples(count, timestamp, overrun) =>
      var t := s.(overflow := overrun, nextTicks := timestamp + count);
      var left := c.numElems - Min(count, c.numElems);
      var done := c.numElems > 0 && left == 0;
      Emit(t, Got(c.id, begin, numElems, Requested(s, numElems), count, timestamp, overrun, done))
      .(commands := if done then rest else [c.(numElems := left)] + rest)
    case Failed =>
      Emit(s, Refused(c.id, begin, true, c.numElems > 0)).(commands := if c.numElems > 0 then rest else [c] + rest)
    case _ => Emit(s, Refused(c.id, begin, false, false)).(commands := [c] + rest)
  }

  function Apply(s: Rx, a: Action): Rx
    requires Legal(s, a)
  {
    match a
    case Activate(hasTime, ticks, numElems) =>
      s.(commands := s.commands + [Command(hasTime, ticks, numElems, |s.sizes|)], sizes := s.sizes + [numElems],
         times := s.times + [if hasTime then At(ticks) else Now])
    case Deactivate => Emit(s.(commands := []), Cleared)
    case Read(numElems, reply) =>
      if s.commands == [] then Emit(s, NoCommand)
      else if s.overflow then Emit(s.(overflow := false), OverflowReturned(s.nextTicks))
      else Serve(s, numElems, reply)
  }

  predicate Run(s: Rx, acts: seq<Action>, t: Rx)
    decreases |acts|
  {
    if acts == [] then s == t else Legal(s, acts[0]) && Run(Apply(s, acts[0]), acts[1..], t)
  }

  // ---- Reading the trace ----

  /** Elements delivered for a command so far. */
  function Delivered(trace: seq<Event>, id: nat): nat {
    if trace == [] then 0
    else
      var e := trace[|trace| - 1];
      Delivered(trace[..|trace| - 1], id) + (if e.Got? && e.id == id then e.count else 0)
  }

  predicate Serves(e: Event) {
    e.Got? || e.Refused?
  }

  /** Commands are served in order, and none after it was popped. */
  predicate InOrder(trace: seq<Event>) {
    forall i, j :: 0 <= i < j < |trace| && Serves(trace[i]) && Serves(trace[j]) ==>
      if trace[i].popped then trace[i].id < trace[j].id else trace[i].id <= trace[j].id
  }

  /** A read of a finite command never takes more than the command has left, and pops the command exactly when its
      delivered total reaches its size; a continuous command is never popped. */
  predicate Bounded(trace: seq<Event>, sizes: seq<nat>) {
    forall i :: 0 <= i < |trace| && trace[i].Got? ==>
      var e := trace[i];
      && e.id < |sizes| && e.count <= e.requested
      && (sizes[e.id] > 0 ==>
            && Delivered(trace[..i], e.id) + e.requested <= sizes[e.id]
            && (e.popped <==> Delivered(trace[..i], e.id) + e.count == sizes[e.id]))
      && (sizes[e.id] == 0 ==> !e.popped)
  }

  /** The events in which readStream got past the test for an empty queue. */
  function Seen(trace: seq<Event>): seq<Event> {
    if trace == [] then []
    else
      var e := trace[|trace| - 1];
      Seen(trace[..|trace| - 1]) + (if e.NoCommand? || e.Cleared? then [] else [e])
  }

  predicate Overrun(e: Event) {
    e.Got? && e.overrun
  }

  /** Each overrunning read is followed by exactly one OVERFLOW return before the device is read again, there is no
      other OVERFLOW return, and its time is that just after the last sample of the overrunning read. */
  predicate OverrunsReported(seen: seq<Event>) {
    && (seen != [] ==> !seen[0].OverflowReturned?)
    && (forall i :: 0 <= i < |seen| - 1 ==> (Overrun(seen[i]) <==> seen[i + 1].OverflowReturned?))
    && (forall i :: 0 <= i < |seen| - 1 && seen[i + 1].OverflowReturned? && seen[i].Got? ==>
          seen[i + 1].ticks == seen[i].timestamp + seen[i].count)
  }

  lemma DeliveredSnoc(trace: seq<Event>, e: Event, id: nat)
    ensures Delivered(trace + [e], id) == Delivered(trace, id) + (if e.Got? && e.id == id then e.count else 0)
  {
    assert (trace + [e])[..|trace + [e]| - 1] == trace;
  }

  lemma SeenSnoc(trace: seq<Event>, e: Event)
    ensures Seen(trace + [e]) == Seen(trace) + (if e.NoCommand? || e.Cleared? then [] else [e])
  {
    assert (trace + [e])[..|trace + [e]| - 1] == trace;
  }

  // ---- What every call keeps ----

  /** The queue holds the latest commands, each finite one with what is left of it. */
  predicate Queued(s: Rx) {
    && (forall i, j :: 0 <= i < j < |s.commands| ==> s.commands[i].id < s.commands[j].id)
    && (forall i :: 0 <= i < |s.commands| ==> Owed(s.commands[i], s.sizes, s.trace))
  }

  predicate Owed(c: Command, sizes: seq<nat>, trace: seq<Event>) {
    && c.id < |sizes|
    && c.numElems + Delivered(trace, c.id) == (if sizes[c.id] > 0 then sizes[c.id] else Delivered(trace, c.id))
    && (sizes[c.id] > 0 <==> c.numElems > 0)
  }

  /** Everything served so far belongs to the front command or to one that left before. */
  predicate Behind(s: Rx) {
    forall i :: 0 <= i < |s.trace| && Serves(s.trace[i]) ==>
      s.trace[i].id < |s.sizes| && forall j :: 0 <= j < |s.commands| ==>
        if s.trace[i].popped then s.trace[i].id < s.commands[j].id else s.trace[i].id <= s.commands[j].id
  }

  predicate Flagged(s: Rx) {
    var seen := Seen(s.trace);
    && (s.overflow <==> seen != [] && Overrun(seen[|seen| - 1]))
    && (s.overflow ==> s.nextTicks == seen[|seen| - 1].timestamp + seen[|seen| - 1].count)
  }

  predicate Inv(s: Rx) {
    && Queued(s) && Behind(s) && InOrder(s.trace) && Bounded(s.trace, s.sizes)
    && Flagged(s) && OverrunsReported(Seen(s.trace))
  }

  lemma ReportKeeps(seen: seq<Event>, e: Event)
    requires OverrunsReported(seen)
    requires e.OverflowReturned? <==> seen != [] && Overrun(seen[|seen| - 1])
    requires e.OverflowReturned? ==> e.ticks == seen[|seen| - 1].timestamp + seen[|seen| - 1].count
    ensures OverrunsReported(seen + [e])
  {
  }

  lemma OwedGrows(c: Command, sizes: seq<nat>, trace: seq<Event>, e: Event)
    requires Owed(c, sizes, trace) && !(e.Got? && e.id == c.id)
    ensures Owed(c, sizes, trace + [e])
  {
    DeliveredSnoc(trace, e, c.id);
  }

  lemma BoundedSnoc(trace: seq<Event>, sizes: seq<nat>, e: Event)
    requires Bounded(trace, sizes)
    requires e.Got? ==>
               && e.id < |sizes| && e.count <= e.requested
               && (sizes[e.id] > 0 ==>
                     && Delivered(trace, e.id) + e.requested <= sizes[e.id]
                     && (e.popped <==> Delivered(trace, e.id) + e.count == sizes[e.id]))
               && (sizes[e.id] == 0 ==> !e.popped)
    ensures Bounded(trace + [e], sizes)
  {
    forall i | 0 <= i < |trace + [e]|
      ensures (trace + [e])[..i] == trace[..i] || (i == |trace| && (trace + [e])[..i] == trace)
    {
      if i == |trace| {
        assert (trace + [e])[..i] == trace;
      }
    }
  }

  lemma BoundedMoreSizes(trace: seq<Event>, sizes: seq<nat>, size: nat)
    requires Bounded(trace, sizes)
    ensures Bounded(trace, sizes + [size])
  {
  }

  lemma ActivateKeeps(s: Rx, a: Action)
    requires Inv(s) && a.Activate?
    ensures Inv(Apply(s, a))
  {
    hide Seen, Delivered;
    BoundedMoreSizes(s.trace, s.sizes, a.numElems);
    NothingDelivered(s.trace, s.sizes, |s.sizes|);
  }

  lemma {:induction false} NothingDelivered(trace: seq<Event>, sizes: seq<nat>, id: nat)
    requires forall i :: 0 <= i < |trace| && trace[i].Got? ==> trace[i].id < id
    ensures Delivered(trace, id) == 0
  {
    if trace != [] {
      NothingDelivered(trace[..|trace| - 1], sizes, id);
    }
  }

  /** A call that does not reach the device. */
  lemma QuietKeeps(s: Rx, t: Rx, e: Event)
    requires Inv(s) && !Serves(e) && t == Emit(s, e).(overflow := t.overflow, commands := t.commands)
    requires t.commands == s.commands || t.commands == []
    requires if e.OverflowReturned? then s.overflow && !t.overflow && e.ticks == s.nextTicks
             else t.overflow == s.overflow
    ensures Inv(t)
  {
    hide Seen, Delivered;
    SeenSnoc(s.trace, e);
    assert Seen(s.trace) + [] == Seen(s.trace);
    if e.OverflowReturned? {
      ReportKeeps(Seen(s.trace), e);
    }
    BoundedSnoc(s.trace, s.sizes, e);
    forall i | 0 <= i < |t.commands| ensures Owed(t.commands[i], t.sizes, t.trace) {
      OwedGrows(s.commands[i], s.sizes, s.trace, e);
    }
  }

  /** The event of a served call follows all earlier ones. */
  lemma ServedInOrder(s: Rx, e: Event)
    requires Inv(s) && s.commands != [] && Serves(e) && e.id == s.commands[0].id
    ensures InOrder(s.trace + [e])
  {
  }

  lemma ServeKeeps(s: Rx, numElems: nat, reply: Reply)
    requires Inv(s) && s.commands != [] && !s.overflow
    requires reply.Samples? ==> reply.count <= Requested(s, numElems)
    ensures Inv(Serve(s, numElems, reply))
  {
    hide Seen, Delivered, OverrunsReported;
    var t := Serve(s, numElems, reply);
    var e := t.trace[|s.trace|];
    var c := s.commands[0];
    assert t.trace == s.trace + [e] && e.id == c.id && Serves(e);
    SeenSnoc(s.trace, e);
    ReportKeeps(Seen(s.trace), e);
    ServedInOrder(s, e);
    assert Owed(c, s.sizes, s.trace);
    BoundedSnoc(s.trace, s.sizes, e);
    ServeQueue(s, numElems, reply);
  }

  lemma ServeQueue(s: Rx, numElems: nat, reply: Reply)
    requires Inv(s) && s.commands != []
    requires reply.Samples? ==> reply.count <= Requested(s, numElems)
    ensures Queued(Serve(s, numElems, reply)) && Behind(Serve(s, numElems, reply))
  {
    hide Seen, Delivered, OverrunsReported, InOrder, Bounded, Flagged, Behind;
    var t := Serve(s, numElems, reply);
    var e := t.trace[|s.trace|];
    var c := s.commands[0];
    assert Owed(c, s.sizes, s.trace);
    DeliveredSnoc(s.trace, e, c.id);
    forall i | 0 < i < |s.commands| ensures Owed(s.commands[i], t.sizes, t.trace) {
      OwedGrows(s.commands[i], s.sizes, s.trace, e);
    }
    if e.popped {
      assert t.commands == s.commands[1..];
    } else {
      assert t.commands == [t.commands[0]] + s.commands[1..] && t.commands[0].id == c.id;
      assert Owed(t.commands[0], t.sizes, t.trace);
    }
    ServedBehind(s, t, e);
  }

  lemma ServedBehind(s: Rx, t: Rx, e: Event)
    requires Queued(s) && Behind(s) && s.commands != []
    requires t.sizes == s.sizes && t.trace == s.trace + [e] && Serves(e) && e.id == s.commands[0].id
    requires |t.commands| == if e.popped then |s.commands| - 1 else |s.commands|
    requires forall j :: 0 <= j < |t.commands| ==> t.commands[j].id == s.commands[if e.popped then j + 1 else j].id
    ensures Behind(t)
  {
    hide Delivered;
  }

  lemma StepInv(s: Rx, a: Action)
    requires Inv(s) && Legal(s, a)
    ensures Inv(Apply(s, a))
  {
    hide Inv, Serve, Seen;
    match a
    case Activate(_, _, _) => ActivateKeeps(s, a);
    case Deactivate => QuietKeeps(s, Apply(s, a), Cleared);
    case Read(numElems, reply) =>
      if s.commands == [] {
        QuietKeeps(s, Apply(s, a), NoCommand);
      } else if s.overflow {
        QuietKeeps(s, Apply(s, a), OverflowReturned(s.nextTicks));
      } else {
        ServeKeeps(s, numElems, reply);
      }
  }

  lemma {:induction false} RunInv(s: Rx, acts: seq<Action>, t: Rx)
    requires Inv(s) && Run(s, acts, t)
    ensures Inv(t)
    decreases |acts|
  {
    hide Inv, Apply;
    if acts != [] {
      StepInv(s, acts[0]);
      RunInv(Apply(s, acts[0]), acts[1..], t);
    }
  }

  // ---- What the device is asked for ----

  /** Some earlier call was served under this command. */
  predicate Before(trace: seq<Event>, id: nat) {
    exists i :: 0 <= i < |trace| && Serves(trace[i]) && trace[i].id == id
  }

  /** What a served call asks the device for: the command's time at its first call and no time afterwards; as many
      elements as the caller, the buffer and the rest of a finite command allow; and a failure other than a timeout or a
      missed time pops a finite command. */
  predicate AskedRight(e: Event, earlier: seq<Event>, sizes: seq<nat>, times: seq<When>, buffSize: nat) {
    Serves(e) ==>
      && e.id < |sizes| && e.id < |times|
      && e.begin == (if Before(earlier, e.id) then Now else times[e.id])
      && (e.Refused? ==> (e.popped <==> e.failed && sizes[e.id] > 0))
      && (e.Got? ==>
            && e.requested <= e.asked && e.requested <= buffSize
            && (e.requested == e.asked || e.requested == buffSize
                || (sizes[e.id] > 0 && Delivered(earlier, e.id) + e.requested == sizes[e.id])))
  }

  predicate AllAskedRight(trace: seq<Event>, sizes: seq<nat>, times: seq<When>, buffSize: nat) {
    forall i :: 0 <= i < |trace| ==> AskedRight(trace[i], trace[..i], sizes, times, buffSize)
  }

  /** A queued command still has its time exactly if it was not served yet. */
  predicate Timed(s: Rx) {
    && |s.times| == |s.sizes|
    && forall i :: 0 <= i < |s.commands| ==>
         var c := s.commands[i];
         && c.id < |s.times|
         && (if c.hasTime then At(c.ticks) else Now) == (if Before(s.trace, c.id) then Now else s.times[c.id])
  }

  predicate Asks(s: Rx) {
    Timed(s) && AllAskedRight(s.trace, s.sizes, s.times, s.buffSize)
  }

  lemma BeforeSnoc(trace: seq<Event>, e: Event, id: nat)
    ensures Before(trace + [e], id) <==> Before(trace, id) || (Serves(e) && e.id == id)
  {
    if Before(trace, id) {
      var i :| 0 <= i < |trace| && Serves(trace[i]) && trace[i].id == id;
      assert Serves((trace + [e])[i]) && (trace + [e])[i].id == id;
    }
    if Serves(e) && e.id == id {
      assert Serves((trace + [e])[|trace|]);
    }
  }

  lemma AskedSnoc(trace: seq<Event>, e: Event, sizes: seq<nat>, times: seq<When>, buffSize: nat)
    requires AllAskedRight(trace, sizes, times, buffSize) && AskedRight(e, trace, sizes, times, buffSize)
    ensures AllAskedRight(trace + [e], sizes, times, buffSize)
  {
    hide AskedRight;
    forall i | 0 <= i < |trace + [e]|
      ensures AskedRight((trace + [e])[i], (trace + [e])[..i], sizes, times, buffSize)
    {
      assert i < |trace| ==> (trace + [e])[..i] == trace[..i];
      assert (trace + [e])[..|trace|] == trace;
    }
  }

  lemma AskedMore(trace: seq<Event>, sizes: seq<nat>, times: seq<When>, buffSize: nat, size: nat, time: When)
    requires AllAskedRight(trace, sizes, times, buffSize)
    ensures AllAskedRight(trace, sizes + [size], times + [time], buffSize)
  {
    hide Before, Delivered;
    forall i | 0 <= i < |trace|
      ensures AskedRight(trace[i], trace[..i], sizes + [size], times + [time], buffSize)
    {
      assert AskedRight(trace[i], trace[..i], sizes, times, buffSize);
    }
  }

  lemma ActivateAsks(s: Rx, a: Action)
    requires Inv(s) && Asks(s) && a.Activate?
    ensures Asks(Apply(s, a))
  {
    hide Delivered, AllAskedRight, Queued, InOrder, Bounded, Flagged, OverrunsReported;
    AskedMore(s.trace, s.sizes, s.times, s.buffSize, a.numElems, if a.hasTime then At(a.ticks) else Now);
    assert !Before(s.trace, |s.sizes|);
  }

  /** A call that does not reach the device. */
  lemma QuietAsks(s: Rx, t: Rx, e: Event)
    requires Asks(s) && !Serves(e) && t == Emit(s, e).(overflow := t.overflow, commands := t.commands)
    requires t.commands == s.commands || t.commands == []
    ensures Asks(t)
  {
    hide Delivered, AllAskedRight, Before;
    AskedSnoc(s.trace, e, s.sizes, s.times, s.buffSize);
    forall i | 0 <= i < |t.commands| ensures Before(t.trace, t.commands[i].id) <==> Before(s.trace, t.commands[i].id) {
      BeforeSnoc(s.trace, e, t.commands[i].id);
    }
  }

  /** The event of a served call. */
  lemma ServeEvent(s: Rx, numElems: nat, reply: Reply)
    requires Inv(s) && Asks(s) && s.commands != []
    requires reply.Samples? ==> reply.count <= Requested(s, numElems)
    ensures var t, c := Serve(s, numElems, reply), s.commands[0];
            && |t.trace| == |s.trace| + 1 && t.trace[..|s.trace|] == s.trace
            && t.buffSize == s.buffSize && t.sizes == s.sizes && t.times == s.times
            && var e := t.trace[|s.trace|];
               Serves(e) && e.id == c.id && AskedRight(e, s.trace, s.sizes, s.times, s.buffSize)
  {
    hide Delivered, AllAskedRight, Before, InOrder, Bounded, Flagged, OverrunsReported, Behind;
    assert Owed(s.commands[0], s.sizes, s.trace);
  }

  lemma ServeAsks(s: Rx, numElems: nat, reply: Reply)
    requires Inv(s) && Asks(s) && s.commands != []
    requires reply.Samples? ==> reply.count <= Requested(s, numElems)
    ensures Asks(Serve(s, numElems, reply))
  {
    hide Delivered, AllAskedRight, Before, AskedRight, InOrder, Bounded, Flagged, OverrunsReported, Behind, Owed;
    var t, c := Serve(s, numElems, reply), s.commands[0];
    ServeEvent(s, numElems, reply);
    var e := t.trace[|s.trace|];
    assert t.trace == s.trace + [e];
    AskedSnoc(s.trace, e, s.sizes, s.times, s.buffSize);
    forall i | 0 <= i < |s.commands|
      ensures Before(t.trace, s.commands[i].id) <==> i == 0 || Before(s.trace, s.commands[i].id)
    {
      BeforeSnoc(s.trace, e, s.commands[i].id);
    }
    assert t.commands == s.commands[1..] ||
           (|t.commands| == |s.commands| && t.commands[1..] == s.commands[1..] && t.commands[0].id == c.id &&
            !t.commands[0].hasTime);
  }

  lemma StepAsks(s: Rx, a: Action)
    requires Inv(s) && Asks(s) && Legal(s, a)
    ensures Asks(Apply(s, a)) && Apply(s, a).buffSize == s.buffSize
    ensures Apply(s, a).sizes == s.sizes + SizesOf([a]) && Apply(s, a).times == s.times + TimesOf([a])
  {
    hide Inv, Asks, Serve;
    if a.Read? {
      ReadConstants(s, a);
    }
    assert [a][1..] == [];
    assert s.sizes + [] == s.sizes && s.times + [] == s.times;
    match a
    case Activate(_, _, _) => ActivateAsks(s, a);
    case Deactivate => QuietAsks(s, Apply(s, a), Cleared);
    case Read(numElems, reply) =>
      if s.commands == [] {
        QuietAsks(s, Apply(s, a), NoCommand);
      } else if s.overflow {
        QuietAsks(s, Apply(s, a), OverflowReturned(s.nextTicks));
      } else {
        ServeAsks(s, numElems, reply);
      }
  }

  /** The sizes and the times of the activations among the actions. */
  function SizesOf(acts: seq<Action>): seq<nat> {
    if acts == [] then []
    else (if acts[0].Activate? then [acts[0].numElems] else []) + SizesOf(acts[1..])
  }

  function TimesOf(acts: seq<Action>): seq<When> {
    if acts == [] then []
    else
      (if acts[0].Activate? then [if acts[0].hasTime then At(acts[0].ticks) else Now] else []) + TimesOf(acts[1..])
  }

  lemma ReadConstants(s: Rx, a: Action)
    requires Legal(s, a) && a.Read?
    ensures var t := Apply(s, a); t.buffSize == s.buffSize && t.sizes == s.sizes && t.times == s.times
  {
  }

  lemma {:induction false} RunAsks(s: Rx, acts: seq<Action>, t: Rx)
    requires Inv(s) && Asks(s) && Run(s, acts, t)
    ensures Asks(t) && t.buffSize == s.buffSize
    ensures t.sizes == s.sizes + SizesOf(acts) && t.times == s.times + TimesOf(acts)
    decreases |acts|
  {
    hide Inv, Asks, Apply;
    if acts != [] {
      var m := Apply(s, acts[0]);
      StepInv(s, acts[0]);
      StepAsks(s, acts[0]);
      RunAsks(m, acts[1..], t);
      assert [acts[0]][1..] == [];
      assert SizesOf(acts) == SizesOf([acts[0]]) + SizesOf(acts[1..]);
      assert TimesOf(acts) == TimesOf([acts[0]]) + TimesOf(acts[1..]);
    }
  }

  lemma InitInv(buffSize: nat)
    ensures Inv(Init(buffSize)) && Asks(Init(buffSize))
  {
  }

  /** Over every run with a device that returns no more than requested: commands are served in the order they were
      activated and never after they were popped; a read of a finite command stays inside it, and pops it exactly
      when the delivered total is its size; and every overrun is followed by one OVERFLOW return before the device
      is read again, with the time after the last sample of the read that was overrun. */
  lemma CommandsServed(buffSize: nat, acts: seq<Action>, t: Rx)
    requires Run(Init(buffSize), acts, t)
    ensures InOrder(t.trace) && Bounded(t.trace, t.sizes) && OverrunsReported(Seen(t.trace))
  {
    hide Run, InOrder, Bounded, OverrunsReported, Queued, Behind, Flagged;
    InitInv(buffSize);
    RunInv(Init(buffSize), acts, t);
  }

  /** And what it asks from the device, over every such run: a command's time at its first call only, the largest amount
      that the caller, the buffer and the command allow, and a finite command given up exactly when the device fails. */
  lemma DeviceAskedRight(buffSize: nat, acts: seq<Action>, t: Rx)
    requires Run(Init(buffSize), acts, t)
    ensures AllAskedRight(t.trace, t.sizes, t.times, buffSize)
    ensures t.sizes == SizesOf(acts) && t.times == TimesOf(acts)
  {
    hide Run, Inv, AllAskedRight, Timed;
    InitInv(buffSize);
    RunAsks(Init(buffSize), acts, t);
  }
}
