/** BladeRF transmit bursts: the driver decides from one flag which blocks carry the START and END markers, and
    from one counter what time an end-of-burst response reports. The device keeps its own idea of both, which is
    read off the blocks it accepted. */
module BladeRfTransmit {
  import opened Sequences

  type Sample = int

  /** Who asked for a block: a writeStream call, all of whose samples went out (whole) or not, or deactivateStream. */
  datatype Origin = Write(whole: bool) | Deactivation

  /** A block the device accepted. stamped: the block carries a time that the device takes over. */
  datatype Block = Block(start: bool, end: bool, stamped: bool, timestamp: int, data: seq<Sample>, origin: Origin)

  datatype Response = Underflow | EndOfBurst(ticks: int)

  datatype Outcome = Accepted(underrun: bool) | TimedOut | TimePast | Failed

  /** The driver's fields, and as history the accepted blocks and all responses ever queued. */
  datatype Tx = Tx(buffSize: nat, inBurst: bool, nextTicks: int, responses: seq<Response>,
                   log: seq<Block>, queued: seq<Response>)

  datatype Action =
    | WriteStream(data: seq<Sample>, hasTime: bool, ticks: int, endBurst: bool, now: int, outcome: Outcome)
    | Deactivate(accepted: bool)
    | ReadStatus

  function Init(buffSize: nat): Tx {
    Tx(buffSize, false, 0, [], [], [])
  }

  /** The block a writeStream call hands to the device. */
  function Offered(s: Tx, a: Action): Block
    requires a.WriteStream?
  {
    var k := Min(|a.data|, s.buffSize);
    Block(!s.inBurst, a.endBurst && |a.data| <= s.buffSize, a.hasTime || !s.inBurst,
          if a.hasTime then a.ticks else if s.inBurst then 0 else a.now, a.data[..k], Write(k == |a.data|))
  }

  function Queue(s: Tx, r: Response): Tx {
    s.(responses := s.responses + [r], queued := s.queued + [r])
  }

  /** The bookkeeping after the device accepted block b. */
  function Sent(s: Tx, b: Block, underrun: bool): Tx {
    var t := s.(nextTicks := s.nextTicks + |b.data|, inBurst := true, log := s.log + [b]);
    var u := if underrun then Queue(t, Underflow) else t;
    if b.end then Queue(u, EndOfBurst(u.nextTicks)).(inBurst := false) else u
  }

  function Apply(s: Tx, a: Action): Tx {
    match a
    case WriteStream(_, _, _, _, _, outcome) =>
      var b := Offered(s, a);
      // the counter moves to the new time before the device is asked
      var t := s.(nextTicks := if b.stamped then b.timestamp else s.nextTicks);
      if outcome.Accepted? then Sent(t, b, outcome.underrun) else t
    case Deactivate(accepted) =>
      s.(inBurst := false,
         log := if s.inBurst && accepted then s.log + [Block(false, true, false, 0, [0], Deactivation)] else s.log)
    case ReadStatus => if s.responses == [] then s else s.(responses := s.responses[1..])
  }

  function Execute(s: Tx, acts: seq<Action>): Tx
    decreases |acts|
  {
    if acts == [] then s else Execute(Apply(s, acts[0]), acts[1..])
  }

  // ---- The device's view ----

  /** The device is inside a burst after log. */
  predicate Open(log: seq<Block>) {
    log != [] && !log[|log| - 1].end
  }

  /** START exactly on the blocks that begin a burst. */
  predicate WellNested(log: seq<Block>) {
    log != [] ==> WellNested(log[..|log| - 1]) && log[|log| - 1].start == !Open(log[..|log| - 1])
  }

  /** The time just after the last sample: the last time given, plus the samples sent since. */
  function Clock(log: seq<Block>): int {
    if log == [] then 0
    else
      var b := log[|log| - 1];
      (if b.stamped then b.timestamp else Clock(log[..|log| - 1])) + |b.data|
  }

  /** The device times of the ends of the bursts that writeStream ended. */
  function EndTimes(log: seq<Block>): seq<int> {
    if log == [] then []
    else
      var b := log[|log| - 1];
      EndTimes(log[..|log| - 1]) + (if b.end && b.origin.Write? then [Clock(log)] else [])
  }

  function EndResponses(queued: seq<Response>): seq<int> {
    if queued == [] then []
    else
      EndResponses(queued[..|queued| - 1]) +
      (match queued[|queued| - 1] case EndOfBurst(t) => [t] case Underflow => [])
  }

  lemma LogSnoc(log: seq<Block>, b: Block)
    ensures Open(log + [b]) == !b.end
    ensures WellNested(log + [b]) <==> WellNested(log) && b.start == !Open(log)
    ensures Clock(log + [b]) == (if b.stamped then b.timestamp else Clock(log)) + |b.data|
    ensures EndTimes(log + [b]) == EndTimes(log) + (if b.end && b.origin.Write? then [Clock(log + [b])] else [])
  {
    assert (log + [b])[..|log + [b]| - 1] == log;
  }

  lemma QueueSnoc(queued: seq<Response>, r: Response)
    ensures EndResponses(queued + [r]) ==
            EndResponses(queued) + (match r case EndOfBurst(t) => [t] case Underflow => [])
  {
    assert (queued + [r])[..|queued + [r]| - 1] == queued;
  }

  // ---- What every call keeps ----

  predicate EndOnlyWhenWhole(log: seq<Block>) {
    forall i :: 0 <= i < |log| && log[i].end && log[i].origin.Write? ==> log[i].origin.whole
  }

  /** The responses still to be read are the latest ones queued, in order. */
  predicate Fifo(s: Tx) {
    |s.responses| <= |s.queued| && s.responses == s.queued[|s.queued| - |s.responses|..]
  }

  /** Kept by every call: END only with the last sample, one end-of-burst response for each such END. */
  predicate Answered(s: Tx) {
    && EndOnlyWhenWhole(s.log)
    && Fifo(s)
    && |EndResponses(s.queued)| == |EndTimes(s.log)|
  }

  predicate Nested(s: Tx) {
    WellNested(s.log) && Open(s.log) == s.inBurst
  }

  /** The counter and the responses agree with the device's clock. */
  predicate OnTime(s: Tx) {
    && EndResponses(s.queued) == EndTimes(s.log)
    && (s.inBurst ==> s.nextTicks == Clock(s.log))
  }

  /** The device refuses the block by which deactivateStream ends a burst. */
  predicate LosesEnd(s: Tx, a: Action) {
    a.Deactivate? && s.inBurst && !a.accepted
  }

  /** The device refuses a block inside a burst that carries a time. */
  predicate LosesTime(s: Tx, a: Action) {
    a.WriteStream? && s.inBurst && a.hasTime && !a.outcome.Accepted?
  }

  predicate Never(bad: (Tx, Action) -> bool, s: Tx, acts: seq<Action>)
    decreases |acts|
  {
    acts != [] ==> !bad(s, acts[0]) && Never(bad, Apply(s, acts[0]), acts[1..])
  }

  lemma QueueKeeps(s: Tx, r: Response)
    requires Fifo(s)
    ensures Fifo(Queue(s, r))
    ensures EndResponses(Queue(s, r).queued) ==
            EndResponses(s.queued) + (match r case EndOfBurst(t) => [t] case Underflow => [])
  {
    QueueSnoc(s.queued, r);
  }

  /** The three invariants after an accepted block. */
  lemma SentKeeps(s: Tx, b: Block, underrun: bool)
    requires Answered(s) && b.origin.Write? && (b.end ==> b.origin.whole)
    ensures Answered(Sent(s, b, underrun))
    ensures Nested(s) && b.start == !s.inBurst ==> Nested(Sent(s, b, underrun))
    ensures EndResponses(s.queued) == EndTimes(s.log) && s.nextTicks + |b.data| == Clock(s.log + [b]) ==>
              OnTime(Sent(s, b, underrun))
  {
    hide WellNested, Clock, EndTimes, EndResponses;
    LogSnoc(s.log, b);
    var t := s.(nextTicks := s.nextTicks + |b.data|, inBurst := true, log := s.log + [b]);
    if underrun {
      QueueKeeps(t, Underflow);
    }
    var u := if underrun then Queue(t, Underflow) else t;
    assert EndResponses(u.queued) == EndResponses(s.queued) + [] == EndResponses(s.queued);
    if b.end {
      QueueKeeps(u, EndOfBurst(u.nextTicks));
    }
  }

  lemma WriteKeeps(s: Tx, a: Action)
    requires Answered(s) && a.WriteStream?
    ensures Answered(Apply(s, a))
    ensures Nested(s) ==> Nested(Apply(s, a))
    ensures OnTime(s) && !LosesTime(s, a) ==> OnTime(Apply(s, a))
  {
    hide WellNested, Clock, EndTimes, EndResponses, Sent;
    var b := Offered(s, a);
    var t := s.(nextTicks := if b.stamped then b.timestamp else s.nextTicks);
    LogSnoc(s.log, b);
    if a.outcome.Accepted? {
      SentKeeps(t, b, a.outcome.underrun);
    }
  }

  lemma DeactivateKeeps(s: Tx, accepted: bool)
    requires Answered(s)
    ensures Answered(Apply(s, Deactivate(accepted)))
    ensures Nested(s) && !LosesEnd(s, Deactivate(accepted)) ==> Nested(Apply(s, Deactivate(accepted)))
    ensures OnTime(s) ==> OnTime(Apply(s, Deactivate(accepted)))
  {
    hide WellNested, Clock, EndTimes, EndResponses;
    var b := Block(false, true, false, 0, [0], Deactivation);
    LogSnoc(s.log, b);
    assert EndTimes(s.log) + [] == EndTimes(s.log);
  }

  lemma StepKeeps(s: Tx, a: Action)
    requires Answered(s)
    ensures Answered(Apply(s, a))
    ensures Nested(s) && !LosesEnd(s, a) ==> Nested(Apply(s, a))
    ensures OnTime(s) && !LosesTime(s, a) ==> OnTime(Apply(s, a))
  {
    hide WellNested, Clock, EndTimes, EndResponses, Offered, Sent;
    match a
    case WriteStream(_, _, _, _, _, _) => WriteKeeps(s, a);
    case Deactivate(accepted) => DeactivateKeeps(s, accepted);
    case ReadStatus =>
  }

  lemma {:induction false} ExecuteKeeps(s: Tx, acts: seq<Action>)
    requires Answered(s)
    ensures Answered(Execute(s, acts))
    ensures Nested(s) && Never(LosesEnd, s, acts) ==> Nested(Execute(s, acts))
    ensures OnTime(s) && Never(LosesTime, s, acts) ==> OnTime(Execute(s, acts))
    decreases |acts|
  {
    hide Answered, Nested, OnTime, Apply;
    if acts != [] {
      StepKeeps(s, acts[0]);
      ExecuteKeeps(Apply(s, acts[0]), acts[1..]);
    }
  }

  // ---- Every run ----

  /** Over every run of calls, refused sends included: END goes out with a write only together with that call's
      last sample, each such END queues exactly one end-of-burst response, and responses are read in order. */
  lemma EveryEndAnswered(buffSize: nat, acts: seq<Action>)
    ensures var t := Execute(Init(buffSize), acts);
            && EndOnlyWhenWhole(t.log) && Fifo(t) && |EndResponses(t.queued)| == |EndTimes(t.log)|
  {
    ExecuteKeeps(Init(buffSize), acts);
  }

  // ---- What the device is given ----

  predicate AcceptedWrite(a: Action) {
    a.WriteStream? && a.outcome.Accepted?
  }

  /** The accepted writes among the actions. */
  function Writes(acts: seq<Action>): seq<Action> {
    if acts == [] then [] else (if AcceptedWrite(acts[0]) then [acts[0]] else []) + Writes(acts[1..])
  }

  /** The blocks that writes brought. */
  function Written(log: seq<Block>): seq<Block> {
    if log == [] then []
    else Written(log[..|log| - 1]) + (if log[|log| - 1].origin.Write? then [log[|log| - 1]] else [])
  }

  /** Block b is what the call a is to hand over: the first samples of the call, as many as fit; the end marker if
      all of them do; and the time asked for, or at the start of a burst the present time, or none. */
  predicate Carries(b: Block, a: Action, buffSize: nat) {
    && AcceptedWrite(a)
    && |b.data| <= buffSize && b.data <= a.data && (|b.data| == buffSize || |b.data| == |a.data|)
    && (b.end <==> a.endBurst && |b.data| == |a.data|)
    && (b.stamped <==> a.hasTime || b.start)
    && (b.stamped ==> b.timestamp == if a.hasTime then a.ticks else a.now)
  }

  predicate AllCarry(blocks: seq<Block>, writes: seq<Action>, buffSize: nat) {
    |blocks| == |writes| && forall i :: 0 <= i < |blocks| ==> Carries(blocks[i], writes[i], buffSize)
  }

  function Underflows(queued: seq<Response>): nat {
    if queued == [] then 0
    else Underflows(queued[..|queued| - 1]) + (if queued[|queued| - 1].Underflow? then 1 else 0)
  }

  function Underruns(acts: seq<Action>): nat {
    if acts == [] then 0
    else (if AcceptedWrite(acts[0]) && acts[0].outcome.underrun then 1 else 0) + Underruns(acts[1..])
  }

  /** The blocks that end a burst at deactivation carry one zero sample, the end marker and no time. */
  predicate EndsPlainly(log: seq<Block>) {
    forall i :: 0 <= i < |log| && log[i].origin.Deactivation? ==>
      log[i].data == [0] && log[i].end && !log[i].start && !log[i].stamped
  }

  lemma WrittenSnoc(log: seq<Block>, b: Block)
    ensures Written(log + [b]) == Written(log) + (if b.origin.Write? then [b] else [])
  {
    assert (log + [b])[..|log + [b]| - 1] == log;
  }

  lemma UnderflowsSnoc(queued: seq<Response>, x: Response)
    ensures Underflows(queued + [x]) == Underflows(queued) + (if x.Underflow? then 1 else 0)
  {
    assert (queued + [x])[..|queued + [x]| - 1] == queued;
  }

  /** One call adds its block, and one underflow response if the device reported an underrun. */
  lemma CarriesStep(s: Tx, a: Action)
    ensures var t := Apply(s, a);
            && t.buffSize == s.buffSize
            && (if AcceptedWrite(a)
                then |Written(t.log)| == |Written(s.log)| + 1 && Written(t.log)[..|Written(s.log)|] == Written(s.log) &&
                     Carries(Written(t.log)[|Written(s.log)|], a, s.buffSize)
                else Written(t.log) == Written(s.log))
            && Underflows(t.queued) == Underflows(s.queued) + (if AcceptedWrite(a) && a.outcome.underrun then 1 else 0)
            && (EndsPlainly(s.log) ==> EndsPlainly(t.log))
  {
    hide Written, Underflows;
    match a
    case WriteStream(_, _, _, _, _, outcome) =>
      var b := Offered(s, a);
      WrittenSnoc(s.log, b);
      UnderflowsSnoc(s.queued, Underflow);
      if outcome.Accepted? {
        var u := if outcome.underrun then s.queued + [Underflow] else s.queued;
        UnderflowsSnoc(u, EndOfBurst(Apply(s, a).nextTicks));
        assert Written(Apply(s, a).log) == Written(s.log) + [b];
      }
    case Deactivate(_) => WrittenSnoc(s.log, Block(false, true, false, 0, [0], Deactivation));
    case ReadStatus =>
  }

  lemma {:induction false} CarriesRun(s: Tx, acts: seq<Action>)
    ensures var t := Execute(s, acts);
            && t.buffSize == s.buffSize
            && |Written(t.log)| == |Written(s.log)| + |Writes(acts)|
            && Written(t.log)[..|Written(s.log)|] == Written(s.log)
            && AllCarry(Written(t.log)[|Written(s.log)|..], Writes(acts), s.buffSize)
            && Underflows(t.queued) == Underflows(s.queued) + Underruns(acts)
            && (EndsPlainly(s.log) ==> EndsPlainly(t.log))
    decreases |acts|
  {
    hide Apply, Written, Underflows, Carries, AcceptedWrite, EndsPlainly;
    if acts != [] {
      var m := Apply(s, acts[0]);
      CarriesStep(s, acts[0]);
      CarriesRun(m, acts[1..]);
      var all, mid, had := Written(Execute(m, acts[1..]).log), Written(m.log), Written(s.log);
      assert all[..|had|] == all[..|mid|][..|had|];
      if AcceptedWrite(acts[0]) {
        assert all[|had|] == all[..|mid|][|had|];
        assert all[|had|..] == [all[|had|]] + all[|mid|..];
        assert Writes(acts) == [acts[0]] + Writes(acts[1..]);
      }
    }
  }

  /** Over every run: the blocks of writes that the device took are, in order, the first samples of the accepted calls,
      with their times and markers, and there is one underflow response for each underrun the device reported. */
  lemma WritesCarried(buffSize: nat, acts: seq<Action>)
    ensures var t := Execute(Init(buffSize), acts);
            && AllCarry(Written(t.log), Writes(acts), buffSize) && Underflows(t.queued) == Underruns(acts)
            && EndsPlainly(t.log)
  {
    CarriesRun(Init(buffSize), acts);
  }

  // ---- Nesting, exactly ----

  /** At some point of the run the END of deactivateStream is refused, and at some later point a write is accepted. */
  predicate WritesAfterLostEnd(s: Tx, acts: seq<Action>)
    decreases |acts|
  {
    acts != [] &&
    (|| (LosesEnd(s, acts[0]) && SomeAccepted(acts[1..]))
     || WritesAfterLostEnd(Apply(s, acts[0]), acts[1..]))
  }

  predicate SomeAccepted(acts: seq<Action>) {
    exists i :: 0 <= i < |acts| && AcceptedWrite(acts[i])
  }

  /** The driver has forgotten a burst that the device still has open. */
  predicate Forgotten(s: Tx) {
    WellNested(s.log) && Open(s.log) && !s.inBurst
  }

  lemma ForgottenStep(s: Tx, a: Action)
    ensures Nested(s) && LosesEnd(s, a) ==> Forgotten(Apply(s, a))
    ensures Forgotten(s) && !AcceptedWrite(a) ==> Forgotten(Apply(s, a))
    ensures Forgotten(s) && AcceptedWrite(a) ==> !WellNested(Apply(s, a).log)
    ensures !WellNested(s.log) ==> !WellNested(Apply(s, a).log)
  {
    hide WellNested, Open;
    if a.WriteStream? {
      LogSnoc(s.log, Offered(s, a));
    } else if a.Deactivate? {
      LogSnoc(s.log, Block(false, true, false, 0, [0], Deactivation));
    }
  }

  lemma {:induction false} ForgottenRun(s: Tx, acts: seq<Action>)
    ensures !WellNested(s.log) ==> !WellNested(Execute(s, acts).log)
    ensures Forgotten(s) ==> (WellNested(Execute(s, acts).log) <==> !SomeAccepted(acts))
    decreases |acts|
  {
    hide WellNested, Apply, AcceptedWrite;
    if acts != [] {
      ForgottenStep(s, acts[0]);
      ForgottenRun(Apply(s, acts[0]), acts[1..]);
      SomeAcceptedCons(acts);
    }
  }

  lemma SomeAcceptedCons(acts: seq<Action>)
    requires acts != []
    ensures SomeAccepted(acts) <==> AcceptedWrite(acts[0]) || SomeAccepted(acts[1..])
  {
    if i :| 0 < i < |acts| && AcceptedWrite(acts[i]) {
      assert AcceptedWrite(acts[1..][i - 1]);
    }
  }

  lemma {:induction false} NestedRun(s: Tx, acts: seq<Action>)
    requires Answered(s) && Nested(s)
    ensures WellNested(Execute(s, acts).log) <==> !WritesAfterLostEnd(s, acts)
    decreases |acts|
  {
    hide WellNested, Apply, Answered, SomeAccepted, LosesEnd, Open;
    if acts != [] {
      StepKeeps(s, acts[0]);
      ForgottenStep(s, acts[0]);
      var t := Apply(s, acts[0]);
      if LosesEnd(s, acts[0]) {
        ForgottenRun(t, acts[1..]);
        if !SomeAccepted(acts[1..]) {
          IdleWhileForgotten(t, acts[1..]);
        }
      } else {
        NestedRun(t, acts[1..]);
      }
    }
  }

  /** Without an accepted write no further burst can be lost. */
  lemma {:induction false} IdleWhileForgotten(s: Tx, acts: seq<Action>)
    requires !s.inBurst && !SomeAccepted(acts)
    ensures !WritesAfterLostEnd(s, acts)
    decreases |acts|
  {
    if acts != [] {
      SomeAcceptedCons(acts);
      IdleWhileForgotten(Apply(s, acts[0]), acts[1..]);
    }
  }

  /** The accepted blocks form well-nested bursts exactly if no write is accepted at any time after the device
      refused the END of deactivateStream; and as long as it refuses none, the driver's flag is the device's. */
  lemma BurstsWellNested(buffSize: nat, acts: seq<Action>)
    ensures var t := Execute(Init(buffSize), acts);
            && (WellNested(t.log) <==> !WritesAfterLostEnd(Init(buffSize), acts))
            && (Never(LosesEnd, Init(buffSize), acts) ==> WellNested(t.log) && Open(t.log) == t.inBurst)
  {
    ExecuteKeeps(Init(buffSize), acts);
    NestedRun(Init(buffSize), acts);
  }

  /** This happens: after any first write that leaves a burst open, a refused END and any accepted write. */
  lemma LostEndBreaksNesting(buffSize: nat, first: Action, next: Action)
    requires AcceptedWrite(first) && !first.endBurst && AcceptedWrite(next)
    ensures !WellNested(Execute(Init(buffSize), [first, Deactivate(false), next]).log)
  {
    var acts := [first, Deactivate(false), next];
    var s := Apply(Init(buffSize), first);
    assert LosesEnd(s, acts[1]);
    assert acts[1..][1..] == [next];
    assert SomeAccepted([next]) by {
      assert AcceptedWrite([next][0]);
    }
    assert WritesAfterLostEnd(s, acts[1..]);
    BurstsWellNested(buffSize, acts);
  }

  // ---- Times, exactly ----

  /** By how much the driver's counter leads the device's clock after a call: a refused block with a time sets it,
      inside a burst, and the next time the device takes over clears it. */
  function Drift(s: Tx, drift: int, a: Action): int {
    match a
    case WriteStream(_, hasTime, ticks, _, _, outcome) =>
      if outcome.Accepted? then (if hasTime || !s.inBurst then 0 else drift)
      else if hasTime && s.inBurst then ticks - Clock(s.log)
      else drift
    case Deactivate(_) => 0
    case ReadStatus => drift
  }

  /** The call ends a burst. */
  predicate EndsBurst(s: Tx, a: Action) {
    AcceptedWrite(a) && a.endBurst && |a.data| <= s.buffSize
  }

  /** The lead at each end of a burst in a run. */
  function EndDrifts(s: Tx, drift: int, acts: seq<Action>): seq<int>
    decreases |acts|
  {
    if acts == [] then []
    else
      var d := Drift(s, drift, acts[0]);
      (if EndsBurst(s, acts[0]) then [d] else []) + EndDrifts(Apply(s, acts[0]), d, acts[1..])
  }

  /** Each response is later than the end it reports by the drift there. */
  predicate Shifted(responses: seq<int>, times: seq<int>, drifts: seq<int>) {
    && |responses| == |times| == |drifts|
    && forall i :: 0 <= i < |drifts| ==> responses[i] == times[i] + drifts[i]
  }

  predicate Leads(s: Tx, drift: int) {
    s.inBurst ==> s.nextTicks == Clock(s.log) + drift
  }

  lemma SentTimes(s: Tx, b: Block, underrun: bool)
    requires b.origin.Write?
    ensures var t := Sent(s, b, underrun);
            && t.log == s.log + [b] && t.nextTicks == s.nextTicks + |b.data|
            && EndResponses(t.queued) == EndResponses(s.queued) + (if b.end then [t.nextTicks] else [])
            && EndTimes(t.log) == EndTimes(s.log) + (if b.end then [Clock(t.log)] else [])
  {
    hide Clock, EndTimes, EndResponses;
    LogSnoc(s.log, b);
    QueueSnoc(s.queued, Underflow);
    var queued := if underrun then s.queued + [Underflow] else s.queued;
    assert EndResponses(s.queued) + [] == EndResponses(s.queued);
    QueueSnoc(queued, EndOfBurst(s.nextTicks + |b.data|));
  }

  lemma DriftStep(s: Tx, drift: int, drifts: seq<int>, a: Action)
    requires Answered(s) && Leads(s, drift) && Shifted(EndResponses(s.queued), EndTimes(s.log), drifts)
    ensures var t, d := Apply(s, a), Drift(s, drift, a);
            && Leads(t, d)
            && Shifted(EndResponses(t.queued), EndTimes(t.log), drifts + (if EndsBurst(s, a) then [d] else []))
  {
    hide Clock, EndTimes, EndResponses, Answered, Sent, WellNested;
    assert drifts + [] == drifts;
    match a
    case WriteStream(_, _, _, _, _, outcome) =>
      if outcome.Accepted? {
        var b := Offered(s, a);
        LogSnoc(s.log, b);
        SentTimes(s.(nextTicks := if b.stamped then b.timestamp else s.nextTicks), b, outcome.underrun);
        assert EndTimes(s.log) + [] == EndTimes(s.log) && EndResponses(s.queued) + [] == EndResponses(s.queued);
      }
    case Deactivate(_) =>
      LogSnoc(s.log, Block(false, true, false, 0, [0], Deactivation));
      assert EndTimes(s.log) + [] == EndTimes(s.log);
    case ReadStatus =>
  }

  lemma {:induction false} DriftRun(s: Tx, drift: int, drifts: seq<int>, acts: seq<Action>)
    requires Answered(s) && Leads(s, drift) && Shifted(EndResponses(s.queued), EndTimes(s.log), drifts)
    ensures var t := Execute(s, acts);
            Shifted(EndResponses(t.queued), EndTimes(t.log), drifts + EndDrifts(s, drift, acts))
    decreases |acts|
  {
    hide Answered, Leads, Shifted, Apply, Drift, EndsBurst, EndResponses, EndTimes;
    if acts == [] {
      assert drifts + [] == drifts;
    } else {
      var d := Drift(s, drift, acts[0]);
      var now := if EndsBurst(s, acts[0]) then [d] else [];
      StepKeeps(s, acts[0]);
      DriftStep(s, drift, drifts, acts[0]);
      DriftRun(Apply(s, acts[0]), d, drifts + now, acts[1..]);
      assert drifts + now + EndDrifts(Apply(s, acts[0]), d, acts[1..]) ==
             drifts + (now + EndDrifts(Apply(s, acts[0]), d, acts[1..]));
    }
  }

  /** Over every run each end-of-burst response differs from the device's own time of that end by exactly the drift
      there; so all are on time exactly if no burst ends with a drift. Refused starts, untimed refusals, underruns
      and deactivations do no harm: without a timed block refused inside a burst there is no drift. */
  lemma ResponsesOnTime(buffSize: nat, acts: seq<Action>)
    ensures var t, drifts := Execute(Init(buffSize), acts), EndDrifts(Init(buffSize), 0, acts);
            && Shifted(EndResponses(t.queued), EndTimes(t.log), drifts)
            && (EndResponses(t.queued) == EndTimes(t.log) <==> forall i :: 0 <= i < |drifts| ==> drifts[i] == 0)
            && (Never(LosesTime, Init(buffSize), acts) ==> EndResponses(t.queued) == EndTimes(t.log))
  {
    hide Execute, EndDrifts, Never, Answered, Shifted, EndResponses, EndTimes;
    var s := Init(buffSize);
    var t, drifts := Execute(s, acts), EndDrifts(s, 0, acts);
    InitAgrees(buffSize);
    ExecuteKeeps(s, acts);
    DriftRun(s, 0, [], acts);
    assert [] + drifts == drifts;
    ShiftedExact(EndResponses(t.queued), EndTimes(t.log), drifts);
  }

  lemma InitAgrees(buffSize: nat)
    ensures var s := Init(buffSize);
            Answered(s) && OnTime(s) && Leads(s, 0) && Shifted(EndResponses(s.queued), EndTimes(s.log), [])
  {
  }

  lemma ShiftedExact(responses: seq<int>, times: seq<int>, drifts: seq<int>)
    requires Shifted(responses, times, drifts)
    ensures responses == times <==> forall i :: 0 <= i < |drifts| ==> drifts[i] == 0
  {
    if responses == times {
      forall i | 0 <= i < |drifts| ensures drifts[i] == 0 {
        assert responses[i] == times[i] + drifts[i];
      }
    }
  }

  /** A drift happens: one sample sent at `now`, a block refused that asked for the time `ticks`, one sample that
      ends the burst. The response is wrong by the difference between the refused time and the time the device has
      reached. */
  lemma RefusedTimeShiftsResponse(buffSize: nat, x: Sample, now: int, ticks: int)
    requires buffSize > 0
    ensures var acts := [WriteStream([x], false, 0, false, now, Accepted(false)),
                         WriteStream([x], true, ticks, false, now, Failed),
                         WriteStream([x], false, 0, true, now, Accepted(false))];
            var t := Execute(Init(buffSize), acts);
            && EndTimes(t.log) == [now + 2] && EndResponses(t.queued) == [now + 2 + (ticks - (now + 1))]
  {
    var first, refused := WriteStream([x], false, 0, false, now, Accepted(false)),
                          WriteStream([x], true, ticks, false, now, Failed);
    var end := WriteStream([x], false, 0, true, now, Accepted(false));
    var b1 := Block(true, false, true, now, [x], Write(true));
    var b2 := Block(false, true, false, 0, [x], Write(true));
    var s1 := Tx(buffSize, true, now + 1, [], [b1], []);
    var s2 := s1.(nextTicks := ticks);
    var t := Tx(buffSize, false, ticks + 1, [EndOfBurst(ticks + 1)], [b1, b2], [EndOfBurst(ticks + 1)]);
    assert [x][..1] == [x];
    assert Apply(Init(buffSize), first) == s1 && Apply(s1, refused) == s2 && Apply(s2, end) == t;
    Execute3(Init(buffSize), first, refused, end);
    EndAfter(b1, b2, now, ticks + 1);
  }

  lemma Execute3(s: Tx, a: Action, b: Action, c: Action)
    ensures Execute(s, [a, b, c]) == Apply(Apply(Apply(s, a), b), c)
  {
    hide Apply;
    assert [a, b, c][1..] == [b, c] && [b, c][1..] == [c] && [c][1..] == [];
    assert Execute(Apply(s, a), [b, c]) == Execute(Apply(Apply(s, a), b), [c]);
  }

  lemma EndAfter(b1: Block, b2: Block, now: int, ticks: int)
    requires b1.stamped && b1.timestamp == now && !b1.end && |b1.data| == 1
    requires !b2.stamped && b2.end && |b2.data| == 1 && b2.origin.Write?
    ensures EndTimes([b1, b2]) == [now + 2] && EndResponses([EndOfBurst(ticks)]) == [ticks]
  {
    LogSnoc([], b1);
    LogSnoc([b1], b2);
    assert [] + [b1] == [b1] && [b1] + [b2] == [b1, b2];
    QueueSnoc([], EndOfBurst(ticks));
    assert [] + [EndOfBurst(ticks)] == [EndOfBurst(ticks)];
  }
}
