/** The statistics over whole runs, and the STREAM calls against the ONCE call. */
module StreamStats {
  import opened Results
  import opened GnmiTypes
  import opened Pbr
  import opened Records
  import opened StreamProtocol
  import opened StreamInvariants

  /** The responses that the streams have dealt with, stream by stream. */
  function Handled(streams: seq<Stream>): seq<SubscribeResponse> {
    if streams == [] then []
    else Handled(streams[..|streams| - 1]) + streams[|streams| - 1].responses
  }

  predicate NoOnce(steps: seq<Step>) {
    forall i :: 0 <= i < |steps| ==> !steps[i].CallOnce?
  }

  /** Since there were n streams and these arrivals, only newer streams have brought responses. */
  ghost predicate Since(n: nat, arrived: seq<SubscribeResponse>, s: State) {
    && n <= |s.streams|
    && s.arrived == arrived + Handled(s.streams[n..])
    && (s.subscribeStreamRw.Some? ==> n <= s.subscribeStreamRw.value)
  }

  lemma {:induction false} HandledSame(a: seq<Stream>, b: seq<Stream>)
    requires |a| == |b| && forall i :: 0 <= i < |a| ==> a[i].responses == b[i].responses
    ensures Handled(a) == Handled(b)
  {
    if a != [] {
      HandledSame(a[..|a| - 1], b[..|b| - 1]);
    }
  }

  lemma HandledMore(streams: seq<Stream>, r: SubscribeResponse)
    requires streams != []
    ensures var n := |streams| - 1;
            Handled(streams[n := streams[n].(responses := streams[n].responses + [r])]) == Handled(streams) + [r]
  {
    var n := |streams| - 1;
    var longer := streams[n := streams[n].(responses := streams[n].responses + [r])];
    assert longer[..n] == streams[..n];
  }

  lemma HandledOpened(streams: seq<Stream>, stream: Stream)
    requires stream.responses == []
    ensures Handled(streams + [stream]) == Handled(streams)
  {
    assert (streams + [stream])[..|streams|] == streams;
  }

  lemma SinceProcessing(n: nat, arrived: seq<SubscribeResponse>, s: State)
    requires HandleInv(s) && Since(n, arrived, s) && s.receiver.Processing?
    ensures Since(n, arrived, Process(s, s.receiver.response))
  {
    if !Throws(s.receiver.response) {
      var t := Process(s, s.receiver.response);
      var last := |s.streams| - 1;
      HandledMore(s.streams[n..], s.receiver.response);
      assert t.streams[n..] == s.streams[n..][last - n := t.streams[last]];
    }
  }

  lemma SinceSubscribe(n: nat, arrived: seq<SubscribeResponse>, s: State)
    requires HandleInv(s) && Since(n, arrived, s) && s.caller.RegSubscribe?
    ensures Since(n, arrived, CallerAction(s))
  {
    var t := CallerAction(s);
    HandledOpened(s.streams[n..], t.streams[|s.streams|]);
    assert t.streams[n..] == s.streams[n..] + [t.streams[|s.streams|]];
  }

  lemma ResponsesUntouched(s: State, step: Step)
    requires HandleInv(s) && Enabled(s, step)
    requires !(step.ReceiverStep? && s.receiver.Processing?) && !(step.CallerStep? && s.caller.RegSubscribe?)
    ensures |Apply(s, step).streams| == |s.streams|
    ensures forall i :: 0 <= i < |s.streams| ==> Apply(s, step).streams[i].responses == s.streams[i].responses
    ensures Apply(s, step).subscribeStreamRw.Some? ==> Apply(s, step).subscribeStreamRw == s.subscribeStreamRw
  {
  }

  lemma SinceKept(n: nat, arrived: seq<SubscribeResponse>, s: State, step: Step)
    requires HandleInv(s) && Since(n, arrived, s) && Enabled(s, step) && !step.CallOnce?
    ensures Since(n, arrived, Apply(s, step))
  {
    if step.ReceiverStep? && s.receiver.Processing? {
      SinceProcessing(n, arrived, s);
    } else if step.CallerStep? && s.caller.RegSubscribe? {
      SinceSubscribe(n, arrived, s);
    } else {
      StatsUntouched(s, step);
      ResponsesUntouched(s, step);
      HandledSame(s.streams[n..], Apply(s, step).streams[n..]);
    }
  }

  lemma SinceStep(n: nat, arrived: seq<SubscribeResponse>, s: State, step: Step, base: seq<PbrRecord>)
    requires Inv(s, base) && Since(n, arrived, s) && Enabled(s, step) && !step.CallOnce?
    ensures Inv(Apply(s, step), base) && Since(n, arrived, Apply(s, step))
  {
    SinceKept(n, arrived, s, step);
    InvKept(s, step, base);
  }

  lemma {:induction false} SinceRun(n: nat, arrived: seq<SubscribeResponse>, s: State, steps: seq<Step>,
                                    base: seq<PbrRecord>)
    requires Inv(s, base) && Since(n, arrived, s) && Allowed(s, steps) && NoOnce(steps)
    ensures Inv(Run(s, steps), base) && Since(n, arrived, Run(s, steps))
    decreases |steps|
  {
    if steps != [] {
      SinceStep(n, arrived, s, steps[0], base);
      SinceRun(n, arrived, Apply(s, steps[0]), steps[1..], base);
    }
  }

  // ----- the laws -----

  /** In every run, the statistics are what was there plus the records of the accepted responses, in order. */
  lemma StatsOfRun(s: State, base: seq<PbrRecord>)
    requires Reachable(s, base)
    ensures s.stats == base + AcceptedRecords(s.arrived)
    ensures base <= s.stats && Stored(s.arrived, s.stats[|base|..])
    ensures forall i :: 0 <= i < |s.arrived| ==> !ResponseOutcome(s.arrived[i]).Threw?
  {
    ReachableInv(s, base);
    AcceptedRecordsStored(s.arrived);
    assert s.stats[|base|..] == AcceptedRecords(s.arrived);
  }

  lemma SinceStart(s: State, steps: seq<Step>, base: seq<PbrRecord>)
    requires Reachable(s, base) && s.caller.Idle? && s.receiver.NoThread?
    requires Allowed(s, steps) && NoOnce(steps)
    ensures Since(|s.streams|, s.arrived, Run(s, steps))
    ensures StatsInv(s, base) && StatsInv(Run(s, steps), base) && ArrivedInv(Run(s, steps))
  {
    ReachableInv(s, base);
    assert s.streams[|s.streams|..] == [];
    SinceRun(|s.streams|, s.arrived, s, steps, base);
  }

  /**
   * From a state without a stream, whatever the calls and the interleaving: the statistics end up as
   * if a ONCE call had read the responses that the streams dealt with.
   */
  lemma StreamsLikeOnce(s: State, steps: seq<Step>, base: seq<PbrRecord>)
    requires Reachable(s, base) && s.caller.Idle? && s.receiver.NoThread?
    requires Allowed(s, steps) && NoOnce(steps)
    ensures var t := Run(s, steps);
            && |s.streams| <= |t.streams|
            && var read := Handled(t.streams[|s.streams|..]);
               t.stats == s.stats + AcceptedRecords(read) && t.stats == Apply(s, CallOnce(read)).stats
  {
    SinceStart(s, steps, base);
    var read := Handled(Run(s, steps).streams[|s.streams|..]);
    StatsAfter(s, Run(s, steps), read, base);
    WholeRead(read, s.arrived);
  }

  lemma StatsAfter(s: State, t: State, read: seq<SubscribeResponse>, base: seq<PbrRecord>)
    requires StatsInv(s, base) && StatsInv(t, base) && t.arrived == s.arrived + read
    ensures t.stats == s.stats + AcceptedRecords(read)
  {
    AcceptedRecordsConcat(s.arrived, read);
    StatsGrow(base, AcceptedRecords(s.arrived), s.stats, AcceptedRecords(read));
  }

  lemma WholeRead(read: seq<SubscribeResponse>, before: seq<SubscribeResponse>)
    requires NoneThrows(before + read)
    ensures read[..FirstThrow(read)] == read
  {
    forall i | 0 <= i < |read| ensures !Throws(read[i]) {
      assert (before + read)[|before| + i] == read[i];
    }
    assert read[..|read|] == read;
    FirstThrowAt(read, |read|);
  }
}
