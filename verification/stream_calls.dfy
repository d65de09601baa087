/** What the two calls of the stream client have done when they return. */
module StreamCalls {
  import opened Results
  import opened GnmiTypes
  import opened Pbr
  import opened Records
  import opened RequestLaws
  import opened StreamProtocol
  import opened StreamInvariants
  import opened StreamTraces
  import opened StreamLaws

  predicate IsCall(step: Step) {
    step.CallRegister? || step.CallClose? || step.CallOnce?
  }

  predicate NoCalls(steps: seq<Step>) {
    forall i :: 0 <= i < |steps| ==> !IsCall(steps[i])
  }

  // ----- calls that can be made -----

  /** Between calls the user can make any call of the stream client; it leaves the idle state at once. */
  lemma IdleTakesCalls(s: State, args: ContextArgs, rpcArgs: RpcArgs, keys: seq<PbrKey>)
    requires s.status == Running && s.caller.Idle?
    ensures Enabled(s, CallClose) && !Apply(s, CallClose).caller.Idle?
    ensures Enabled(s, CallRegister("pbr", args, rpcArgs, keys))
    ensures !Apply(s, CallRegister("pbr", args, rpcArgs, keys)).caller.Idle?
  {
  }

  /** Between calls and without a running thread, a ONCE call stores what its read loop stores. */
  lemma OnceCallStores(s: State, responses: seq<SubscribeResponse>)
    requires s.status == Running && s.caller.Idle? && (s.receiver.NoThread? || s.receiver.Exited?)
    ensures Enabled(s, CallOnce(responses))
    ensures var t, n := Apply(s, CallOnce(responses)), FirstThrow(responses);
            && t == s.(stats := t.stats, arrived := s.arrived + responses[..n])
            && s.stats <= t.stats && ReadUpTo(responses, n, t.stats[|s.stats|..])
  {
    ReadUpToFirstThrow(responses);
    var t := Apply(s, CallOnce(responses));
    assert t.stats[|s.stats|..] == AcceptedRecords(responses[..FirstThrow(responses)]);
  }

  // ----- every call comes to its end -----

  /** How many actions of its own the caller has left at most. */
  function StepsLeft(pc: CallerPc): nat {
    match pc
    case RegCheck(_) => 9
    case RegOpenLock(_) => 8
    case RegContext(_) => 7
    case RegSubscribe(_) => 6
    case RegSpawn(_) => 5
    case RegOpenUnlock(_) => 4
    case RegWriteLock(_) => 3
    case RegWrite(_) => 2
    case RegUnlock(_) => 1
    case CloseCheck => 6
    case CloseLock => 5
    case CloseCancel => 4
    case CloseUnlock => 3
    case CloseJoin => 2
    case CloseReset => 1
    case Idle => 0
  }

  /** Every action of the caller brings its call nearer to the end; the receive thread does not set it back. */
  lemma CallsAdvance(s: State, step: Step, base: seq<PbrRecord>)
    requires Reachable(s, base) && Enabled(s, step) && !IsCall(step)
    ensures ByReceiver(step) ==> Apply(s, step).caller == s.caller
    ensures !ByReceiver(step) ==> StepsLeft(Apply(s, step).caller) < StepsLeft(s.caller)
  {
    ReachableHandles(s, base);
    if ByReceiver(step) {
      FrameOfReceiver(s, step);
    }
  }

  // ----- rpc_register_stats_stream -----

  /** The call's own write is the last one, behind what was written before. */
  predicate HasWritten(s: State, call: Registration, before: seq<WriteRecord>) {
    && |s.writes| == |before| + 1 && s.writes[..|before|] == before
    && s.writes[|before|].request == call.request
  }

  function ResultOf(write: WriteRecord): ErrorCode {
    if write.ok then OK else WRITES_FAILED
  }

  ghost predicate Registering(s: State, call: Registration, before: seq<WriteRecord>) {
    if Pending(s.caller) then s.caller.call == call && s.writes == before
    else
      && (s.caller.RegUnlock? || s.caller.Idle?)
      && !s.receiver.NoThread? && HasWritten(s, call, before)
      && (s.caller.RegUnlock? ==> s.caller.result == ResultOf(s.writes[|before|]))
      && (s.caller.Idle? ==> s.lastResult == Some(ResultOf(s.writes[|before|])))
  }

  lemma RegisteringByReceiver(s: State, step: Step, call: Registration, before: seq<WriteRecord>)
    requires HandleInv(s) && Registering(s, call, before) && Enabled(s, step) && ByReceiver(step)
    ensures Registering(Apply(s, step), call, before)
  {
    FrameOfReceiver(s, step);
  }

  lemma RegisteringStep(s: State, step: Step, call: Registration, before: seq<WriteRecord>)
    requires HandleInv(s) && Registering(s, call, before) && Enabled(s, step) && !IsCall(step)
    ensures Registering(Apply(s, step), call, before)
  {
    if ByReceiver(step) {
      RegisteringByReceiver(s, step, call, before);
    }
  }

  lemma {:induction false} RegisteringRun(s: State, steps: seq<Step>, call: Registration, before: seq<WriteRecord>,
                                          base: seq<PbrRecord>)
    requires Reachable(s, base) && Registering(s, call, before) && Allowed(s, steps) && NoCalls(steps)
    ensures Registering(Run(s, steps), call, before)
    decreases |steps|
  {
    if steps != [] {
      ReachableHandles(s, base);
      RegisteringStep(s, steps[0], call, before);
      ReachableStep(s, steps[0], base);
      RegisteringRun(Apply(s, steps[0]), steps[1..], call, before, base);
    }
  }

  /**
   * When the call returns, whatever the interleaving, it has written its request behind all earlier
   * writes, it says whether that write succeeded, and there is a receive thread.
   */
  lemma RegisterReturns(s: State, args: ContextArgs, rpcArgs: RpcArgs, keys: seq<PbrKey>, steps: seq<Step>,
                        base: seq<PbrRecord>)
    requires Reachable(s, base) && Enabled(s, CallRegister("pbr", args, rpcArgs, keys))
    requires Allowed(Apply(s, CallRegister("pbr", args, rpcArgs, keys)), steps) && NoCalls(steps)
    ensures var t := Run(Apply(s, CallRegister("pbr", args, rpcArgs, keys)), steps);
            t.caller.Idle? ==>
              && |t.writes| == |s.writes| + 1 && t.writes[..|s.writes|] == s.writes
              && AsksForKeys(t.writes[|s.writes|].request, STREAM, rpcArgs, keys)
              && t.lastResult == Some(if t.writes[|s.writes|].ok then OK else WRITES_FAILED)
              && !t.receiver.NoThread?
  {
    var step := CallRegister("pbr", args, rpcArgs, keys);
    RequestAsksForKeys(STREAM, rpcArgs, keys);
    ReachableStep(s, step, base);
    RegisteringRun(Apply(s, step), steps, Apply(s, step).caller.call, s.writes, base);
  }

  // ----- rpc_stream_close -----

  predicate InClose(pc: CallerPc) {
    pc.CloseCheck? || pc.CloseLock? || pc.CloseCancel? || pc.CloseUnlock? || pc.CloseJoin? || pc.CloseReset?
  }

  predicate ClosingUp(s: State, before: State) {
    && s.writes == before.writes && s.registered == before.registered && |s.streams| == |before.streams|
    && if InClose(s.caller) then s.epoch == before.epoch
       else
         && s.caller.Idle? && s.receiver.NoThread? && s.subscribeStreamRw == None
         && s.lastResult == Some(OK) && s.epoch == before.epoch + 1
  }

  lemma ClosingUpStep(s: State, step: Step, before: State)
    requires HandleInv(s) && ClosingUp(s, before) && Enabled(s, step) && !IsCall(step)
    ensures ClosingUp(Apply(s, step), before)
  {
    if ByReceiver(step) {
      FrameOfReceiver(s, step);
    }
  }

  lemma {:induction false} ClosingUpRun(s: State, steps: seq<Step>, before: State, base: seq<PbrRecord>)
    requires Reachable(s, base) && ClosingUp(s, before) && Allowed(s, steps) && NoCalls(steps)
    ensures ClosingUp(Run(s, steps), before)
    decreases |steps|
  {
    if steps != [] {
      ReachableHandles(s, base);
      ClosingUpStep(s, steps[0], before);
      ReachableStep(s, steps[0], base);
      ClosingUpRun(Apply(s, steps[0]), steps[1..], before, base);
    }
  }

  /**
   * When close returns, whatever the interleaving, it says OK, there is neither a receive thread nor a
   * stream handle, every stream has ended in order, and nothing was opened or written.
   */
  lemma CloseReturns(s: State, steps: seq<Step>, base: seq<PbrRecord>)
    requires Reachable(s, base) && Enabled(s, CallClose)
    requires Allowed(Apply(s, CallClose), steps) && NoCalls(steps)
    ensures var t := Run(Apply(s, CallClose), steps);
            t.caller.Idle? ==>
              && t.lastResult == Some(OK) && t.receiver.NoThread? && t.subscribeStreamRw == None
              && t.epoch == s.epoch + 1 && t.writes == s.writes && |t.streams| == |s.streams|
              && forall i :: 0 <= i < |t.streams| ==> EndsInOrder(t.streams[i].log)
  {
    ReachableStep(s, CallClose, base);
    ClosingUpRun(Apply(s, CallClose), steps, s, base);
    ReachableRun(Apply(s, CallClose), steps, base);
    var t := Run(Apply(s, CallClose), steps);
    if t.caller.Idle? {
      forall i | 0 <= i < |t.streams| ensures EndsInOrder(t.streams[i].log) {
        ClosedStreamsHaveEnded(t, i, base);
      }
    }
  }
}
