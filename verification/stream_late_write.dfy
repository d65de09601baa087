/** A run in which a request is written on a stream that is already finished. */
module StreamLateWrite {
  import opened Results
  import opened GnmiTypes
  import opened Pbr
  import opened Requests
  import opened StreamProtocol
  import opened StreamInvariants
  import opened StreamLaws

  /** The registration of a first call. */
  function FirstCall(args: ContextArgs, rpcArgs: RpcArgs, keys: seq<PbrKey>): Registration {
    Registration(args, RequestFor(rpcArgs.(mode := STREAM), RequestPathTexts(keys)), 0)
  }

  /** The first call opens a stream and lets go of the mutex, before it writes. */
  lemma Opened(args: ContextArgs, rpcArgs: RpcArgs, keys: seq<PbrKey>, base: seq<PbrRecord>) returns (s: State)
    ensures Reachable(s, base) && s.status == Running && s.mutex == Free
    ensures s.caller.RegWriteLock? && s.receiver.Reading?
    ensures s.registered == [FirstCall(args, rpcArgs, keys)]
    ensures HasStream(s) && CurrentStream(s).responses == []
  {
    var call := FirstCall(args, rpcArgs, keys);
    s := Init(base);
    assert Run(s, []) == s && Allowed(s, []);
    ReachableStep(s, CallRegister("pbr", args, rpcArgs, keys), base);
    s := Apply(s, CallRegister("pbr", args, rpcArgs, keys));
    assert s.registered == [call];
    var i := 0;
    while i < 6
      invariant 0 <= i <= 6 && Reachable(s, base) && s.status == Running && s.streamContext.Some? == (i >= 3)
      invariant s.registered == [call]
      invariant i >= 4 ==> HasStream(s) && CurrentStream(s).responses == []
      invariant if i < 5 then s.receiver.NoThread? else s.receiver.Reading?
      invariant if i < 2 || i == 6 then s.mutex == Free else s.mutex == Caller
      invariant match i
                case 0 => s.caller.RegCheck?
                case 1 => s.caller.RegOpenLock?
                case 2 => s.caller.RegContext?
                case 3 => s.caller.RegSubscribe?
                case 4 => s.caller.RegSpawn?
                case 5 => s.caller.RegOpenUnlock?
                case _ => s.caller.RegWriteLock?
    {
      ReachableStep(s, CallerStep, base);
      s, i := Apply(s, CallerStep), i + 1;
    }
  }

  /** Meanwhile the server ends the stream, and the receive thread closes it and exits. */
  lemma Ended(before: State, status: Status, base: seq<PbrRecord>) returns (s: State)
    requires Reachable(before, base) && before.status == Running && before.mutex == Free
    requires before.caller.RegWriteLock? && before.receiver.Reading?
    ensures Reachable(s, base) && s.status == Running && s.mutex == Free
    ensures s.caller == before.caller && s.registered == before.registered && s.receiver.Exited?
    ensures HasStream(before) && HasStream(s) && CurrentStream(s).responses == CurrentStream(before).responses
    ensures Finish(status) in CurrentStream(s).log
  {
    ReachableHandles(before, base);
    s := before;
    var steps := [ReadFalse, ReceiverStep, ReceiverStep, FinishReturns(status), ReceiverStep, ReceiverStep];
    var i := 0;
    while i < 6
      invariant 0 <= i <= 6 && Reachable(s, base) && s.status == Running
      invariant s.caller == before.caller && s.registered == before.registered
      invariant HasStream(s) && CurrentStream(s).responses == CurrentStream(before).responses
      invariant i >= 4 ==> Finish(status) in CurrentStream(s).log
      invariant if i < 2 || i == 6 then s.mutex == Free else s.mutex == Receiver
      invariant match i
                case 0 => s.receiver.Reading?
                case 1 => s.receiver.WaitLock?
                case 2 => s.receiver.InWritesDone?
                case 3 => s.receiver.InFinish?
                case 4 => s.receiver.Reporting?
                case 5 => s.receiver.Releasing?
                case _ => s.receiver.Exited?
    {
      ReachableHandles(s, base);
      ReachableStep(s, steps[i], base);
      s, i := Apply(s, steps[i]), i + 1;
    }
  }

  /** The last write carries this call's request on its own stream, behind the Finish of this status. */
  ghost predicate WroteLate(s: State, call: Registration, status: Status, ok: bool) {
    && s.writes != []
    && var last := s.writes[|s.writes| - 1];
       && last.afterFinish && last.request == call.request && last.ok == ok
       && last.stream < |s.streams| && Finish(status) in s.streams[last.stream].log
       && s.streams[last.stream].context < |s.contexts|
       && s.contexts[s.streams[last.stream].context].args == call.args
  }

  lemma FirstWrite(s: State, call: Registration, ok: bool, base: seq<PbrRecord>)
    requires Reachable(s, base) && s.registered == [call] && s.caller.RegUnlock?
    ensures |s.writes| == 1 && s.writes[0].request == call.request && s.writes[0].stream < |s.streams|
    ensures s.streams[s.writes[0].stream].context < |s.contexts|
    ensures s.contexts[s.streams[s.writes[0].stream].context].args == call.args
  {
    ReachableCalls(s, base);
    WritesUseFirstCredentials(s, 0, 0, base);
  }

  /**
   * Whatever the first call's arguments are, and whatever status the server ends the stream with before
   * the call takes the mutex again: the call writes its request on the finished stream.
   */
  lemma LateWriteHappens(args: ContextArgs, rpcArgs: RpcArgs, keys: seq<PbrKey>, status: Status, ok: bool,
                         base: seq<PbrRecord>)
    ensures exists s :: Reachable(s, base) && WroteLate(s, FirstCall(args, rpcArgs, keys), status, ok)
  {
    var call := FirstCall(args, rpcArgs, keys);
    var s := Opened(args, rpcArgs, keys, base);
    s := Ended(s, status, base);
    ReachableStep(s, CallerStep, base);
    s := Apply(s, CallerStep);
    WriteAfterFinish(s, ok, base);
    ReachableStep(s, CallerWrite(ok), base);
    s := Apply(s, CallerWrite(ok));
    FirstWrite(s, call, ok, base);
    assert WroteLate(s, call, status, ok);
  }
}
