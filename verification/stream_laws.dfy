/** Safety of the stream lifecycle, in every state that some interleaving reaches. */
module StreamLaws {
  import opened Results
  import opened GnmiTypes
  import opened Pbr
  import opened Records
  import opened Requests
  import opened RequestLaws
  import opened StreamProtocol
  import opened StreamInvariants
  import opened StreamTraces

  // ----- exclusion -----

  /** Write and TryCancel never overlap the section of WritesDone and Finish. */
  lemma Exclusion(s: State, base: seq<PbrRecord>)
    requires Reachable(s, base)
    ensures s.caller.RegWrite? || s.caller.CloseCancel? ==> !ReceiverHolds(s.receiver)
    ensures s.status != Undefined
  {
    ReachableInv(s, base);
  }

  /** The handles are only assigned while no receive thread can look at them. */
  lemma HandlesAreNotRaced(s: State, step: Step, base: seq<PbrRecord>)
    requires Reachable(s, base) && Enabled(s, step)
    ensures var t := Apply(s, step);
            t.subscribeStreamRw != s.subscribeStreamRw || t.streamContext != s.streamContext ==> s.receiver.NoThread?
    ensures s.caller.RegSpawn? && step.CallerStep? ==> s.receiver.NoThread?
  {
    ReachableInv(s, base);
    if ByReceiver(step) {
      FrameOfReceiver(s, step);
    }
  }

  /** When a write is under way, the stream is either untouched by WritesDone and Finish or past both. */
  lemma WritesAreSerialized(s: State, base: seq<PbrRecord>)
    requires Reachable(s, base) && s.caller.RegWrite?
    ensures HasStream(s)
    ensures s.receiver.Exited? ==> EndsInOrder(CurrentStream(s).log)
    ensures !s.receiver.Exited? ==>
              forall e :: e in CurrentStream(s).log ==> !e.WritesDone? && !e.Finish? && !e.FailedCalled?
  {
    ReachableInv(s, base);
    var stream := CurrentStream(s);
    if s.receiver.Exited? {
      CompleteEndsInOrder(stream);
    } else {
      UnfinishedLog(stream, s.receiver);
    }
  }

  /** Once close has joined the thread, WritesDone and Finish were called on every stream, once and in order. */
  lemma ClosedStreamsHaveEnded(s: State, i: int, base: seq<PbrRecord>)
    requires Reachable(s, base) && (s.caller.CloseReset? || (s.caller.Idle? && s.receiver.NoThread?))
    requires 0 <= i < |s.streams|
    ensures EndsInOrder(s.streams[i].log)
  {
    ReachableInv(s, base);
    CompleteEndsInOrder(s.streams[i]);
  }

  // ----- the handlers -----

  /** The success calls belong to accepted responses, one to one and in order; a failure call may follow. */
  ghost predicate HandlersToldOf(calls: seq<Event>, responses: seq<SubscribeResponse>, failure: seq<Event>) {
    exists records :: calls == SuccessCalls(records) + failure && Stored(responses, records)
  }

  /**
   * On every stream: the success handler was called once for each accepted response, in order, and
   * found that response's record last in the statistics; after Finish, the failure handler was called
   * if and only if the status is neither OK nor CANCELLED, and before that not at all.
   */
  lemma HandlersCalled(s: State, i: int, base: seq<PbrRecord>)
    requires Reachable(s, base) && 0 <= i < |s.streams|
    ensures var stream := s.streams[i];
            if Complete(stream) then
              exists status :: Finish(status) in stream.log
                            && HandlersToldOf(HandlerCalls(stream.log), ResponsesRead(stream.log), FailureCalls(status))
            else
              && s.subscribeStreamRw == Some(i)
              && HandlersToldOf(HandlerCalls(stream.log), Told(stream, s.receiver), [])
              && ResponsesRead(stream.log)
              == stream.responses + (if s.receiver.Processing? then [s.receiver.response] else [])
  {
    ReachableLogs(s, base);
    var stream := s.streams[i];
    if Complete(stream) {
      EndedStreamCalls(stream);
    } else {
      OpenTraceCalls(stream, s.receiver);
      AcceptedCallsTold(Told(stream, s.receiver), []);
      assert HandlerCalls(stream.log) + [] == HandlerCalls(stream.log);
    }
  }

  lemma AcceptedCallsTold(responses: seq<SubscribeResponse>, failure: seq<Event>)
    ensures HandlersToldOf(SuccessCalls(AcceptedRecords(responses)) + failure, responses, failure)
  {
    AcceptedRecordsStored(responses);
  }

  lemma EndedStreamCalls(stream: Stream)
    requires Complete(stream)
    ensures exists status :: Finish(status) in stream.log
                          && HandlersToldOf(HandlerCalls(stream.log), ResponsesRead(stream.log), FailureCalls(status))
  {
    var status :| stream.log == FullTrace(stream.responses, status);
    FullTraceCalls(stream.responses, status);
    AcceptedCallsTold(stream.responses, FailureCalls(status));
    var at := |Trace(stream.responses)| + 2;
    assert stream.log[at] == Finish(status);
  }

  // ----- the handles between calls -----

  lemma HandleIffThread(s: State, base: seq<PbrRecord>)
    requires Reachable(s, base) && s.caller.Idle?
    ensures !s.receiver.NoThread? <==> s.subscribeStreamRw.Some?
    ensures s.subscribeStreamRw.Some? ==> HasStream(s) && s.streamContext == Some(CurrentStream(s).context)
  {
    ReachableInv(s, base);
  }

  /** A context is not replaced, and keeps its credentials and deadline, while its stream handle is held. */
  lemma ContextIsKept(s: State, step: Step, base: seq<PbrRecord>)
    requires Reachable(s, base) && Enabled(s, step) && s.subscribeStreamRw.Some?
    ensures HasStream(s) && HasContext(s) && s.streamContext == Some(CurrentStream(s).context)
    ensures var t := Apply(s, step);
            && t.streamContext == s.streamContext && HasContext(t)
            && t.contexts[t.streamContext.value].args == s.contexts[s.streamContext.value].args
            && t.subscribeStreamRw == (if step.CallerStep? && s.caller.CloseReset? then None else s.subscribeStreamRw)
  {
    ReachableHandles(s, base);
    HandleKept(s, step);
    if ByReceiver(step) {
      FrameOfReceiver(s, step);
    }
  }

  // ----- writes -----

  /** No call, or a call of close. */
  predicate OutsideRegister(pc: CallerPc) {
    pc.Idle? || pc.CloseCheck? || pc.CloseLock? || pc.CloseCancel? || pc.CloseUnlock? || pc.CloseJoin? || pc.CloseReset?
  }

  predicate OnlyRefused(steps: seq<Step>) {
    forall i :: 0 <= i < |steps| && steps[i].CallRegister? ==> steps[i].clientType != "pbr"
  }

  predicate NothingAdded(s: State, t: State) {
    && t.registered == s.registered && t.writes == s.writes
    && |t.streams| == |s.streams| && |t.contexts| == |s.contexts|
  }

  lemma NothingAddedByStep(s: State, step: Step)
    requires OutsideRegister(s.caller) && Enabled(s, step) && (step.CallRegister? ==> step.clientType != "pbr")
    ensures OutsideRegister(Apply(s, step).caller) && NothingAdded(s, Apply(s, step))
  {
    if ByReceiver(step) {
      FrameOfReceiver(s, step);
    }
  }

  /** As long as every call is refused, no interleaving registers, opens or writes anything. */
  lemma {:induction false} RefusedCallsAddNothing(s: State, steps: seq<Step>)
    requires OutsideRegister(s.caller) && Allowed(s, steps) && OnlyRefused(steps)
    ensures NothingAdded(s, Run(s, steps))
    decreases |steps|
  {
    if steps != [] {
      NothingAddedByStep(s, steps[0]);
      RefusedCallsAddNothing(Apply(s, steps[0]), steps[1..]);
    }
  }

  /**
   * With a counter of another type a call only reports that. Otherwise it asks for a stream; with a
   * supported encoding, for samples with one subscription per key, on the path of that key.
   */
  lemma RequestOfCall(s: State, clientType: string, args: ContextArgs, rpcArgs: RpcArgs, keys: seq<PbrKey>)
    ensures var t := Apply(s, CallRegister(clientType, args, rpcArgs, keys));
            && (clientType != "pbr" ==> t == s.(lastResult := Some(CLIENT_TYPE_FAILURE)))
            && (clientType == "pbr" ==>
                  && |t.registered| == |s.registered| + 1 && t.registered[..|s.registered|] == s.registered
                  && t.registered[|s.registered|].args == args
                  && AsksForKeys(t.registered[|s.registered|].request, STREAM, rpcArgs, keys))
  {
    if clientType == "pbr" {
      RequestAsksForKeys(STREAM, rpcArgs, keys);
    }
  }

  /** Each call that returned has written its own request, once and in order. */
  lemma EveryCallWrites(s: State, base: seq<PbrRecord>)
    requires Reachable(s, base) && s.caller.Idle?
    ensures |s.writes| == |s.registered|
    ensures forall k :: 0 <= k < |s.writes| ==> s.writes[k].request == s.registered[k].request
  {
    ReachableCalls(s, base);
  }

  /** Two writes go to the same stream exactly when no close lies between the calls. */
  lemma WritesOfAnEpoch(s: State, i: int, j: int, base: seq<PbrRecord>)
    requires Reachable(s, base) && 0 <= i <= j < |s.writes|
    ensures |s.writes| <= |s.registered|
    ensures s.writes[i].stream == s.writes[j].stream <==> s.registered[i].epoch == s.registered[j].epoch
  {
    ReachableCalls(s, base);
    var a, b := s.writes[i].stream, s.writes[j].stream;
    assert s.streams[a].epoch == s.registered[i].epoch && s.streams[b].epoch == s.registered[j].epoch;
    if a < b {
      assert s.streams[a].epoch < s.streams[b].epoch;
    } else if b < a {
      assert s.streams[b].epoch < s.streams[a].epoch;
    }
  }

  lemma FirstIsOpener(registered: seq<Registration>, stream: Stream, context: Context, first: nat)
    requires OpenedBy(registered, stream, context)
    requires first < |registered| && registered[first].epoch == stream.epoch
    requires forall k :: 0 <= k < first ==> registered[k].epoch != stream.epoch
    ensures context.args == registered[first].args
  {
    assert first >= stream.opener;
    assert stream.opener >= first;
  }

  /** That stream was opened with the credentials and deadline of the first call of the epoch. */
  lemma WritesUseFirstCredentials(s: State, first: int, j: int, base: seq<PbrRecord>)
    requires Reachable(s, base) && 0 <= first <= j < |s.writes|
    requires |s.writes| <= |s.registered| && s.registered[first].epoch == s.registered[j].epoch
    requires forall k :: 0 <= k < first ==> s.registered[k].epoch != s.registered[first].epoch
    ensures s.writes[j].stream < |s.streams| && s.streams[s.writes[j].stream].context < |s.contexts|
    ensures s.contexts[s.streams[s.writes[j].stream].context].args == s.registered[first].args
  {
    ReachableCalls(s, base);
    var stream := s.streams[s.writes[j].stream];
    FirstIsOpener(s.registered, stream, s.contexts[stream.context], first);
  }

  // ----- a write after Finish -----

  /**
   * The null check of the context does not prevent a write on a finished stream: a write comes
   * after Finish exactly when the receive thread has already ended.
   */
  lemma WriteAfterFinish(s: State, ok: bool, base: seq<PbrRecord>)
    requires Reachable(s, base) && Enabled(s, CallerWrite(ok))
    ensures var t := Apply(s, CallerWrite(ok));
            && t.status == Running && |t.writes| == |s.writes| + 1
            && (t.writes[|s.writes|].afterFinish <==> s.receiver.Exited?)
            && t.caller == RegUnlock(if ok then OK else WRITES_FAILED)
  {
    ReachableInv(s, base);
    var stream := CurrentStream(s);
    if s.receiver.Exited? {
      CompleteEndsInOrder(stream);
    } else {
      UnfinishedLog(stream, s.receiver);
    }
  }

  /** rpc_register_stats_stream says what its write said; it never asks for a close. */
  lemma ResultOfCall(s: State, base: seq<PbrRecord>)
    requires Reachable(s, base)
    ensures s.caller.RegUnlock? ==>
              && s.writes != [] && s.caller.result != RPC_FAILURE
              && (s.caller.result == OK <==> s.writes[|s.writes| - 1].ok)
    ensures s.lastResult != Some(RPC_FAILURE)
  {
    ReachableInv(s, base);
  }
}
