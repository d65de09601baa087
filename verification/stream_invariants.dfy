/** What every step of every interleaving keeps. */
module StreamInvariants {
  import opened Results
  import opened GnmiTypes
  import opened Pbr
  import opened Records
  import opened StreamProtocol

  // ----- the mutex -----

  ghost predicate CallerHolds(pc: CallerPc) {
    pc.RegContext? || pc.RegSubscribe? || pc.RegSpawn? || pc.RegOpenUnlock? || pc.RegWrite? || pc.RegUnlock?
    || pc.CloseCancel? || pc.CloseUnlock?
  }

  /** The section that calls WritesDone and Finish, and reports a failure. */
  ghost predicate ReceiverHolds(pc: ReceiverPc) {
    pc.InWritesDone? || pc.InFinish? || pc.Reporting? || pc.Releasing?
  }

  ghost predicate MutexInv(s: State) {
    && (s.mutex == Caller <==> CallerHolds(s.caller))
    && (s.mutex == Receiver <==> ReceiverHolds(s.receiver))
  }

  // ----- the handles -----

  /** Before the stream handle of this call exists. */
  ghost predicate Opening(pc: CallerPc) {
    pc.RegOpenLock? || pc.RegContext? || pc.RegSubscribe?
  }

  ghost predicate WithThread(pc: CallerPc) {
    pc.RegOpenUnlock? || pc.RegWriteLock? || pc.RegWrite? || pc.RegUnlock?
    || pc.CloseLock? || pc.CloseCancel? || pc.CloseUnlock? || pc.CloseJoin?
  }

  ghost predicate HandleInv(s: State) {
    && s.status != Undefined
    && |s.contexts| == |s.streams| + (if s.caller.RegSubscribe? then 1 else 0)
    && (forall i :: 0 <= i < |s.streams| ==> s.streams[i].context == i)
    && (s.subscribeStreamRw.Some? ==>
          s.subscribeStreamRw.value == |s.streams| - 1 && s.streamContext == s.subscribeStreamRw)
    && (s.caller.RegSubscribe? ==> s.streamContext == Some(|s.contexts| - 1))
    && (!s.receiver.NoThread? ==> s.subscribeStreamRw.Some?)
    && (s.subscribeStreamRw.Some? && s.receiver.NoThread? ==> s.caller.RegSpawn? || s.caller.CloseReset?)
    && (Opening(s.caller) ==> s.subscribeStreamRw.None?)
    && (s.caller.RegSpawn? ==> s.subscribeStreamRw.Some? && s.receiver.NoThread?)
    && (WithThread(s.caller) ==> !s.receiver.NoThread?)
    && (s.caller.CloseReset? ==> s.receiver.NoThread?)
  }

  // ----- what the receive thread leaves alone -----

  ghost predicate ByReceiver(step: Step) {
    step.ReadTrue? || step.ReadFalse? || step.ReceiverStep? || step.FinishReturns?
  }

  /** Nothing changes but the events and responses of the current stream, the statistics and the buffer. */
  ghost predicate ReceiverFrame(s: State, t: State) {
    && t.caller == s.caller && t.registered == s.registered && t.writes == s.writes && t.epoch == s.epoch
    && t.lastResult == s.lastResult
    && t.subscribeStreamRw == s.subscribeStreamRw && t.streamContext == s.streamContext
    && |t.streams| == |s.streams| && |t.contexts| == |s.contexts|
    && (forall i :: 0 <= i < |s.streams| ==>
          && t.streams[i].context == s.streams[i].context
          && t.streams[i].opener == s.streams[i].opener && t.streams[i].epoch == s.streams[i].epoch
          && (s.subscribeStreamRw != Some(i) ==> t.streams[i] == s.streams[i]))
    && (forall i :: 0 <= i < |s.contexts| ==>
          t.contexts[i].args == s.contexts[i].args && t.contexts[i].cancelled == s.contexts[i].cancelled)
  }

  lemma FrameOfReceiver(s: State, step: Step)
    requires Enabled(s, step) && ByReceiver(step)
    ensures ReceiverFrame(s, Apply(s, step))
  {
    if step.ReceiverStep? {
      FrameOfReceiverStep(s);
    }
  }

  lemma FrameOfReceiverStep(s: State)
    requires Enabled(s, ReceiverStep)
    ensures ReceiverFrame(s, Apply(s, ReceiverStep))
  {
  }

  lemma HandleKeptByReceiver(s: State, step: Step)
    requires HandleInv(s) && (s.receiver.Notifying? ==> s.stats != [])
    requires Enabled(s, step) && ByReceiver(step)
    ensures HandleInv(Apply(s, step))
  {
    FrameOfReceiver(s, step);
  }

  lemma HandleKeptByCaller(s: State)
    requires HandleInv(s) && Enabled(s, CallerStep)
    ensures HandleInv(Apply(s, CallerStep))
  {
  }

  lemma HandleKept(s: State, step: Step)
    requires HandleInv(s) && (s.receiver.Notifying? ==> s.stats != [])
    requires Enabled(s, step)
    ensures HandleInv(Apply(s, step))
  {
    if ByReceiver(step) {
      HandleKeptByReceiver(s, step);
    } else if step.CallerStep? {
      HandleKeptByCaller(s);
    }
  }

  lemma MutexKeptByReceiver(s: State, step: Step)
    requires HandleInv(s) && MutexInv(s) && Enabled(s, step) && ByReceiver(step)
    ensures MutexInv(Apply(s, step))
  {
    FrameOfReceiver(s, step);
  }

  lemma MutexKeptByCaller(s: State)
    requires HandleInv(s) && MutexInv(s) && Enabled(s, CallerStep)
    ensures MutexInv(Apply(s, CallerStep))
  {
  }

  lemma MutexKept(s: State, step: Step)
    requires HandleInv(s) && MutexInv(s) && Enabled(s, step)
    ensures MutexInv(Apply(s, step))
  {
    if ByReceiver(step) {
      MutexKeptByReceiver(s, step);
    } else if step.CallerStep? {
      MutexKeptByCaller(s);
    }
  }

  // ----- cancellation -----

  ghost predicate Cancelled(pc: CallerPc) {
    pc.CloseUnlock? || pc.CloseJoin? || pc.CloseReset?
  }

  /** The current stream is cancelled by close and by nothing else. */
  ghost predicate CancelInv(s: State)
    requires HandleInv(s)
  {
    && (s.subscribeStreamRw.Some? ==> (s.contexts[s.subscribeStreamRw.value].cancelled <==> Cancelled(s.caller)))
    && (s.caller.RegSubscribe? ==> !s.contexts[|s.contexts| - 1].cancelled)
  }

  lemma CancelKept(s: State, step: Step)
    requires HandleInv(s) && CancelInv(s) && Enabled(s, step)
    requires HandleInv(Apply(s, step))
    ensures CancelInv(Apply(s, step))
  {
    if ByReceiver(step) {
      FrameOfReceiver(s, step);
    }
  }

  // ----- the statistics -----

  ghost predicate StatsInv(s: State, base: seq<PbrRecord>) {
    s.stats == base + AcceptedRecords(s.arrived)
  }

  lemma StatsUntouched(s: State, step: Step)
    requires Enabled(s, step)
    requires !step.CallOnce? && (step.ReceiverStep? ==> !s.receiver.Processing?)
    ensures Apply(s, step).stats == s.stats && Apply(s, step).arrived == s.arrived
  {
  }

  lemma StatsGrow(base: seq<PbrRecord>, before: seq<PbrRecord>, stats: seq<PbrRecord>, more: seq<PbrRecord>)
    requires stats == base + before
    ensures stats + more == base + (before + more)
  {
  }

  lemma StatsKeptByOnce(s: State, responses: seq<SubscribeResponse>, base: seq<PbrRecord>)
    requires StatsInv(s, base)
    ensures StatsInv(Apply(s, CallOnce(responses)), base)
  {
    var read := responses[..FirstThrow(responses)];
    AcceptedRecordsConcat(s.arrived, read);
    StatsGrow(base, AcceptedRecords(s.arrived), s.stats, AcceptedRecords(read));
  }

  lemma StatsKeptByProcessing(s: State, base: seq<PbrRecord>)
    requires HandleInv(s) && StatsInv(s, base) && s.receiver.Processing?
    ensures StatsInv(Process(s, s.receiver.response), base)
  {
    AcceptedRecordsAdd(s.arrived, s.receiver.response);
    StatsGrow(base, AcceptedRecords(s.arrived), s.stats, RecordsOf(s.receiver.response));
  }

  lemma StatsKept(s: State, step: Step, base: seq<PbrRecord>)
    requires HandleInv(s) && StatsInv(s, base) && Enabled(s, step)
    ensures StatsInv(Apply(s, step), base)
  {
    if step.CallOnce? {
      StatsKeptByOnce(s, step.responses, base);
    } else if step.ReceiverStep? && s.receiver.Processing? {
      StatsKeptByProcessing(s, base);
    } else {
      StatsUntouched(s, step);
    }
  }

  // ----- the events on each stream -----

  function SuccessCalls(records: seq<PbrRecord>): (calls: seq<Event>)
    ensures |calls| == |records|
    ensures forall i :: 0 <= i < |records| ==> calls[i] == SuccessCalled(records[i])
  {
    if records == [] then [] else SuccessCalls(records[..|records| - 1]) + [SuccessCalled(records[|records| - 1])]
  }

  /** The events of a receive loop that has dealt with these responses. */
  function Trace(responses: seq<SubscribeResponse>): seq<Event> {
    if responses == [] then []
    else
      var n := |responses| - 1;
      Trace(responses[..n]) + [Got(responses[n])] + SuccessCalls(RecordsOf(responses[n]))
  }

  /** OK is code 0 and CANCELLED is code 1. */
  function FailureCalls(status: Status): seq<Event> {
    if status.code == 0 || status.code == 1 then [] else [FailedCalled(status)]
  }

  /** All the events of a stream that has come to its end. */
  function FullTrace(responses: seq<SubscribeResponse>, status: Status): seq<Event> {
    Trace(responses) + [EndOfReads] + [WritesDone] + [Finish(status)] + FailureCalls(status)
  }

  ghost predicate Complete(stream: Stream) {
    exists status :: stream.log == FullTrace(stream.responses, status)
  }

  /** How far the events of the current stream are when its receive thread is at pc. */
  ghost predicate LogAt(stream: Stream, pc: ReceiverPc) {
    var rs := stream.responses;
    match pc
    case NoThread => rs == [] && stream.log == []
    case Reading => stream.log == Trace(rs)
    case Processing(response) => stream.log == Trace(rs) + [Got(response)]
    case Notifying =>
      && rs != [] && RecordsOf(rs[|rs| - 1]) != []
      && stream.log == Trace(rs[..|rs| - 1]) + [Got(rs[|rs| - 1])]
    case WaitLock | InWritesDone => stream.log == Trace(rs) + [EndOfReads]
    case InFinish => stream.log == Trace(rs) + [EndOfReads] + [WritesDone]
    case Reporting(status) => stream.log == Trace(rs) + [EndOfReads] + [WritesDone] + [Finish(status)]
    case Releasing | Exited => Complete(stream)
  }

  ghost predicate OthersComplete(s: State) {
    forall i :: 0 <= i < |s.streams| && s.subscribeStreamRw != Some(i) ==> Complete(s.streams[i])
  }

  ghost predicate CurrentLog(s: State) {
    HasStream(s) ==> if s.caller.CloseReset? then Complete(CurrentStream(s)) else LogAt(CurrentStream(s), s.receiver)
  }

  /** Between add_stats and the success handler, the last record is that of the response. */
  ghost predicate LastStat(s: State) {
    s.receiver.Notifying? ==>
      && HasStream(s) && CurrentStream(s).responses != [] && s.stats != []
      && RecordsOf(CurrentStream(s).responses[|CurrentStream(s).responses| - 1]) == [s.stats[|s.stats| - 1]]
  }

  ghost predicate LogInv(s: State) {
    OthersComplete(s) && CurrentLog(s) && LastStat(s)
  }

  lemma ProcessedLog(stream: Stream, r: SubscribeResponse)
    requires LogAt(stream, Processing(r))
    ensures LogAt(stream.(responses := stream.responses + [r]), if RecordsOf(r) == [] then Reading else Notifying)
  {
    assert (stream.responses + [r])[..|stream.responses|] == stream.responses;
  }

  lemma NotifiedLog(stream: Stream, stat: PbrRecord)
    requires LogAt(stream, Notifying) && RecordsOf(stream.responses[|stream.responses| - 1]) == [stat]
    ensures LogAt(stream.(log := stream.log + [SuccessCalled(stat)]), Reading)
  {
    assert SuccessCalls([stat]) == [SuccessCalled(stat)];
  }

  lemma ReportedLog(stream: Stream, status: Status)
    requires LogAt(stream, Reporting(status))
    ensures !status.Ok() && !status.Cancelled() ==> Complete(stream.(log := stream.log + [FailedCalled(status)]))
    ensures status.Ok() || status.Cancelled() ==> Complete(stream)
  {
    if status.Ok() || status.Cancelled() {
      assert stream.log == FullTrace(stream.responses, status);
    } else {
      assert stream.log + [FailedCalled(status)] == FullTrace(stream.responses, status);
    }
  }

  lemma OthersStayComplete(s: State, step: Step)
    requires HandleInv(s) && OthersComplete(s) && CurrentLog(s) && Enabled(s, step)
    ensures OthersComplete(Apply(s, step))
  {
    if ByReceiver(step) {
      FrameOfReceiver(s, step);
    }
  }

  lemma LogUnchanged(s: State, t: State)
    requires CurrentLog(s) && LastStat(s)
    requires t.streams == s.streams && t.subscribeStreamRw == s.subscribeStreamRw && t.receiver == s.receiver
    requires (t.caller.CloseReset? <==> s.caller.CloseReset?) && (s.receiver.Notifying? ==> t.stats == s.stats)
    ensures CurrentLog(t) && LastStat(t)
  {
  }

  /** The actions that change the stream handle, or whether there is a receive thread. */
  ghost predicate ChangesHandle(pc: CallerPc) {
    pc.RegSubscribe? || pc.RegSpawn? || pc.CloseJoin? || pc.CloseReset?
  }

  lemma LogKeptByQuietCaller(s: State)
    requires HandleInv(s) && CurrentLog(s) && LastStat(s) && Enabled(s, CallerStep) && !ChangesHandle(s.caller)
    ensures CurrentLog(Apply(s, CallerStep)) && LastStat(Apply(s, CallerStep))
  {
    var t := Apply(s, CallerStep);
    if s.caller.CloseCheck? && s.receiver.NoThread? {
      assert !HasStream(t) && t.receiver.NoThread?;
    } else {
      LogUnchanged(s, t);
    }
  }

  lemma LogKeptByCaller(s: State)
    requires HandleInv(s) && CurrentLog(s) && LastStat(s) && Enabled(s, CallerStep)
    requires HandleInv(Apply(s, CallerStep))
    ensures CurrentLog(Apply(s, CallerStep)) && LastStat(Apply(s, CallerStep))
  {
    if s.caller.RegSubscribe? {
      assert LogAt(Apply(s, CallerStep).streams[|s.streams|], NoThread);
    } else if !ChangesHandle(s.caller) {
      LogKeptByQuietCaller(s);
    }
  }

  lemma LogKeptByCalls(s: State, step: Step)
    requires HandleInv(s) && CurrentLog(s) && LastStat(s) && Enabled(s, step)
    requires !step.CallerStep? && !ByReceiver(step)
    ensures CurrentLog(Apply(s, step)) && LastStat(Apply(s, step))
  {
    LogUnchanged(s, Apply(s, step));
  }

  lemma LogKeptByReads(s: State, step: Step)
    requires HandleInv(s) && CurrentLog(s) && LastStat(s) && Enabled(s, step)
    requires HandleInv(Apply(s, step))
    requires step.ReadTrue? || step.ReadFalse? || step.FinishReturns?
    ensures CurrentLog(Apply(s, step)) && LastStat(Apply(s, step))
  {
  }

  lemma LogKeptByProcessing(s: State)
    requires HandleInv(s) && CurrentLog(s) && Enabled(s, ReceiverStep) && s.receiver.Processing?
    ensures CurrentLog(Apply(s, ReceiverStep)) && LastStat(Apply(s, ReceiverStep))
  {
    ProcessedLog(CurrentStream(s), s.receiver.response);
  }

  lemma LogKeptByNotifying(s: State)
    requires HandleInv(s) && CurrentLog(s) && LastStat(s) && Enabled(s, ReceiverStep) && s.receiver.Notifying?
    ensures CurrentLog(Apply(s, ReceiverStep)) && LastStat(Apply(s, ReceiverStep))
  {
    NotifiedLog(CurrentStream(s), s.stats[|s.stats| - 1]);
  }

  lemma LogKeptByReporting(s: State)
    requires HandleInv(s) && CurrentLog(s) && Enabled(s, ReceiverStep) && s.receiver.Reporting?
    ensures CurrentLog(Apply(s, ReceiverStep)) && LastStat(Apply(s, ReceiverStep))
  {
    ReportedLog(CurrentStream(s), s.receiver.status);
  }

  lemma LogKeptByLocking(s: State)
    requires HandleInv(s) && CurrentLog(s) && Enabled(s, ReceiverStep)
    requires s.receiver.WaitLock? || s.receiver.InWritesDone? || s.receiver.Releasing?
    ensures CurrentLog(Apply(s, ReceiverStep)) && LastStat(Apply(s, ReceiverStep))
  {
  }

  // ----- the calls and their writes -----

  /** A call of rpc_register_stats_stream that has not written yet. */
  ghost predicate Pending(pc: CallerPc) {
    pc.RegCheck? || pc.RegOpenLock? || pc.RegContext? || pc.RegSubscribe? || pc.RegSpawn? || pc.RegOpenUnlock?
    || pc.RegWriteLock? || pc.RegWrite?
  }

  /** The call that caller is working on is the last one registered, in this epoch. */
  ghost predicate PendingInv(s: State) {
    Pending(s.caller) ==>
      s.registered != [] && s.caller.call == s.registered[|s.registered| - 1] && s.caller.call.epoch == s.epoch
  }

  /** Every call that is past its write has written its own request, on a stream of its own epoch. */
  ghost predicate WritesInv(s: State) {
    && |s.registered| == |s.writes| + (if Pending(s.caller) then 1 else 0)
    && (forall k :: 0 <= k < |s.writes| ==>
          && s.writes[k].request == s.registered[k].request
          && s.writes[k].stream < |s.streams|
          && s.streams[s.writes[k].stream].epoch == s.registered[k].epoch)
  }

  ghost predicate EpochInv(s: State) {
    && (forall i, j :: 0 <= i < j < |s.registered| ==> s.registered[i].epoch <= s.registered[j].epoch)
    && (forall i :: 0 <= i < |s.registered| ==> s.registered[i].epoch <= s.epoch)
    && (forall i, j :: 0 <= i < j < |s.streams| ==> s.streams[i].epoch < s.streams[j].epoch)
    && (forall i :: 0 <= i < |s.streams| ==>
          if s.subscribeStreamRw == Some(i) then s.streams[i].epoch == s.epoch else s.streams[i].epoch < s.epoch)
  }

  /** A stream was opened by the first call of its epoch, with that call's credentials and deadline. */
  ghost predicate OpenedBy(registered: seq<Registration>, stream: Stream, context: Context) {
    && stream.opener < |registered|
    && registered[stream.opener].epoch == stream.epoch
    && registered[stream.opener].args == context.args
    && (forall k :: 0 <= k < stream.opener ==> registered[k].epoch < stream.epoch)
  }

  ghost predicate OpenerInv(s: State)
    requires HandleInv(s)
  {
    && (forall i :: 0 <= i < |s.streams| ==> OpenedBy(s.registered, s.streams[i], s.contexts[i]))
    && (s.caller.RegSubscribe? ==> s.contexts[|s.contexts| - 1].args == s.caller.call.args)
  }

  ghost predicate CallsInv(s: State)
    requires HandleInv(s)
  {
    PendingInv(s) && WritesInv(s) && EpochInv(s) && OpenerInv(s)
  }

  /** The two states do not differ in the calls, the writes, or how the streams were opened. */
  ghost predicate SameCalls(s: State, t: State) {
    && t.registered == s.registered && t.writes == s.writes && t.epoch == s.epoch
    && t.subscribeStreamRw == s.subscribeStreamRw
    && (Pending(t.caller) <==> Pending(s.caller)) && (Pending(s.caller) ==> t.caller.call == s.caller.call)
    && !t.caller.RegSubscribe? && !s.caller.RegSubscribe?
    && |t.streams| == |s.streams| && |t.contexts| == |s.contexts|
    && (forall i :: 0 <= i < |s.streams| ==>
          t.streams[i].opener == s.streams[i].opener && t.streams[i].epoch == s.streams[i].epoch)
    && (forall i :: 0 <= i < |s.contexts| ==> t.contexts[i].args == s.contexts[i].args)
  }

  ghost predicate Active(s: State, step: Step) {
    || step.CallRegister? || step.CallerWrite?
    || (step.CallerStep? && (s.caller.RegContext? || s.caller.RegSubscribe? || s.caller.CloseReset?))
  }

  lemma QuietByCaller(s: State, step: Step)
    requires HandleInv(s) && Enabled(s, step) && !Active(s, step) && !s.caller.RegSubscribe?
    requires step.CallerStep? || step.CallClose? || step.CallOnce? || step.CallerCancel?
    ensures SameCalls(s, Apply(s, step))
  {
  }

  lemma SameCallsKeep(s: State, t: State)
    requires HandleInv(s) && HandleInv(t) && CallsInv(s) && SameCalls(s, t)
    ensures CallsInv(t)
  {
    assert PendingInv(t);
    SameOpeners(s, t);
    SameWrites(s, t);
  }

  lemma SameOpeners(s: State, t: State)
    requires HandleInv(s) && HandleInv(t) && OpenerInv(s) && EpochInv(s) && SameCalls(s, t)
    ensures OpenerInv(t) && EpochInv(t)
  {
    forall i | 0 <= i < |t.streams| ensures OpenedBy(t.registered, t.streams[i], t.contexts[i]) {
      assert OpenedBy(s.registered, s.streams[i], s.contexts[i]);
    }
  }

  lemma SameWrites(s: State, t: State)
    requires WritesInv(s) && SameCalls(s, t)
    ensures WritesInv(t)
  {
  }

  lemma CallsKeptByRegister(s: State, step: Step)
    requires HandleInv(s) && CallsInv(s) && Enabled(s, step) && step.CallRegister?
    requires HandleInv(Apply(s, step))
    ensures CallsInv(Apply(s, step))
  {
    var t := Apply(s, step);
    if step.clientType == "pbr" {
      RegisterKeepsTheRest(s, t);
    }
  }

  /** One more call, by an idle caller. */
  lemma RegisterKeepsTheRest(s: State, t: State)
    requires HandleInv(s) && HandleInv(t) && CallsInv(s) && s.caller.Idle? && t.caller.RegCheck?
    requires t == s.(registered := s.registered + [t.caller.call], caller := t.caller) && t.caller.call.epoch == s.epoch
    ensures CallsInv(t)
  {
    assert PendingInv(t) && WritesInv(t);
    RegisterKeepsEpochs(s, t.registered);
    forall i | 0 <= i < |t.streams| ensures OpenedBy(t.registered, t.streams[i], t.contexts[i]) {
      assert OpenedBy(s.registered, s.streams[i], s.contexts[i]);
    }
  }

  lemma RegisterKeepsEpochs(s: State, registered: seq<Registration>)
    requires EpochInv(s) && registered != [] && registered[..|registered| - 1] == s.registered
    requires registered[|registered| - 1].epoch == s.epoch
    ensures EpochInv(s.(registered := registered))
  {
  }

  lemma CallsKeptByWrite(s: State, step: Step)
    requires HandleInv(s) && CallsInv(s) && Enabled(s, step) && step.CallerWrite?
    requires HandleInv(Apply(s, step))
    ensures CallsInv(Apply(s, step))
  {
  }

  lemma CallsKeptByContext(s: State)
    requires HandleInv(s) && CallsInv(s) && Enabled(s, CallerStep) && s.caller.RegContext?
    requires HandleInv(Apply(s, CallerStep))
    ensures CallsInv(Apply(s, CallerStep))
  {
  }

  lemma CallsKeptBySubscribe(s: State)
    requires HandleInv(s) && CallsInv(s) && Enabled(s, CallerStep) && s.caller.RegSubscribe?
    requires HandleInv(Apply(s, CallerStep))
    ensures CallsInv(Apply(s, CallerStep))
  {
    EarlierEpochs(s);
    SubscribeKeepsEpochs(s);
    SubscribeKeepsOpeners(s);
    assert WritesInv(Apply(s, CallerStep));
  }

  lemma SubscribeKeepsOpeners(s: State)
    requires HandleInv(s) && CallsInv(s) && Enabled(s, CallerStep) && s.caller.RegSubscribe?
    requires HandleInv(Apply(s, CallerStep))
    requires forall k :: 0 <= k < |s.writes| ==> s.registered[k].epoch < s.epoch
    ensures OpenerInv(Apply(s, CallerStep))
  {
    var t := Apply(s, CallerStep);
    forall i | 0 <= i < |s.streams| ensures OpenedBy(t.registered, t.streams[i], t.contexts[i]) {
      assert OpenedBy(s.registered, s.streams[i], s.contexts[i]);
    }
    assert OpenedBy(t.registered, t.streams[|s.streams|], t.contexts[|s.streams|]);
  }

  lemma SubscribeKeepsEpochs(s: State)
    requires HandleInv(s) && EpochInv(s) && Enabled(s, CallerStep) && s.caller.RegSubscribe?
    ensures EpochInv(Apply(s, CallerStep))
  {
    var t := Apply(s, CallerStep);
    assert t.streams[..|s.streams|] == s.streams && t.registered == s.registered;
  }

  /** While no stream handle is held, every call that has written belongs to an earlier epoch. */
  lemma EarlierEpochs(s: State)
    requires HandleInv(s) && WritesInv(s) && EpochInv(s) && s.subscribeStreamRw.None?
    ensures forall k :: 0 <= k < |s.writes| ==> s.registered[k].epoch < s.epoch
  {
    forall k | 0 <= k < |s.writes| ensures s.registered[k].epoch < s.epoch {
      assert s.streams[s.writes[k].stream].epoch == s.registered[k].epoch;
    }
  }

  lemma CallsKeptByReset(s: State)
    requires HandleInv(s) && CallsInv(s) && Enabled(s, CallerStep) && s.caller.CloseReset?
    requires HandleInv(Apply(s, CallerStep))
    ensures CallsInv(Apply(s, CallerStep))
  {
  }

  lemma CallsKeptByCaller(s: State)
    requires HandleInv(s) && CallsInv(s) && Enabled(s, CallerStep)
    requires HandleInv(Apply(s, CallerStep))
    ensures CallsInv(Apply(s, CallerStep))
  {
    match s.caller
    case RegContext(_) => CallsKeptByContext(s);
    case RegSubscribe(_) => CallsKeptBySubscribe(s);
    case CloseReset => CallsKeptByReset(s);
    case _ =>
      QuietByCaller(s, CallerStep);
      SameCallsKeep(s, Apply(s, CallerStep));
  }

  lemma CallsKeptByReceiver(s: State, step: Step)
    requires HandleInv(s) && CallsInv(s) && Enabled(s, step) && ByReceiver(step)
    requires HandleInv(Apply(s, step))
    ensures CallsInv(Apply(s, step))
  {
    FrameOfReceiver(s, step);
    SameCallsKeep(s, Apply(s, step));
  }

  lemma CallsKept(s: State, step: Step)
    requires HandleInv(s) && CallsInv(s) && Enabled(s, step)
    requires HandleInv(Apply(s, step))
    ensures CallsInv(Apply(s, step))
  {
    match step
    case CallRegister(_, _, _, _) => CallsKeptByRegister(s, step);
    case CallerWrite(_) => CallsKeptByWrite(s, step);
    case CallerStep => CallsKeptByCaller(s);
    case ReadTrue(_) | ReadFalse | ReceiverStep | FinishReturns(_) => CallsKeptByReceiver(s, step);
    case CallClose | CallOnce(_) | CallerCancel(_) =>
      QuietByCaller(s, step);
      SameCallsKeep(s, Apply(s, step));
  }

  // ----- results -----

  /** The branch that asks for a close is never taken, and a call returns what its write returned. */
  ghost predicate ResultInv(s: State) {
    && (s.caller.RegUnlock? ==>
          s.writes != [] && s.caller.result == if s.writes[|s.writes| - 1].ok then OK else WRITES_FAILED)
    && s.lastResult != Some(RPC_FAILURE)
  }

  lemma ResultKept(s: State, step: Step)
    requires HandleInv(s) && ResultInv(s) && Enabled(s, step)
    ensures ResultInv(Apply(s, step))
  {
    if ByReceiver(step) {
      FrameOfReceiver(s, step);
    }
  }

  /** A response whose counters do not parse never gets as far as the statistics. */
  ghost predicate ArrivedInv(s: State) {
    NoneThrows(s.arrived)
  }

  lemma ArrivedKept(s: State, step: Step)
    requires HandleInv(s) && ArrivedInv(s) && Enabled(s, step)
    ensures ArrivedInv(Apply(s, step))
  {
    if step.CallOnce? {
      FirstThrowIsFirst(step.responses);
    } else if !(step.ReceiverStep? && s.receiver.Processing?) {
      StatsUntouched(s, step);
    }
  }

  // ----- all of it -----

  ghost predicate Inv(s: State, base: seq<PbrRecord>) {
    HandleInv(s) && MutexInv(s) && CancelInv(s) && StatsInv(s, base) && LogInv(s) && CallsInv(s)
    && ResultInv(s) && ArrivedInv(s)
  }

  lemma InvKept(s: State, step: Step, base: seq<PbrRecord>)
    requires Inv(s, base) && Enabled(s, step)
    ensures Inv(Apply(s, step), base)
  {
    HandleKept(s, step);
    MutexKept(s, step);
    CancelKept(s, step);
    StatsKept(s, step, base);
    OthersStayComplete(s, step);
    CallsKept(s, step);
    LogKept(s, step);
    ResultKept(s, step);
    ArrivedKept(s, step);
  }

  lemma LogKept(s: State, step: Step)
    requires HandleInv(s) && CurrentLog(s) && LastStat(s) && Enabled(s, step)
    requires HandleInv(Apply(s, step))
    ensures CurrentLog(Apply(s, step)) && LastStat(Apply(s, step))
  {
    match step
    case CallRegister(_, _, _, _) | CallClose | CallOnce(_) | CallerWrite(_) | CallerCancel(_) =>
      LogKeptByCalls(s, step);
    case CallerStep => LogKeptByCaller(s);
    case ReadTrue(_) | ReadFalse | FinishReturns(_) => LogKeptByReads(s, step);
    case ReceiverStep =>
      match s.receiver
      case Processing(_) => LogKeptByProcessing(s);
      case Notifying => LogKeptByNotifying(s);
      case Reporting(_) => LogKeptByReporting(s);
      case _ => LogKeptByLocking(s);
  }

  // ----- reachable states -----

  ghost predicate Reachable(s: State, base: seq<PbrRecord>) {
    exists steps: seq<Step> :: Allowed(Init(base), steps) && s == Run(Init(base), steps)
  }

  lemma {:induction false} InvOfRun(s: State, steps: seq<Step>, base: seq<PbrRecord>)
    requires Inv(s, base) && Allowed(s, steps)
    ensures Inv(Run(s, steps), base)
    decreases |steps|
  {
    if steps != [] {
      InvKept(s, steps[0], base);
      InvOfRun(Apply(s, steps[0]), steps[1..], base);
    }
  }

  lemma InitHolds(base: seq<PbrRecord>)
    ensures Inv(Init(base), base)
  {
  }

  lemma ReachableInv(s: State, base: seq<PbrRecord>)
    requires Reachable(s, base)
    ensures Inv(s, base)
  {
    var steps :| Allowed(Init(base), steps) && s == Run(Init(base), steps);
    InitHolds(base);
    InvOfRun(Init(base), steps, base);
  }

  lemma ReachableCalls(s: State, base: seq<PbrRecord>)
    requires Reachable(s, base)
    ensures HandleInv(s) && CallsInv(s)
  {
    ReachableInv(s, base);
  }

  lemma ReachableHandles(s: State, base: seq<PbrRecord>)
    requires Reachable(s, base)
    ensures HandleInv(s) && MutexInv(s) && CancelInv(s) && LastStat(s)
  {
    ReachableInv(s, base);
  }

  lemma ReachableLogs(s: State, base: seq<PbrRecord>)
    requires Reachable(s, base)
    ensures HandleInv(s) && LogInv(s)
  {
    ReachableInv(s, base);
  }

  lemma {:induction false} RunOneMore(s: State, steps: seq<Step>, step: Step)
    ensures Run(s, steps + [step]) == Apply(Run(s, steps), step)
    ensures Allowed(s, steps) && Enabled(Run(s, steps), step) ==> Allowed(s, steps + [step])
    decreases |steps|
  {
    if steps == [] {
      assert steps + [step] == [step];
      assert Run(Apply(s, step), [step][1..]) == Apply(s, step);
    } else {
      assert (steps + [step])[1..] == steps[1..] + [step];
      RunOneMore(Apply(s, steps[0]), steps[1..], step);
    }
  }

  lemma ReachableStep(s: State, step: Step, base: seq<PbrRecord>)
    requires Reachable(s, base) && Enabled(s, step)
    ensures Reachable(Apply(s, step), base)
  {
    var steps :| Allowed(Init(base), steps) && s == Run(Init(base), steps);
    RunOneMore(Init(base), steps, step);
    assert Apply(s, step) == Run(Init(base), steps + [step]);
  }

  lemma {:induction false} ReachableRun(s: State, steps: seq<Step>, base: seq<PbrRecord>)
    requires Reachable(s, base) && Allowed(s, steps)
    ensures Reachable(Run(s, steps), base)
    decreases |steps|
  {
    if steps != [] {
      ReachableStep(s, steps[0], base);
      ReachableRun(Apply(s, steps[0]), steps[1..], base);
    }
  }
}
