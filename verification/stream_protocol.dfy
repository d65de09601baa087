/**
 * The stream lifecycle as a transition system (mgbl_api.cpp:437-456 and 563-696). One thread calls
 * the client; the other is the receive thread that the client spawns. Every step is one action of
 * one of them, so a run is one interleaving.
 */
module StreamProtocol {
  import opened Results
  import opened GnmiTypes
  import opened Pbr
  import opened Requests
  import opened Records

  // ----- the two threads -----

  /** A call of rpc_register_stats_stream that got past the counter type check; epochs are counted by closes. */
  datatype Registration = Registration(args: ContextArgs, request: SubscribeRequest, epoch: nat)

  /** Where the calling thread is: before the action that the name says. */
  datatype CallerPc =
    | Idle
    | RegCheck(call: Registration)
    | RegOpenLock(call: Registration)
    | RegContext(call: Registration)
    | RegSubscribe(call: Registration)
    | RegSpawn(call: Registration)
    | RegOpenUnlock(call: Registration)
    | RegWriteLock(call: Registration)
    | RegWrite(call: Registration)
    | RegUnlock(result: ErrorCode)
    | CloseCheck
    | CloseLock
    | CloseCancel
    | CloseUnlock
    | CloseJoin
    | CloseReset

  /** Where the receive thread is. The thread handle is joinable unless it is NoThread. */
  datatype ReceiverPc =
    | NoThread
    | Reading
    | Processing(response: SubscribeResponse)
    | Notifying
    | WaitLock
    | InWritesDone
    | InFinish
    | Reporting(status: Status)
    | Releasing
    | Exited

  // ----- what they share -----

  datatype Owner = Free | Caller | Receiver

  /** A grpc::ClientContext; once cancelled, only what is already buffered can still be read. */
  datatype Context = Context(args: ContextArgs, cancelled: bool, buffered: nat)

  /** What the receive thread does on its stream and calls on the user. */
  datatype Event =
    | Got(response: SubscribeResponse)
    | EndOfReads
    | SuccessCalled(lastStat: PbrRecord)
    | WritesDone
    | Finish(status: Status)
    | FailedCalled(status: Status)

  /**
   * A grpc::ClientReaderWriter with the context it was opened on, the index of the call that opened
   * it, the responses that its receive thread has checked, and the events on it.
   */
  datatype Stream = Stream(context: nat, opener: nat, epoch: nat, responses: seq<SubscribeResponse>, log: seq<Event>)

  datatype WriteRecord = WriteRecord(stream: nat, request: SubscribeRequest, afterFinish: bool, ok: bool)

  /** Escaped: std::stoull threw in the receive thread. Undefined: C++ gives the step no meaning. */
  datatype ProcessStatus = Running | Escaped | Undefined

  /** The client, and the history of what was called, read and written. */
  datatype State = State(
    caller: CallerPc,
    receiver: ReceiverPc,
    mutex: Owner,
    streamContext: Option<nat>,
    subscribeStreamRw: Option<nat>,
    contexts: seq<Context>,
    streams: seq<Stream>,
    stats: seq<PbrRecord>,
    status: ProcessStatus,
    arrived: seq<SubscribeResponse>,
    registered: seq<Registration>,
    writes: seq<WriteRecord>,
    lastResult: Option<ErrorCode>,
    epoch: nat)

  function Init(stats: seq<PbrRecord>): State {
    State(Idle, NoThread, Free, None, None, [], [], stats, Running, [], [], [], None, 0)
  }

  // ----- steps -----

  /** The calls of the user, the actions of the two threads, and what gRPC answers. */
  datatype Step =
    | CallRegister(clientType: string, args: ContextArgs, rpcArgs: RpcArgs, keys: seq<PbrKey>)
    | CallClose
    | CallOnce(responses: seq<SubscribeResponse>)
    | CallerStep
    | CallerWrite(ok: bool)
    | CallerCancel(buffered: nat)
    | ReadTrue(response: SubscribeResponse)
    | ReadFalse
    | ReceiverStep
    | FinishReturns(status: Status)

  /** The stream whose handle is held, if it is a stream. */
  predicate HasStream(s: State) {
    s.subscribeStreamRw.Some? && s.subscribeStreamRw.value < |s.streams|
  }

  function CurrentStream(s: State): Stream
    requires HasStream(s)
  {
    s.streams[s.subscribeStreamRw.value]
  }

  predicate HasContext(s: State) {
    s.streamContext.Some? && s.streamContext.value < |s.contexts|
  }

  /** Whether Read can still return a response on the current stream. */
  predicate CanRead(s: State) {
    HasStream(s) && CurrentStream(s).context < |s.contexts| ==>
      var context := s.contexts[CurrentStream(s).context];
      !context.cancelled || context.buffered > 0
  }

  predicate Enabled(s: State, step: Step) {
    && s.status == Running
    && match step
       case CallRegister(_, _, _, _) => s.caller.Idle?
       case CallClose => s.caller.Idle?
       case CallOnce(_) => s.caller.Idle? && (s.receiver.NoThread? || s.receiver.Exited?)
       case CallerStep =>
         (match s.caller
          case Idle | RegWrite(_) | CloseCancel => false
          case RegOpenLock(_) | RegWriteLock(_) | CloseLock => s.mutex == Free
          case CloseJoin => s.receiver.Exited?
          case _ => true)
       case CallerWrite(_) => s.caller.RegWrite?
       case CallerCancel(_) => s.caller.CloseCancel?
       case ReadTrue(_) => s.receiver.Reading? && CanRead(s)
       case ReadFalse => s.receiver.Reading?
       case ReceiverStep =>
         (match s.receiver
          case NoThread | Reading | InFinish | Exited => false
          case WaitLock => s.mutex == Free
          case _ => true)
       case FinishReturns(_) => s.receiver.InFinish?
  }

  function Apply(s: State, step: Step): State {
    match step
    case CallRegister(clientType, args, rpcArgs, keys) =>
      if clientType != "pbr" then s.(lastResult := Some(CLIENT_TYPE_FAILURE))
      else
        var call := Registration(args, RequestFor(rpcArgs.(mode := STREAM), RequestPathTexts(keys)), s.epoch);
        s.(registered := s.registered + [call], caller := RegCheck(call))
    case CallClose => s.(caller := CloseCheck)
    case CallOnce(responses) =>
      var read := responses[..FirstThrow(responses)];
      s.(stats := s.stats + AcceptedRecords(read), arrived := s.arrived + read)
    case CallerStep => CallerAction(s)
    case CallerWrite(ok) => Write(s, ok)
    case CallerCancel(buffered) => TryCancel(s, buffered)
    case ReadTrue(response) =>
      Logged(Consumed(s), Got(response)).(receiver := Processing(response))
    case ReadFalse => Logged(s, EndOfReads).(receiver := WaitLock)
    case ReceiverStep => ReceiverAction(s)
    case FinishReturns(status) => Logged(s, Finish(status)).(receiver := Reporting(status))
  }

  // ----- the calling thread -----

  /** The index of the call that registered last. */
  function LastCall(s: State): nat {
    if s.registered == [] then 0 else |s.registered| - 1
  }

  function CallerAction(s: State): State {
    match s.caller
    case RegCheck(call) => s.(caller := if s.receiver.NoThread? then RegOpenLock(call) else RegWriteLock(call))
    case RegOpenLock(call) => s.(mutex := Caller, caller := RegContext(call))
    case RegContext(call) =>
      s.(streamContext := Some(|s.contexts|), contexts := s.contexts + [Context(call.args, false, 0)],
         caller := RegSubscribe(call))
    case RegSubscribe(call) =>
      if s.streamContext.None? then s.(status := Undefined)
      else
        s.(subscribeStreamRw := Some(|s.streams|),
           streams := s.streams + [Stream(s.streamContext.value, LastCall(s), s.epoch, [], [])],
           caller := RegSpawn(call))
    case RegSpawn(call) =>
      if !s.receiver.NoThread? then s.(status := Undefined)
      else s.(receiver := Reading, caller := RegOpenUnlock(call))
    case RegOpenUnlock(call) => s.(mutex := Free, caller := RegWriteLock(call))
    case RegWriteLock(call) => s.(mutex := Caller, caller := RegWrite(call))
    case RegUnlock(result) => s.(mutex := Free, lastResult := Some(result), caller := Idle)
    case CloseCheck => s.(caller := if s.receiver.NoThread? then CloseReset else CloseLock)
    case CloseLock => s.(mutex := Caller, caller := CloseCancel)
    case CloseUnlock => s.(mutex := Free, caller := CloseJoin)
    case CloseJoin => s.(receiver := NoThread, caller := CloseReset)
    case CloseReset =>
      s.(subscribeStreamRw := None, epoch := s.epoch + 1, lastResult := Some(OK), caller := Idle)
    case _ => s
  }

  /** The write, unless there is no context: then the branch that asks for a close. */
  function Write(s: State, ok: bool): State {
    if !s.caller.RegWrite? then s
    else if s.streamContext.None? then s.(caller := RegUnlock(RPC_FAILURE))
    else if !HasStream(s) then s.(status := Undefined)
    else
      var stream, request := s.subscribeStreamRw.value, s.caller.call.request;
      s.(writes := s.writes + [WriteRecord(stream, request, Finished(CurrentStream(s)), ok)],
         caller := RegUnlock(if ok then OK else WRITES_FAILED))
  }

  predicate Finished(stream: Stream) {
    exists i :: 0 <= i < |stream.log| && stream.log[i].Finish?
  }

  function TryCancel(s: State, buffered: nat): State {
    if s.streamContext.None? then s.(caller := CloseUnlock)
    else if !HasContext(s) then s.(status := Undefined)
    else
      var c := s.streamContext.value;
      s.(contexts := s.contexts[c := Context(s.contexts[c].args, true, buffered)], caller := CloseUnlock)
  }

  // ----- the receive thread -----

  /** An action on the stream behind the shared handle; it is dereferenced each time. */
  function Logged(s: State, event: Event): State {
    if !HasStream(s) then s.(status := Undefined)
    else
      var stream := CurrentStream(s);
      s.(streams := s.streams[s.subscribeStreamRw.value := stream.(log := stream.log + [event])])
  }

  /** A read on a cancelled context uses up one buffered response. */
  function Consumed(s: State): State {
    if HasStream(s) && CurrentStream(s).context < |s.contexts| then
      var c := CurrentStream(s).context;
      if s.contexts[c].cancelled && s.contexts[c].buffered > 0 then
        s.(contexts := s.contexts[c := s.contexts[c].(buffered := s.contexts[c].buffered - 1)])
      else s
    else s
  }

  function ReceiverAction(s: State): State {
    match s.receiver
    case Processing(response) => Process(s, response)
    case Notifying =>
      if s.stats == [] then s.(status := Undefined)
      else Logged(s, SuccessCalled(s.stats[|s.stats| - 1])).(receiver := Reading)
    case WaitLock => s.(mutex := Receiver, receiver := InWritesDone)
    case InWritesDone => Logged(s, WritesDone).(receiver := InFinish)
    case Reporting(status) =>
      (if !status.Ok() && !status.Cancelled() then Logged(s, FailedCalled(status)) else s).(receiver := Releasing)
    case Releasing => s.(mutex := Free, receiver := Exited)
    case _ => s
  }

  /** check_response and add_stats. */
  function Process(s: State, response: SubscribeResponse): State {
    if Throws(response) then s.(status := Escaped)
    else if !HasStream(s) then s.(status := Undefined)
    else
      var stream := CurrentStream(s);
      s.(stats := s.stats + RecordsOf(response),
         arrived := s.arrived + [response],
         streams := s.streams[s.subscribeStreamRw.value := stream.(responses := stream.responses + [response])],
         receiver := if RecordsOf(response) == [] then Reading else Notifying)
  }

  // ----- runs -----

  function Run(s: State, steps: seq<Step>): State
    decreases |steps|
  {
    if steps == [] then s else Run(Apply(s, steps[0]), steps[1..])
  }

  /** Every step is enabled when it is taken. */
  predicate Allowed(s: State, steps: seq<Step>)
    decreases |steps|
  {
    steps == [] || (Enabled(s, steps[0]) && Allowed(Apply(s, steps[0]), steps[1..]))
  }
}
