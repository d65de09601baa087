/** Every course that a server can give to a stream is a run. */
module StreamRuns {
  import opened Results
  import opened GnmiTypes
  import opened Pbr
  import opened Records
  import opened StreamProtocol
  import opened StreamInvariants
  import opened StreamTraces
  import opened StreamLateWrite

  /** While a first call waits to write, its receive thread deals with one more response. */
  lemma OneMoreResponse(before: State, r: SubscribeResponse, base: seq<PbrRecord>) returns (s: State)
    requires Reachable(before, base) && before.status == Running && before.mutex == Free
    requires before.caller.RegWriteLock? && before.receiver.Reading? && !ResponseOutcome(r).Threw?
    ensures Reachable(s, base) && s.status == Running && s.mutex == Free
    ensures s.caller == before.caller && s.registered == before.registered && s.receiver.Reading?
    ensures HasStream(before) && HasStream(s)
    ensures CurrentStream(s).responses == CurrentStream(before).responses + [r]
  {
    ReachableHandles(before, base);
    ReachableStep(before, ReadTrue(r), base);
    s := Apply(before, ReadTrue(r));
    ReachableStep(s, ReceiverStep, base);
    s := Apply(s, ReceiverStep);
    if s.receiver.Notifying? {
      ReachableHandles(s, base);
      ReachableStep(s, ReceiverStep, base);
      s := Apply(s, ReceiverStep);
    }
  }

  lemma FirstAndRest<T>(front: seq<T>, s: seq<T>)
    requires s != []
    ensures front + [s[0]] + s[1..] == front + s
  {
  }

  lemma {:induction false} MoreResponses(before: State, rs: seq<SubscribeResponse>, base: seq<PbrRecord>)
    returns (s: State)
    requires Reachable(before, base) && before.status == Running && before.mutex == Free
    requires before.caller.RegWriteLock? && before.receiver.Reading?
    requires forall i :: 0 <= i < |rs| ==> !ResponseOutcome(rs[i]).Threw?
    ensures Reachable(s, base) && s.status == Running && s.mutex == Free
    ensures s.caller == before.caller && s.registered == before.registered && s.receiver.Reading?
    ensures HasStream(before) && HasStream(s)
    ensures CurrentStream(s).responses == CurrentStream(before).responses + rs
    decreases |rs|
  {
    ReachableHandles(before, base);
    if rs == [] {
      s := before;
      assert CurrentStream(before).responses + rs == CurrentStream(before).responses;
    } else {
      s := OneMoreResponse(before, rs[0], base);
      s := MoreResponses(s, rs[1..], base);
      FirstAndRest(CurrentStream(before).responses, rs);
    }
  }

  lemma EndedStream(s: State, base: seq<PbrRecord>)
    requires Reachable(s, base) && HasStream(s) && s.receiver.Exited?
    ensures EndsInOrder(CurrentStream(s).log) && ResponsesRead(CurrentStream(s).log) == CurrentStream(s).responses
  {
    ReachableLogs(s, base);
    var stream := CurrentStream(s);
    CompleteEndsInOrder(stream);
    var status :| stream.log == FullTrace(stream.responses, status);
    FullTraceCalls(stream.responses, status);
  }

  /** The last stream has read exactly these responses and ended with this status. */
  ghost predicate HasRun(s: State, rs: seq<SubscribeResponse>, status: Status) {
    && HasStream(s)
    && EndsInOrder(CurrentStream(s).log) && ResponsesRead(CurrentStream(s).log) == rs
    && Finish(status) in CurrentStream(s).log
  }

  /** Whatever responses whose counters parse a server sends, and whatever status it ends with. */
  lemma EveryStreamHappens(args: ContextArgs, rpcArgs: RpcArgs, keys: seq<PbrKey>, rs: seq<SubscribeResponse>,
                           status: Status, base: seq<PbrRecord>)
    requires forall i :: 0 <= i < |rs| ==> !ResponseOutcome(rs[i]).Threw?
    ensures exists s :: Reachable(s, base) && s.registered == [FirstCall(args, rpcArgs, keys)] && HasRun(s, rs, status)
  {
    var s := Opened(args, rpcArgs, keys, base);
    s := MoreResponses(s, rs, base);
    s := Ended(s, status, base);
    EndedStream(s, base);
    assert HasRun(s, rs, status);
  }

  /** A response whose counters do not parse ends the process before anything is stored. */
  lemma ThrowingResponseEscapes(s: State, r: SubscribeResponse, base: seq<PbrRecord>)
    requires Reachable(s, base) && Enabled(s, ReadTrue(r)) && ResponseOutcome(r).Threw?
    ensures Enabled(Apply(s, ReadTrue(r)), ReceiverStep)
    ensures var t := Apply(Apply(s, ReadTrue(r)), ReceiverStep);
            t.status == Escaped && t.stats == s.stats && forall step :: !Enabled(t, step)
  {
    ReachableHandles(s, base);
  }
}
