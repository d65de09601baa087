/** What the events of a stream say about its responses and about the user's handlers. */
module StreamTraces {
  import opened GnmiTypes
  import opened Pbr
  import opened Records
  import opened StreamProtocol
  import opened StreamInvariants

  // ----- the order of events -----

  lemma {:induction false} TraceShape(responses: seq<SubscribeResponse>)
    ensures forall i :: 0 <= i < |Trace(responses)| ==> Trace(responses)[i].Got? || Trace(responses)[i].SuccessCalled?
  {
    if responses != [] {
      TraceShape(responses[..|responses| - 1]);
    }
  }

  /** The reads end at e; then each closing event is at its one place, and nothing else happens any more. */
  ghost predicate EndsAt(log: seq<Event>, e: int, status: Status) {
    && (forall i :: 0 <= i < |log| ==>
          && (log[i].EndOfReads? <==> i == e)
          && (log[i].WritesDone? <==> i == e + 1)
          && (log[i].Finish? <==> i == e + 2)
          && (log[i].FailedCalled? <==> i == e + 3))
    && 0 <= e && |log| == e + 3 + (if status.code == 0 || status.code == 1 then 0 else 1)
    && log[e + 2] == Finish(status)
    && (|log| == e + 4 ==> log[e + 3] == FailedCalled(status))
  }

  ghost predicate EndsInOrder(log: seq<Event>) {
    exists e, status :: EndsAt(log, e, status)
  }

  lemma CompleteEndsInOrder(stream: Stream)
    requires Complete(stream)
    ensures EndsInOrder(stream.log) && Finished(stream)
  {
    var status :| stream.log == FullTrace(stream.responses, status);
    var e := |Trace(stream.responses)|;
    TraceShape(stream.responses);
    assert stream.log[..e] == Trace(stream.responses);
    assert EndsAt(stream.log, e, status);
    assert stream.log[e + 2].Finish?;
  }

  lemma UnfinishedLog(stream: Stream, pc: ReceiverPc)
    requires LogAt(stream, pc) && !ReceiverHolds(pc) && !pc.Exited?
    ensures !Finished(stream)
    ensures forall e :: e in stream.log ==> !e.WritesDone? && !e.Finish? && !e.FailedCalled?
  {
    TraceShape(stream.responses);
    if pc.Notifying? {
      TraceShape(stream.responses[..|stream.responses| - 1]);
    }
  }

  // ----- the calls of the handlers -----

  function HandlerCalls(log: seq<Event>): seq<Event> {
    if log == [] then []
    else
      var last := log[|log| - 1];
      HandlerCalls(log[..|log| - 1]) + if last.SuccessCalled? || last.FailedCalled? then [last] else []
  }

  /** The responses that Read returned. */
  function ResponsesRead(log: seq<Event>): seq<SubscribeResponse> {
    if log == [] then []
    else
      var last := log[|log| - 1];
      ResponsesRead(log[..|log| - 1]) + if last.Got? then [last.response] else []
  }

  lemma OneMore(log: seq<Event>, event: Event)
    ensures HandlerCalls(log + [event])
         == HandlerCalls(log) + if event.SuccessCalled? || event.FailedCalled? then [event] else []
    ensures ResponsesRead(log + [event]) == ResponsesRead(log) + if event.Got? then [event.response] else []
  {
    assert (log + [event])[..|log|] == log;
  }

  /** One turn of the receive loop, with at most one record. */
  lemma OneTurn(log: seq<Event>, response: SubscribeResponse, records: seq<PbrRecord>)
    requires |records| <= 1
    ensures var longer := log + [Got(response)] + SuccessCalls(records);
            && HandlerCalls(longer) == HandlerCalls(log) + SuccessCalls(records)
            && ResponsesRead(longer) == ResponsesRead(log) + [response]
  {
    OneMore(log, Got(response));
    if records == [] {
      assert log + [Got(response)] + SuccessCalls(records) == log + [Got(response)];
    } else {
      assert SuccessCalls(records) == [SuccessCalled(records[0])];
      OneMore(log + [Got(response)], SuccessCalled(records[0]));
    }
  }

  /** The handler is called once for each accepted response, in order, with that response's record. */
  lemma {:induction false} TraceCalls(responses: seq<SubscribeResponse>)
    ensures HandlerCalls(Trace(responses)) == SuccessCalls(AcceptedRecords(responses))
    ensures ResponsesRead(Trace(responses)) == responses
  {
    if responses != [] {
      var n := |responses| - 1;
      TraceCalls(responses[..n]);
      OneTurn(Trace(responses[..n]), responses[n], RecordsOf(responses[n]));
      SuccessCallsAdd(AcceptedRecords(responses[..n]), RecordsOf(responses[n]));
      assert responses[..n] + [responses[n]] == responses;
    }
  }

  lemma SuccessCallsAdd(records: seq<PbrRecord>, more: seq<PbrRecord>)
    requires |more| <= 1
    ensures SuccessCalls(records + more) == SuccessCalls(records) + SuccessCalls(more)
  {
    if more == [] {
      assert records + more == records;
    } else {
      assert (records + more)[..|records|] == records;
      assert SuccessCalls(more) == [SuccessCalled(more[0])];
    }
  }

  /** The events that close a stream are neither reads nor calls. */
  lemma EndingCalls(responses: seq<SubscribeResponse>, log: seq<Event>, status: Status)
    requires var ended := Trace(responses) + [EndOfReads];
             log == ended || log == ended + [WritesDone] || log == ended + [WritesDone] + [Finish(status)]
    ensures HandlerCalls(log) == HandlerCalls(Trace(responses))
    ensures ResponsesRead(log) == ResponsesRead(Trace(responses))
  {
    var trace := Trace(responses);
    OneMore(trace, EndOfReads);
    OneMore(trace + [EndOfReads], WritesDone);
    OneMore(trace + [EndOfReads] + [WritesDone], Finish(status));
  }

  /** A finished stream: the success calls, then a failure call unless the status is OK or CANCELLED. */
  lemma FullTraceCalls(responses: seq<SubscribeResponse>, status: Status)
    ensures HandlerCalls(FullTrace(responses, status))
         == SuccessCalls(AcceptedRecords(responses)) + FailureCalls(status)
    ensures ResponsesRead(FullTrace(responses, status)) == responses
  {
    var ended := Trace(responses) + [EndOfReads] + [WritesDone] + [Finish(status)];
    TraceCalls(responses);
    EndingCalls(responses, ended, status);
    if status.Ok() || status.Cancelled() {
      assert FullTrace(responses, status) == ended;
    } else {
      OneMore(ended, FailedCalled(status));
    }
  }

  /** How many of the responses dealt with have also been told to the user. */
  function Told(stream: Stream, pc: ReceiverPc): seq<SubscribeResponse> {
    if pc.Notifying? && stream.responses != [] then stream.responses[..|stream.responses| - 1] else stream.responses
  }

  lemma GotCalls(responses: seq<SubscribeResponse>, response: SubscribeResponse)
    ensures HandlerCalls(Trace(responses) + [Got(response)]) == SuccessCalls(AcceptedRecords(responses))
    ensures ResponsesRead(Trace(responses) + [Got(response)]) == responses + [response]
  {
    TraceCalls(responses);
    OneMore(Trace(responses), Got(response));
  }

  lemma NotifyingCalls(stream: Stream)
    requires LogAt(stream, Notifying)
    ensures HandlerCalls(stream.log) == SuccessCalls(AcceptedRecords(Told(stream, Notifying)))
    ensures ResponsesRead(stream.log) == stream.responses
  {
    var n := |stream.responses| - 1;
    GotCalls(stream.responses[..n], stream.responses[n]);
    assert stream.responses[..n] + [stream.responses[n]] == stream.responses;
  }

  /** The calls so far, before any report: one for each accepted response that is dealt with. */
  lemma OpenTraceCalls(stream: Stream, pc: ReceiverPc)
    requires LogAt(stream, pc) && !pc.Releasing? && !pc.Exited?
    ensures HandlerCalls(stream.log) == SuccessCalls(AcceptedRecords(Told(stream, pc)))
    ensures ResponsesRead(stream.log) == stream.responses + (if pc.Processing? then [pc.response] else [])
  {
    if pc.Notifying? {
      NotifyingCalls(stream);
    } else if pc.WaitLock? || pc.InWritesDone? || pc.InFinish? || pc.Reporting? {
      TraceCalls(stream.responses);
      EndingCalls(stream.responses, stream.log, if pc.Reporting? then pc.status else Status(0, ""));
    } else if pc.Processing? {
      GotCalls(stream.responses, pc.response);
    } else {
      TraceCalls(stream.responses);
    }
  }
}
