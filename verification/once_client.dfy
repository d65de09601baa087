/** The blocking ONCE call (mgbl_api.cpp:464-555). */
module OnceClient {
  import opened Results
  import opened Text
  import opened GnmiTypes
  import opened Decimal
  import opened Pbr
  import opened Requests
  import opened Records
  import opened RequestLaws

  // ----- the stream of one call -----

  datatype OnceEvent =
    | Opened(args: ContextArgs)
    | Wrote(request: SubscribeRequest)
    | ReadOne
    | ReadEnd
    | WritesWereDone
    | Finished

  /** A ClientReaderWriter: what the server will send is fixed when the stream is opened. */
  class OnceStream {
    var incoming: seq<SubscribeResponse>
    var log: seq<OnceEvent>
    const writeOk: bool
    const doneOk: bool
    const status: Status

    constructor (incoming: seq<SubscribeResponse>, writeOk: bool, doneOk: bool, status: Status)
      ensures this.incoming == incoming && log == [] && this.status == status
    {
      this.incoming, this.log := incoming, [];
      this.writeOk, this.doneOk, this.status := writeOk, doneOk, status;
    }

    /** Subscribe, on a context with these arguments. */
    method Open(args: ContextArgs)
      modifies this`log
      ensures log == old(log) + [Opened(args)]
    {
      log := log + [Opened(args)];
    }

    method Write(request: SubscribeRequest) returns (ok: bool)
      modifies this`log
      ensures log == old(log) + [Wrote(request)]
    {
      log := log + [Wrote(request)];
      return writeOk;
    }

    method Read() returns (response: Option<SubscribeResponse>)
      modifies this
      ensures old(incoming) == [] ==> response == None && incoming == [] && log == old(log) + [ReadEnd]
      ensures old(incoming) != [] ==>
                response == Some(old(incoming)[0]) && incoming == old(incoming)[1..] && log == old(log) + [ReadOne]
    {
      if incoming == [] {
        log := log + [ReadEnd];
        return None;
      }
      response := Some(incoming[0]);
      incoming, log := incoming[1..], log + [ReadOne];
    }

    method WritesDone() returns (ok: bool)
      modifies this`log
      ensures log == old(log) + [WritesWereDone]
    {
      log := log + [WritesWereDone];
      return doneOk;
    }

    method Finish() returns (result: Status)
      modifies this`log
      ensures log == old(log) + [Finished] && result == status
    {
      log := log + [Finished];
      return status;
    }
  }

  datatype OnceResult = Returned(code: ErrorCode, status: Status) | Escaped(error: StoullError)

  const OK_STATUS := Status(0, "")

  function Reads(n: nat): (r: seq<OnceEvent>)
    ensures |r| == n
  {
    if n == 0 then [] else Reads(n - 1) + [ReadOne]
  }

  /** The reads that stop at response n of total: one for each before it, and the one that stops. */
  function ReadLog(n: nat, total: nat): seq<OnceEvent> {
    Reads(n) + [if n < total then ReadOne else ReadEnd]
  }

  lemma ReadLogStep(before: seq<OnceEvent>, n: nat, total: nat)
    requires n < total
    ensures before + ReadLog(n, total) + [if n + 1 < total then ReadOne else ReadEnd] == before + ReadLog(n + 1, total)
  {
    Assoc(before, ReadLog(n, total), [if n + 1 < total then ReadOne else ReadEnd]);
  }

  /** Reads until the server has sent everything, or until an exception escapes. */
  method ReadAll(stream: OnceStream, pbr: PBRBasic) returns (escaped: Option<StoullError>)
    modifies stream, pbr`stats
    ensures var responses := old(stream.incoming);
            var n := FirstThrow(responses);
            && (escaped.Some? <==> n < |responses|)
            && ReadUpTo(responses, n, AcceptedRecords(responses[..n]))
            && (escaped.Some? ==> ThrownBy(responses[n], escaped.value))
            && pbr.stats == old(pbr.stats) + AcceptedRecords(responses[..n])
            && stream.log == old(stream.log) + ReadLog(n, |responses|)
  {
    ghost var responses := stream.incoming;
    ghost var i := 0;
    ghost var before := stream.log;
    var response := stream.Read();
    while response.Some?
      invariant i <= |responses| && NoneThrows(responses[..i])
      invariant response.Some? <==> i < |responses|
      invariant response.Some? ==> response.value == responses[i] && stream.incoming == responses[i + 1..]
      invariant stream.log == before + ReadLog(i, |responses|)
      invariant pbr.stats == old(pbr.stats) + AcceptedRecords(responses[..i])
      decreases |responses| - i
    {
      var thrown := ReadStep(response.value, pbr);
      if thrown.Some? {
        FirstThrowAt(responses, i);
        ReadUpToFirstThrow(responses);
        return thrown;
      }
      AcceptedRecordsStep(responses, i);
      ReadLogStep(before, i, |responses|);
      Assoc(old(pbr.stats), AcceptedRecords(responses[..i]), RecordsOf(responses[i]));
      i := i + 1;
      response := stream.Read();
    }
    FirstThrowAt(responses, i);
    ReadUpToFirstThrow(responses);
    return None;
  }

  /** The body of the read loop: an accepted response adds its record. */
  method ReadStep(response: SubscribeResponse, pbr: PBRBasic) returns (thrown: Option<StoullError>)
    modifies pbr`stats
    ensures thrown.Some? <==> Throws(response)
    ensures thrown.Some? ==> ThrownBy(response, thrown.value)
    ensures pbr.stats == old(pbr.stats) + RecordsOf(response)
  {
    var checked := CheckResponse(response);
    if checked.CheckedThrow? {
      return Some(checked.error);
    }
    if checked.CheckedStat? {
      pbr.AddStats(checked.stat);
    }
    return None;
  }

  /** What happens on an opened stream: the request, the reads and, unless one throws, the end. */
  function ExchangeLog(request: SubscribeRequest, n: nat, total: nat): seq<OnceEvent> {
    [Wrote(request)] + ReadLog(n, total) + if n < total then [] else [WritesWereDone, Finished]
  }

  lemma ExchangeLogOf(before: seq<OnceEvent>, request: SubscribeRequest, n: nat, total: nat)
    ensures n < total ==>
              before + [Wrote(request)] + ReadLog(n, total) == before + ExchangeLog(request, n, total)
    ensures n >= total ==>
              before + [Wrote(request)] + ReadLog(n, total) + [WritesWereDone] + [Finished]
              == before + ExchangeLog(request, n, total)
  {
  }

  /** The call from its write on. */
  method Exchange(request: SubscribeRequest, pbr: PBRBasic, stream: OnceStream) returns (result: OnceResult)
    modifies stream, pbr`stats
    ensures var responses := old(stream.incoming);
            var n := FirstThrow(responses);
            && ReadUpTo(responses, n, AcceptedRecords(responses[..n]))
            && pbr.stats == old(pbr.stats) + AcceptedRecords(responses[..n])
            && stream.log == old(stream.log) + ExchangeLog(request, n, |responses|)
            && (n < |responses| ==> result.Escaped? && ThrownBy(responses[n], result.error))
            && (n == |responses| ==>
                  result == Returned(if stream.status.code == 0 then OK else RPC_FAILURE, stream.status))
  {
    var written := stream.Write(request);
    ghost var total := |stream.incoming|;
    var escaped := ReadAll(stream, pbr);
    ExchangeLogOf(old(stream.log), request, FirstThrow(old(stream.incoming)), total);
    if escaped.Some? {
      return Escaped(escaped.value);
    }
    var done := stream.WritesDone();
    var status := stream.Finish();
    return Returned(if status.Ok() then OK else RPC_FAILURE, status);
  }

  /** rpc_register_stats_once on the stream that Subscribe returns. */
  method RpcRegisterStatsOnce(clientType: string, context: ContextArgs, args: RpcArgs,
                              pbr: PBRBasic, stream: OnceStream) returns (result: OnceResult)
    requires forall i :: 0 <= i < |pbr.keys| ==> |RequestPathText(pbr.keys[i])| < NPOS
    modifies stream, pbr`stats
    ensures clientType != "pbr" || context.username == "" || context.password == "" ==>
              && result == Returned(CLIENT_TYPE_FAILURE, OK_STATUS)
              && pbr.stats == old(pbr.stats) && stream.log == old(stream.log)
    ensures clientType == "pbr" && context.username != "" && context.password != "" ==>
              var responses := old(stream.incoming);
              var n := FirstThrow(responses);
              var request := RequestFor(args.(mode := ONCE), RequestPathTexts(pbr.keys));
              && AsksForKeys(request, ONCE, args, pbr.keys)
              && ReadUpTo(responses, n, AcceptedRecords(responses[..n]))
              && pbr.stats == old(pbr.stats) + AcceptedRecords(responses[..n])
              && stream.log == old(stream.log) + [Opened(context)] + ExchangeLog(request, n, |responses|)
              && (n < |responses| ==> result.Escaped? && ThrownBy(responses[n], result.error))
              && (n == |responses| ==>
                    result == Returned(if stream.status.code == 0 then OK else RPC_FAILURE, stream.status))
  {
    if clientType != "pbr" {
      return Returned(CLIENT_TYPE_FAILURE, OK_STATUS);
    }
    if context.username == "" || context.password == "" {
      return Returned(CLIENT_TYPE_FAILURE, OK_STATUS);
    }
    var paths := pbr.GetGnmiPaths();
    var request, _ := SubscribeRequestHelper(args.(mode := ONCE), paths);
    RequestAsksForKeys(ONCE, args, pbr.keys);
    stream.Open(context);
    result := Exchange(request, pbr, stream);
  }
}
