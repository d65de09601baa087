/** Building the subscribe request (mgbl_api.cpp:124-170). */
module Requests {
  import opened Results
  import opened Text
  import opened GnmiTypes
  import opened PathCodec

  /** A path that does not parse is replaced by an empty one; the error is only logged. */
  function PathOrEmpty(text: string): Path {
    match ParsePath(text)
    case Success(path) => path
    case Failure(_) => EMPTY_PATH
  }

  predicate Supported(encoding: Encoding) {
    encoding == JSON_IETF || encoding == PROTO
  }

  function Subscriptions(args: RpcArgs, paths: seq<string>): (r: seq<Subscription>)
    ensures |r| == |paths|
    ensures forall i :: 0 <= i < |paths| ==>
                          r[i] == Subscription(SAMPLE, args.sampleIntervalNsec, PathOrEmpty(paths[i]))
  {
    if paths == [] then []
    else [Subscription(SAMPLE, args.sampleIntervalNsec, PathOrEmpty(paths[0]))] + Subscriptions(args, paths[1..])
  }

  lemma SubscriptionsStep(args: RpcArgs, paths: seq<string>, i: nat)
    requires i < |paths|
    ensures Subscriptions(args, paths)[..i + 1]
         == Subscriptions(args, paths)[..i] + [Subscription(SAMPLE, args.sampleIntervalNsec, PathOrEmpty(paths[i]))]
  {
  }

  /** With an unsupported encoding only the mode is set. */
  function RequestFor(args: RpcArgs, paths: seq<string>): SubscribeRequest {
    if Supported(args.encoding) then SubscribeRequest(args.mode, args.encoding, Subscriptions(args, paths))
    else SubscribeRequest(args.mode, JSON, [])
  }

  /** The try block around the parser. */
  method ParseOrEmpty(text: string) returns (tempPath: Path)
    requires |text| < NPOS
    ensures tempPath == PathOrEmpty(text)
  {
    tempPath := EMPTY_PATH;
    var parsed := StringToGnmiPath(text);
    if parsed.Success? {
      tempPath := parsed.value;
    }
  }

  method SubscribeRequestHelper(args: RpcArgs, pathsOfInterest: seq<string>)
    returns (request: SubscribeRequest, code: InternalErrorCode)
    requires forall i :: 0 <= i < |pathsOfInterest| ==> |pathsOfInterest[i]| < NPOS
    ensures request == RequestFor(args, pathsOfInterest)
    ensures code == SUCCESS || code == UNSUPPORTED_ENCODING
    ensures code == SUCCESS <==> args.encoding == JSON_IETF || args.encoding == PROTO
  {
    request := SubscribeRequest(args.mode, JSON, []);
    if args.encoding == JSON_IETF || args.encoding == PROTO {
      request := request.(encoding := args.encoding);
    } else {
      return request, UNSUPPORTED_ENCODING;
    }
    var i := 0;
    while i < |pathsOfInterest|
      invariant 0 <= i <= |pathsOfInterest|
      invariant request == SubscribeRequest(args.mode, args.encoding, Subscriptions(args, pathsOfInterest)[..i])
    {
      SubscriptionsStep(args, pathsOfInterest, i);
      var tempPath := ParseOrEmpty(pathsOfInterest[i]);
      var subscription := Subscription(SAMPLE, args.sampleIntervalNsec, tempPath);
      request := request.(subscription := request.subscription + [subscription]);
      i := i + 1;
    }
    return request, SUCCESS;
  }
}
