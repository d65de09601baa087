/** PBR statistics: converting decoded maps to records, and the request paths (mgbl_pbr.cpp). */
module Pbr {
  import opened Results
  import opened GnmiTypes
  import opened Decimal
  import opened Decoder

  const PATH_ORIGIN := "Cisco-IOS-XR-pbr-fwd-stats-oper"

  const BYTE_COUNT := "/fib-stats/byte-count"
  const PACKET_COUNT := "/fib-stats/packet-count"
  const SECONDS := "/fib-stats/collection-timestamp/" + "seconds"
  const NANOSECONDS := "/fib-stats/collection-timestamp/" + "nano-seconds"
  const PATH_GRP_NAME := "/paction/policy-rule-action/act-un/" + "path-grp-name"
  const ACTION_TYPE := "/paction/policy-rule-action/act-un/" + "type"

  // ----- the keys of the decoded map that a record is made from -----

  datatype Leaf = ByteCount | PacketCount | Seconds | Nanoseconds | PathGrpName | ActionType

  function LeafKey(leaf: Leaf): string {
    match leaf
    case ByteCount => BYTE_COUNT
    case PacketCount => PACKET_COUNT
    case Seconds => SECONDS
    case Nanoseconds => NANOSECONDS
    case PathGrpName => PATH_GRP_NAME
    case ActionType => ACTION_TYPE
  }

  predicate IsCounter(leaf: Leaf) {
    leaf != PathGrpName && leaf != ActionType
  }

  lemma LeafKeyIsNoName(leaf: Leaf)
    ensures LeafKey(leaf) != POLICY && LeafKey(leaf) != RULE
  {
    assert LeafKey(leaf)[0] == '/';
    assert POLICY[0] != '/' && RULE[0] != '/';
  }

  // ----- records -----

  /** The value of a PbrBasicStat. */
  datatype PbrRecord = PbrRecord(
    policyName: string,
    ruleName: string,
    byteCount: u64,
    packetCount: u64,
    collectionTimestampSeconds: u64,
    collectionTimestampNanoseconds: u64,
    pathGrpName: string,
    policyActionType: string)

  class PbrBasicStat {
    var policyName: string
    var ruleName: string
    var byteCount: u64
    var packetCount: u64
    var collectionTimestampSeconds: u64
    var collectionTimestampNanoseconds: u64
    var pathGrpName: string
    var policyActionType: string

    constructor ()
      ensures Value() == PbrRecord("", "", 0, 0, 0, 0, "", "")
    {
      policyName, ruleName := "", "";
      byteCount, packetCount := 0, 0;
      collectionTimestampSeconds, collectionTimestampNanoseconds := 0, 0;
      pathGrpName, policyActionType := "", "";
    }

    function Value(): PbrRecord
      reads this
    {
      PbrRecord(policyName, ruleName, byteCount, packetCount, collectionTimestampSeconds,
                collectionTimestampNanoseconds, pathGrpName, policyActionType)
    }
  }

  /** A counter that is absent stays zero; one that is present has to parse. */
  function CounterAt(m: Strings, key: string): Result<u64, StoullError> {
    if key in m then Stoull(m[key]) else Success(0)
  }

  /** The record of a decoded map, or the exception of the first counter that does not parse. */
  function RecordOf(m: Strings): Result<PbrRecord, StoullError> {
    var bytes, packets := CounterAt(m, BYTE_COUNT), CounterAt(m, PACKET_COUNT);
    var seconds, nanos := CounterAt(m, SECONDS), CounterAt(m, NANOSECONDS);
    if bytes.Failure? then Failure(bytes.error)
    else if packets.Failure? then Failure(packets.error)
    else if seconds.Failure? then Failure(seconds.error)
    else if nanos.Failure? then Failure(nanos.error)
    else Success(PbrRecord(Lookup(m, POLICY), Lookup(m, RULE), bytes.value, packets.value, seconds.value, nanos.value,
                           Lookup(m, PATH_GRP_NAME), Lookup(m, ACTION_TYPE)))
  }

  /** Looking a counter up and parsing it, if it is there. */
  method ReadCounter(m: Strings, key: string) returns (result: Result<u64, StoullError>)
    ensures result == CounterAt(m, key)
  {
    result := Success(0);
    if key in m {
      result := Stoull(m[key]);
    }
  }

  method ReadText(m: Strings, key: string) returns (text: string)
    ensures text == Lookup(m, key)
  {
    text := "";
    if key in m {
      text := m[key];
    }
  }

  /** unordered_map_to_stats, with the exception of std::stoull as a failure. */
  method UnorderedMapToStats(m: Strings) returns (result: Result<PbrBasicStat, StoullError>)
    ensures result.Failure? <==> RecordOf(m).Failure?
    ensures result.Failure? ==> result.error == RecordOf(m).error
    ensures result.Success? ==> fresh(result.value)
    ensures result.Success? ==> result.value.Value() == RecordOf(m).value
  {
    var stats := new PbrBasicStat();
    stats.policyName := ReadText(m, POLICY);
    stats.ruleName := ReadText(m, RULE);
    var counter := ReadCounter(m, BYTE_COUNT);
    if counter.Failure? {
      return Failure(counter.error);
    }
    stats.byteCount := counter.value;
    counter := ReadCounter(m, PACKET_COUNT);
    if counter.Failure? {
      return Failure(counter.error);
    }
    stats.packetCount := counter.value;
    counter := ReadCounter(m, SECONDS);
    if counter.Failure? {
      return Failure(counter.error);
    }
    stats.collectionTimestampSeconds := counter.value;
    counter := ReadCounter(m, NANOSECONDS);
    if counter.Failure? {
      return Failure(counter.error);
    }
    stats.collectionTimestampNanoseconds := counter.value;
    stats.pathGrpName := ReadText(m, PATH_GRP_NAME);
    stats.policyActionType := ReadText(m, ACTION_TYPE);
    RecordIs(m, stats.Value());
    return Success(stats);
  }

  lemma RecordIs(m: Strings, r: PbrRecord)
    requires r.policyName == Lookup(m, POLICY) && r.ruleName == Lookup(m, RULE)
    requires CounterAt(m, BYTE_COUNT) == Success(r.byteCount) && CounterAt(m, PACKET_COUNT) == Success(r.packetCount)
    requires CounterAt(m, SECONDS) == Success(r.collectionTimestampSeconds)
    requires CounterAt(m, NANOSECONDS) == Success(r.collectionTimestampNanoseconds)
    requires r.pathGrpName == Lookup(m, PATH_GRP_NAME) && r.policyActionType == Lookup(m, ACTION_TYPE)
    ensures RecordOf(m) == Success(r)
  {
  }

  // ----- request keys -----

  datatype PbrKey = PbrKey(keyPolicy: string, keyRule: string)

  function RequestPathText(key: PbrKey): string {
    PATH_ORIGIN + ":pbr-stats/policy-maps/policy-map[policy-name=" + key.keyPolicy
    + "]/rule-names/rule-name[rule-name=" + key.keyRule + "]/"
  }

  function RequestPathTexts(keys: seq<PbrKey>): (paths: seq<string>)
    ensures |paths| == |keys|
    ensures forall i :: 0 <= i < |keys| ==> paths[i] == RequestPathText(keys[i])
  {
    if keys == [] then [] else [RequestPathText(keys[0])] + RequestPathTexts(keys[1..])
  }

  /** The counter interface that the client works on. */
  class PBRBasic {
    var keys: seq<PbrKey>
    var stats: seq<PbrRecord>

    constructor (keys: seq<PbrKey>)
      ensures this.keys == keys && stats == []
    {
      this.keys, stats := keys, [];
    }

    /** A copy of the record is stored. */
    method AddStats(stat: PbrBasicStat)
      modifies this`stats
      ensures stats == old(stats) + [stat.Value()]
    {
      stats := stats + [stat.Value()];
    }

    method GetGnmiPaths() returns (paths: seq<string>)
      ensures paths == RequestPathTexts(keys)
    {
      paths := [];
      var i := 0;
      while i < |keys|
        invariant 0 <= i <= |keys|
        invariant paths == RequestPathTexts(keys)[..i]
      {
        var path := PATH_ORIGIN + ":pbr-stats/policy-maps/policy-map[policy-name=" + keys[i].keyPolicy;
        path := path + "]/rule-names/rule-name[rule-name=" + keys[i].keyRule + "]/";
        PathTextParts(keys[i]);
        RequestPathTextsStep(keys, i);
        paths := paths + [path];
        i := i + 1;
      }
    }
  }

  lemma RequestPathTextsStep(keys: seq<PbrKey>, i: nat)
    requires i < |keys|
    ensures RequestPathTexts(keys)[..i + 1] == RequestPathTexts(keys)[..i] + [RequestPathText(keys[i])]
  {
    OneLonger(RequestPathTexts(keys), i);
  }

  lemma OneLonger<T>(s: seq<T>, i: nat)
    requires i < |s|
    ensures s[..i + 1] == s[..i] + [s[i]]
  {
  }

  lemma PathTextParts(key: PbrKey)
    ensures PATH_ORIGIN + ":pbr-stats/policy-maps/policy-map[policy-name=" + key.keyPolicy
          + ("]/rule-names/rule-name[rule-name=" + key.keyRule + "]/")
         == RequestPathText(key)
  {
    Assoc4(PATH_ORIGIN + ":pbr-stats/policy-maps/policy-map[policy-name=" + key.keyPolicy,
           "]/rule-names/rule-name[rule-name=", key.keyRule, "]/");
  }

  lemma Assoc4<T>(a: seq<T>, b: seq<T>, c: seq<T>, d: seq<T>)
    ensures a + (b + c + d) == a + b + c + d
  {
  }

  // ----- responses -----

  /** check_response: a record, an error code, or the exception of std::stoull. */
  datatype Outcome = Accepted(record: PbrRecord) | Rejected(code: InternalErrorCode) | Threw(error: StoullError)

  function ResponseOutcome(response: SubscribeResponse): Outcome {
    if response.update.None? then Rejected(NO_NOTIFICATION)
    else
      match ParseResponse(response.update.value, PATH_ORIGIN)
      case Failure(code) => Rejected(code)
      case Success(m) =>
        match RecordOf(m)
        case Failure(e) => Threw(e)
        case Success(record) => Accepted(record)
  }

  datatype Checked =
    | CheckedStat(stat: PbrBasicStat)
    | CheckedCode(code: InternalErrorCode)
    | CheckedThrow(error: StoullError)

  method CheckResponse(response: SubscribeResponse) returns (result: Checked)
    ensures match ResponseOutcome(response)
            case Accepted(record) => result.CheckedStat? && fresh(result.stat) && result.stat.Value() == record
            case Rejected(code) => result == CheckedCode(code)
            case Threw(e) => result == CheckedThrow(e)
  {
    if response.update.Some? {
      var expectedGnmiMap := GnmiParseResponse(response.update.value, PATH_ORIGIN);
      if expectedGnmiMap.Failure? {
        return CheckedCode(expectedGnmiMap.error);
      }
      var pbrStat := UnorderedMapToStats(expectedGnmiMap.value.entries);
      if pbrStat.Failure? {
        return CheckedThrow(pbrStat.error);
      }
      return CheckedStat(pbrStat.value);
    } else {
      return CheckedCode(NO_NOTIFICATION);
    }
  }
}
