/** The gNMI messages the client exchanges, and the client's error codes. */
module GnmiTypes {
  import opened Results

  // ----- paths (gNMI specification, section 2.2.2) -----

  datatype KeyValue = KeyValue(key: string, value: string)

  predicate DistinctKeys(entries: seq<KeyValue>) {
    forall i, j :: 0 <= i < j < |entries| ==> entries[i].key != entries[j].key
  }

  /**
   * The key map of a path element, listed in the order in which protobuf happens to
   * iterate over it. Protobuf promises no order, so every order is a possible value.
   */
  type KeyMap = entries: seq<KeyValue> | DistinctKeys(entries)

  datatype PathElem = PathElem(name: string, key: KeyMap)

  datatype Path = Path(origin: string, elem: seq<PathElem>)

  const EMPTY_PATH := Path("", [])

  /** protobuf's Map::find. */
  function FindKey(entries: seq<KeyValue>, key: string): (value: Option<string>)
    ensures value.Some? <==> exists i :: 0 <= i < |entries| && entries[i].key == key
    ensures value.Some? ==> KeyValue(key, value.value) in entries
  {
    if entries == [] then None
    else if entries[0].key == key then Some(entries[0].value)
    else FindKey(entries[1..], key)
  }

  // ----- values (section 2.3) -----

  datatype Member = Member(name: string, value: Json)

  /** A parsed JSON document; numbers keep the three kinds that the JSON library keeps. */
  datatype Json =
    | JNull
    | JBool(b: bool)
    | JUint(u: nat)
    | JInt(i: int)
    | JFloat(text: string)
    | JString(s: string)
    | JArray(items: seq<Json>)
    | JObject(members: seq<Member>)

  /** The bytes of a JSON_IETF value: either they do not parse, or they denote a document. */
  datatype JsonText = Malformed | Document(value: Json)

  datatype TypedValue =
    | UintVal(u: nat)
    | IntVal(i: int)
    | StringVal(s: string)
    | BoolVal(b: bool)
    | DoubleVal(text: string)
    | JsonIetfVal(json: JsonText)
    | OtherVal

  // ----- responses -----

  datatype Update = Update(path: Option<Path>, val: Option<TypedValue>)

  datatype Notification = Notification(prefix: Option<Path>, update: seq<Update>)

  datatype SubscribeResponse = SubscribeResponse(update: Option<Notification>)

  // ----- requests -----

  /** client_context_args; the deadline is absent unless set_deadline. */
  datatype ContextArgs = ContextArgs(username: string, password: string, deadline: Option<int>)

  datatype Encoding = JSON | BYTES | PROTO | ASCII | JSON_IETF

  datatype StreamMode = STREAM | ONCE

  datatype SubscriptionMode = TARGET_DEFINED | ON_CHANGE | SAMPLE

  datatype RpcArgs = RpcArgs(sampleIntervalNsec: nat, encoding: Encoding, mode: StreamMode)

  datatype Subscription = Subscription(mode: SubscriptionMode, sampleInterval: nat, path: Path)

  datatype SubscribeRequest = SubscribeRequest(mode: StreamMode, encoding: Encoding, subscription: seq<Subscription>)

  // ----- results -----

  datatype InternalErrorCode =
    | SUCCESS
    | NO_NOTIFICATION
    | NO_PREFIX_IN_RESPONSE
    | NO_UPDATE_IN_NOTIFICATION
    | NO_POLICY_NAME_IN_RESPONSE
    | NO_RULE_NAME_IN_RESPONSE
    | UNSUPPORTED_ENCODING
    | UNKNOWN_ERROR

  datatype ErrorCode = OK | CLIENT_TYPE_FAILURE | WRITES_FAILED | RPC_FAILURE

  /** grpc::Status; code 0 is OK and code 1 is CANCELLED. */
  datatype Status = Status(code: nat, message: string) {
    predicate Ok() { code == 0 }
    predicate Cancelled() { code == 1 }
  }
}
