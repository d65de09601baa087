/** Decoding one notification into a map of strings (mgbl_api.cpp:221-419). */
module Decoder {
  import opened Results
  import opened Text
  import opened GnmiTypes
  import opened Decimal
  import opened JsonFlatten
  import PathCodec
  import PointerRewrite

  type Strings = map<string, string>

  /** The unordered_map that the decoding functions share and fill. */
  class StringMap {
    var entries: Strings

    constructor ()
      ensures entries == map[]
    {
      entries := map[];
    }

    /** operator[] on the left of an assignment. */
    method Put(key: string, value: string)
      modifies this
      ensures entries == old(entries)[key := value]
    {
      entries := entries[key := value];
    }

    /** insert(begin, end): keys that are already present keep their values. */
    method Insert(range: Strings)
      modifies this
      ensures entries == range + old(entries)
    {
      entries := range + entries;
    }

    /** operator[] as a value: an absent key is added with an empty string. */
    method Index(key: string) returns (value: string)
      modifies this
      ensures value == Lookup(old(entries), key)
      ensures entries == old(entries)[key := value]
    {
      if key !in entries {
        entries := entries[key := ""];
      }
      value := entries[key];
    }
  }

  function Lookup(m: Strings, key: string): string {
    if key in m then m[key] else ""
  }

  // ----- one JSON_IETF value -----

  /** A string is stored as it is, any other primitive as dump() writes it. */
  function PrimitiveText(value: Json): string {
    match value
    case JString(s) => s
    case JUint(u) => NatText(u)
    case JInt(i) => IntText(i)
    case JFloat(text) => text
    case JBool(b) => if b then "true" else "false"
    case JNull => "null"
    case JArray(_) => "[]"
    case JObject(_) => "{}"
  }

  /** The entries under their rewritten keys; later entries overwrite earlier ones. */
  function DecodeEntries(entries: seq<Entry>): Strings {
    if entries == [] then map[]
    else
      var last := entries[|entries| - 1];
      DecodeEntries(entries[..|entries| - 1])[PointerRewrite.ReplaceAll(last.pointer) := PrimitiveText(last.value)]
  }

  function DecodeDocument(document: Json): Strings {
    DecodeEntries(Flatten(document))
  }

  lemma ContainsFrom(key: string, sub: string, i: nat)
    requires i <= |key|
    ensures sub <= key[i..] ==> Contains(key, sub)
    ensures Contains(key[i..], sub) ==> Contains(key, sub)
  {
    if Contains(key[i..], sub) {
      var j :| 0 <= j <= |key[i..]| && sub <= key[i..][j..];
      assert key[i..][j..] == key[i + j..];
    }
  }

  lemma {:induction false} NothingToReplace(key: string)
    requires !Contains(key, PointerRewrite.ZERO_STEP)
    ensures PointerRewrite.ReplaceAll(key) == key
  {
    if |key| >= 3 {
      assert key[0..] == key;
      ContainsFrom(key, PointerRewrite.ZERO_STEP, 0);
      ContainsFrom(key, PointerRewrite.ZERO_STEP, 1);
      NothingToReplace(key[1..]);
    }
  }

  /** The loop over the flattened entries. */
  method RewriteEntries(flattenStruct: seq<Entry>) returns (result: Strings)
    ensures result == DecodeEntries(flattenStruct)
  {
    result := map[];
    var i := 0;
    while i < |flattenStruct|
      invariant 0 <= i <= |flattenStruct|
      invariant result == DecodeEntries(flattenStruct[..i])
    {
      var it := flattenStruct[i];
      var newKey := it.pointer;
      if Contains(it.pointer, PointerRewrite.ZERO_STEP) {
        newKey := PointerRewrite.ReplaceAll(it.pointer);
      } else {
        NothingToReplace(it.pointer);
      }
      if it.value.JString? {
        result := result[newKey := it.value.s];
      } else {
        result := result[newKey := PrimitiveText(it.value)];
      }
      assert flattenStruct[..i + 1][..i] == flattenStruct[..i];
      i := i + 1;
    }
    assert flattenStruct[..i] == flattenStruct;
  }

  /** Returns false where the source throws: the bytes are no JSON document. */
  method GnmiDecodeJsonIetf(json: JsonText, flattenedJson: StringMap) returns (ok: bool)
    modifies flattenedJson
    ensures ok <==> json.Document?
    ensures flattenedJson.entries
         == if ok then DecodeDocument(json.value) + old(flattenedJson.entries) else old(flattenedJson.entries)
  {
    if json.Malformed? {
      return false;
    }
    var result := RewriteEntries(Flatten(json.value));
    flattenedJson.Insert(result);
    return true;
  }

  // ----- one PROTO value -----

  function ValueText(value: TypedValue): string {
    match value
    case UintVal(u) => NatText(u)
    case IntVal(i) => IntText(i)
    case StringVal(s) => s
    case BoolVal(b) => if b then "true" else "false"
    case DoubleVal(text) => text
    case _ => "unsupported_type"
  }

  method GnmiDecodeProto(path: Path, value: TypedValue, flattenedProto: StringMap)
    modifies flattenedProto
    ensures flattenedProto.entries == old(flattenedProto.entries)[PathCodec.PathText(path) := ValueText(value)]
  {
    var partialPath := PathCodec.GnmiPathToString(path);
    match value {
      case UintVal(u) => flattenedProto.Put(partialPath, NatText(u));
      case IntVal(i) => flattenedProto.Put(partialPath, IntText(i));
      case StringVal(s) => flattenedProto.Put(partialPath, s);
      case BoolVal(b) => flattenedProto.Put(partialPath, if b then "true" else "false");
      case DoubleVal(text) => flattenedProto.Put(partialPath, text);
      case _ => flattenedProto.Put(partialPath, "unsupported_type");
    }
  }

  // ----- all updates of a notification -----

  /** An update takes part only if it has both a path and a value. */
  predicate Valued(u: Update) {
    u.path.Some? && u.val.Some?
  }

  /** JSON keys never overwrite, PROTO keys always do. */
  function DecodeUpdate(m: Strings, u: Update): Strings {
    if !Valued(u) then m
    else
      match u.val.value
      case JsonIetfVal(Malformed) => m
      case JsonIetfVal(Document(document)) => DecodeDocument(document) + m
      case value => m[PathCodec.PathText(u.path.value) := ValueText(value)]
  }

  function DecodeUpdates(updates: seq<Update>): Strings {
    if updates == [] then map[]
    else DecodeUpdate(DecodeUpdates(updates[..|updates| - 1]), updates[|updates| - 1])
  }

  /** The path that names policy and rule: that of the last valued update if it is JSON, else the prefix. */
  function ChosenPath(updates: seq<Update>, prefix: Path): Path {
    if updates == [] then prefix
    else
      var last := updates[|updates| - 1];
      if !Valued(last) then ChosenPath(updates[..|updates| - 1], prefix)
      else if last.val.value.JsonIetfVal? then last.path.value
      else prefix
  }

  // ----- the names -----

  const POLICY_MAP := "policy-map"
  const POLICY_KEY := "policy-name"
  const POLICY := "policy_name"
  const RULE_NAME := "rule-name"
  const RULE := "rule_name"

  function ScanElem(m: Strings, elem: PathElem): Strings {
    if elem.name == POLICY_MAP then
      var found := FindKey(elem.key, POLICY_KEY);
      if found.Some? then m[POLICY := found.value] else m
    else if elem.name == RULE_NAME then
      var found := FindKey(elem.key, RULE_NAME);
      if found.Some? then m[RULE := found.value] else m
    else m
  }

  function ScanNames(m: Strings, elems: seq<PathElem>): Strings {
    if elems == [] then m
    else ScanElem(ScanNames(m, elems[..|elems| - 1]), elems[|elems| - 1])
  }

  // ----- the whole notification -----

  function ParseResponse(notification: Notification, pathOrigin: string): Result<Strings, InternalErrorCode> {
    if notification.prefix.None? then Failure(NO_PREFIX_IN_RESPONSE)
    else if !Contains(notification.prefix.value.origin, pathOrigin) then Failure(UNKNOWN_ERROR)
    else if notification.update == [] then Failure(NO_UPDATE_IN_NOTIFICATION)
    else
      var path := ChosenPath(notification.update, notification.prefix.value);
      var m := ScanNames(DecodeUpdates(notification.update), path.elem);
      if Lookup(m, POLICY) == "" then Failure(NO_POLICY_NAME_IN_RESPONSE)
      else if Lookup(m, RULE) == "" then Failure(NO_RULE_NAME_IN_RESPONSE)
      else Success(m)
  }

  method DecodeAllUpdates(updates: seq<Update>, prefix: Path) returns (result: StringMap, printedPath: Path)
    ensures fresh(result)
    ensures result.entries == DecodeUpdates(updates)
    ensures printedPath == ChosenPath(updates, prefix)
  {
    var encoding := PROTO;
    var path := EMPTY_PATH;
    result := new StringMap();
    var j := 0;
    while j < |updates|
      invariant 0 <= j <= |updates|
      invariant result.entries == DecodeUpdates(updates[..j])
      invariant ChosenPath(updates[..j], prefix) == if encoding == PROTO then prefix else path
    {
      var dataUpdate := updates[j];
      assert updates[..j + 1][..j] == updates[..j];
      if dataUpdate.path.Some? && dataUpdate.val.Some? {
        var val := dataUpdate.val.value;
        if val.JsonIetfVal? {
          encoding := JSON_IETF;
          path := dataUpdate.path.value;
          var ok := GnmiDecodeJsonIetf(val.json, result);
        } else {
          encoding := PROTO;
          GnmiDecodeProto(dataUpdate.path.value, val, result);
        }
      }
      j := j + 1;
    }
    assert updates[..j] == updates;
    printedPath := if encoding == PROTO then prefix else path;
  }

  method ScanPath(printedPath: Path, result: StringMap)
    modifies result
    ensures result.entries == ScanNames(old(result.entries), printedPath.elem)
  {
    var i := 0;
    while i < |printedPath.elem|
      invariant 0 <= i <= |printedPath.elem|
      invariant result.entries == ScanNames(old(result.entries), printedPath.elem[..i])
    {
      var elem := printedPath.elem[i];
      assert printedPath.elem[..i + 1][..i] == printedPath.elem[..i];
      if elem.name == POLICY_MAP {
        var it := FindKey(elem.key, POLICY_KEY);
        if it.Some? {
          result.Put(POLICY, it.value);
        }
      } else if elem.name == RULE_NAME {
        var it := FindKey(elem.key, RULE_NAME);
        if it.Some? {
          result.Put(RULE, it.value);
        }
      }
      i := i + 1;
    }
    assert printedPath.elem[..i] == printedPath.elem;
  }

  method GnmiParseResponse(notification: Notification, pathOrigin: string)
    returns (result: Result<StringMap, InternalErrorCode>)
    ensures result.Failure? <==> ParseResponse(notification, pathOrigin).Failure?
    ensures result.Failure? ==> result.error == ParseResponse(notification, pathOrigin).error
    ensures result.Success? ==> fresh(result.value)
    ensures result.Success? ==> result.value.entries == ParseResponse(notification, pathOrigin).value
  {
    if notification.prefix.None? {
      return Failure(NO_PREFIX_IN_RESPONSE);
    }
    var prefix := notification.prefix.value;
    if !Contains(prefix.origin, pathOrigin) {
      return Failure(UNKNOWN_ERROR);
    }
    if |notification.update| == 0 {
      return Failure(NO_UPDATE_IN_NOTIFICATION);
    }
    var map', printedPath := DecodeAllUpdates(notification.update, prefix);
    ScanPath(printedPath, map');
    var policyName := map'.Index(POLICY);
    if policyName == "" {
      return Failure(NO_POLICY_NAME_IN_RESPONSE);
    }
    var ruleName := map'.Index(RULE);
    if ruleName == "" {
      return Failure(NO_RULE_NAME_IN_RESPONSE);
    }
    return Success(map');
  }
}
