/** The PROTO and the JSON_IETF encoding of the same leaves give the same record. */
module EncodingLaws {
  import opened Results
  import opened Text
  import opened GnmiTypes
  import opened Decimal
  import opened JsonFlatten
  import opened PointerRewrite
  import opened Decoder
  import opened Pbr
  import PathCodec
  import DecoderLaws

  // ----- the leaves of a rule's statistics -----

  /** A server may leave out any of the leaves. */
  datatype RuleLeaves = RuleLeaves(
    byteCount: Option<u64>,
    packetCount: Option<u64>,
    seconds: Option<u64>,
    nanoseconds: Option<u64>,
    pathGrpName: Option<string>,
    actionType: Option<string>)
  {
    function Counter(leaf: Leaf): Option<u64> {
      match leaf
      case ByteCount => byteCount
      case PacketCount => packetCount
      case Seconds => seconds
      case Nanoseconds => nanoseconds
      case _ => None
    }

    function Text(leaf: Leaf): Option<string> {
      match leaf
      case PathGrpName => pathGrpName
      case ActionType => actionType
      case _ => None
    }

    predicate Present(leaf: Leaf) {
      Counter(leaf).Some? || Text(leaf).Some?
    }

    /** The text under which the leaf is stored after decoding. */
    function Stored(leaf: Leaf): string
      requires Present(leaf)
    {
      if Counter(leaf).Some? then NatText(Counter(leaf).value) else Text(leaf).value
    }
  }

  /** The names on the way to a leaf. */
  function LeafNames(leaf: Leaf): seq<string> {
    match leaf
    case ByteCount => ["fib-stats", "byte-count"]
    case PacketCount => ["fib-stats", "packet-count"]
    case Seconds => ["fib-stats", "collection-timestamp", "seconds"]
    case Nanoseconds => ["fib-stats", "collection-timestamp", "nano-seconds"]
    case PathGrpName => ["paction", "policy-rule-action", "act-un", "path-grp-name"]
    case ActionType => ["paction", "policy-rule-action", "act-un", "type"]
  }

  /** The same way through a JSON document, where policy-rule-action is a list with one element. */
  function LeafTokens(leaf: Leaf): seq<string> {
    match leaf
    case PathGrpName => ["paction", "policy-rule-action", "0", "act-un", "path-grp-name"]
    case ActionType => ["paction", "policy-rule-action", "0", "act-un", "type"]
    case _ => LeafNames(leaf)
  }

  lemma FibKeys()
    ensures BYTE_COUNT == Slashed(LeafNames(ByteCount)) && PACKET_COUNT == Slashed(LeafNames(PacketCount))
  {
    SlashedTwo("fib-stats", "byte-count");
    SlashedTwo("fib-stats", "packet-count");
  }

  lemma TimestampKeys()
    ensures SECONDS == Slashed(LeafNames(Seconds)) && NANOSECONDS == Slashed(LeafNames(Nanoseconds))
  {
    SlashedThree("fib-stats", "collection-timestamp", "seconds");
    SlashedThree("fib-stats", "collection-timestamp", "nano-seconds");
    assert "/" + "fib-stats" + "/" + "collection-timestamp" + "/" == "/fib-stats/collection-timestamp/";
  }

  lemma ActionPrefix()
    ensures "/" + "paction" + "/" + "policy-rule-action" + "/" + "act-un" + "/" == "/paction/policy-rule-action/act-un/"
  {
  }

  lemma ActionKeys()
    ensures PATH_GRP_NAME == Slashed(LeafNames(PathGrpName)) && ACTION_TYPE == Slashed(LeafNames(ActionType))
  {
    SlashedFour("paction", "policy-rule-action", "act-un", "path-grp-name");
    SlashedFour("paction", "policy-rule-action", "act-un", "type");
    ActionPrefix();
  }

  lemma LeafKeyIsPath(leaf: Leaf)
    ensures LeafKey(leaf) == Slashed(LeafNames(leaf))
  {
    FibKeys();
    TimestampKeys();
    ActionKeys();
  }

  lemma LeafKeysDiffer(a: Leaf, b: Leaf)
    ensures LeafKey(a) == LeafKey(b) <==> a == b
  {
    assert |LeafKey(ByteCount)| == 21 && |LeafKey(PacketCount)| == 23 && |LeafKey(Nanoseconds)| == 44;
    assert |LeafKey(PathGrpName)| == 48 && |LeafKey(Seconds)| == 39 && |LeafKey(ActionType)| == 39;
    assert LeafKey(Seconds)[38] == 's' && LeafKey(ActionType)[38] == 'e';
  }

  // ----- the rewritten pointers -----

  function LeafPointer(leaf: Leaf): string {
    Slashed(LeafTokens(leaf))
  }

  lemma RewriteLeaf(leaf: Leaf)
    ensures ReplaceAll(LeafPointer(leaf)) == LeafKey(leaf)
  {
    LeafKeyIsPath(leaf);
    LeafTokensSlashFree(leaf);
    ReplaceDropsEveryOther(LeafTokens(leaf));
    DropInLeaf(leaf);
  }

  lemma LeafTokensSlashFree(leaf: Leaf)
    ensures SlashFree(LeafTokens(leaf))
  {
  }

  lemma DropInLeaf(leaf: Leaf)
    ensures DropEveryOther(LeafTokens(leaf)) == LeafNames(leaf)
  {
    match leaf
    case ByteCount => DropTwo("fib-stats", "byte-count");
    case PacketCount => DropTwo("fib-stats", "packet-count");
    case Seconds => DropThree("fib-stats", "collection-timestamp", "seconds");
    case Nanoseconds => DropThree("fib-stats", "collection-timestamp", "nano-seconds");
    case PathGrpName => DropIndex("paction", "policy-rule-action", "act-un", "path-grp-name");
    case ActionType => DropIndex("paction", "policy-rule-action", "act-un", "type");
  }

  lemma DropTwo(a: string, b: string)
    requires a != "0"
    ensures DropEveryOther([a, b]) == [a, b]
  {
    assert [a, b][1..] == [b];
  }

  lemma DropThree(a: string, b: string, c: string)
    requires a != "0" && b != "0"
    ensures DropEveryOther([a, b, c]) == [a, b, c]
  {
    assert [a, b, c][1..] == [b, c];
    DropTwo(b, c);
  }

  lemma DropIndex(a: string, b: string, c: string, d: string)
    requires a != "0" && b != "0"
    ensures DropEveryOther([a, b, "0", c, d]) == [a, b, c, d]
  {
    assert ["0", c, d][2..] == [d];
    assert DropEveryOther(["0", c, d]) == [c] + DropEveryOther([d]) == [c, d];
    assert [b, "0", c, d][1..] == ["0", c, d];
    assert DropEveryOther([b, "0", c, d]) == [b] + [c, d];
    assert [a, b, "0", c, d][1..] == [b, "0", c, d];
  }

  // ----- one PROTO update for each leaf -----

  ghost predicate Injective(keyOf: Leaf -> string) {
    forall a, b :: keyOf(a) == keyOf(b) ==> a == b
  }

  function LeafValue(leaves: RuleLeaves, leaf: Leaf): TypedValue
    requires leaves.Present(leaf)
  {
    if leaves.Counter(leaf).Some? then UintVal(leaves.Counter(leaf).value) else StringVal(leaves.Text(leaf).value)
  }

  /** The update carries the value of the leaf, and its path prints as `key`. */
  predicate SendsLeaf(u: Update, leaves: RuleLeaves, leaf: Leaf, key: string) {
    && leaves.Present(leaf)
    && u.path.Some? && PathCodec.PathText(u.path.value) == key
    && u.val == Some(LeafValue(leaves, leaf))
  }

  ghost predicate SendsSomeLeaf(u: Update, leaves: RuleLeaves, keyOf: Leaf -> string) {
    exists leaf :: SendsLeaf(u, leaves, leaf, keyOf(leaf))
  }

  /** Each update sends a leaf, and every present leaf is sent; the order is free. */
  ghost predicate SentAsProto(updates: seq<Update>, leaves: RuleLeaves, keyOf: Leaf -> string) {
    && (forall i :: 0 <= i < |updates| ==> SendsSomeLeaf(updates[i], leaves, keyOf))
    && (forall leaf :: leaves.Present(leaf) ==>
                         exists i :: 0 <= i < |updates| && SendsLeaf(updates[i], leaves, leaf, keyOf(leaf)))
  }

  lemma {:induction false} SomeLastProto(updates: seq<Update>, key: string, i: int) returns (last: int)
    requires 0 <= i < |updates| && DecoderLaws.ProtoWrites(updates[i], key)
    ensures DecoderLaws.LastProto(updates, key, last)
    decreases |updates| - i
  {
    if j :| i < j < |updates| && DecoderLaws.ProtoWrites(updates[j], key) {
      last := SomeLastProto(updates, key, j);
    } else {
      last := i;
    }
  }

  lemma SentLeafWrites(u: Update, leaves: RuleLeaves, leaf: Leaf, key: Leaf, keyOf: Leaf -> string)
    requires Injective(keyOf) && SendsLeaf(u, leaves, leaf, keyOf(leaf))
    ensures DecoderLaws.ProtoWrites(u, keyOf(key)) <==> leaf == key
    ensures ValueText(u.val.value) == leaves.Stored(leaf)
    ensures !DecoderLaws.JsonHas(u, keyOf(key))
  {
  }

  lemma ProtoLeaf(updates: seq<Update>, leaves: RuleLeaves, leaf: Leaf, keyOf: Leaf -> string)
    requires Injective(keyOf) && SentAsProto(updates, leaves, keyOf)
    ensures StoresLeaf(DecodeUpdates(updates), leaves, leaf, keyOf(leaf))
  {
    var key := keyOf(leaf);
    if leaves.Present(leaf) {
      var i :| 0 <= i < |updates| && SendsLeaf(updates[i], leaves, leaf, keyOf(leaf));
      SentLeafWrites(updates[i], leaves, leaf, leaf, keyOf);
      var last := SomeLastProto(updates, key, i);
      assert SendsSomeLeaf(updates[last], leaves, keyOf);
      var sent :| SendsLeaf(updates[last], leaves, sent, keyOf(sent));
      SentLeafWrites(updates[last], leaves, sent, leaf, keyOf);
      DecoderLaws.DecodedByProto(updates, key, last);
    } else {
      forall i | 0 <= i < |updates|
        ensures !DecoderLaws.ProtoWrites(updates[i], key) && !DecoderLaws.JsonHas(updates[i], key)
      {
        assert SendsSomeLeaf(updates[i], leaves, keyOf);
        var sent :| SendsLeaf(updates[i], leaves, sent, keyOf(sent));
        SentLeafWrites(updates[i], leaves, sent, leaf, keyOf);
      }
      DecoderLaws.DecodedByNobody(updates, key);
    }
  }

  // ----- one JSON document for all leaves -----

  /** Counters are numbers or, as RFC 7951 (section 6.1) asks for 64-bit ones, strings. */
  predicate LeafJson(value: Json, leaves: RuleLeaves, leaf: Leaf) {
    && leaves.Present(leaf)
    && if leaves.Counter(leaf).Some?
       then value == JUint(leaves.Counter(leaf).value) || value == JString(NatText(leaves.Counter(leaf).value))
       else value == JString(leaves.Text(leaf).value)
  }

  predicate HoldsLeaf(e: Entry, leaves: RuleLeaves, leaf: Leaf, pointer: string) {
    e.pointer == pointer && LeafJson(e.value, leaves, leaf)
  }

  /** There is an entry for each present leaf, and there are no other entries. */
  ghost predicate HoldLeaves(entries: seq<Entry>, leaves: RuleLeaves, pointerOf: Leaf -> string) {
    && (forall i :: 0 <= i < |entries| ==> exists leaf :: HoldsLeaf(entries[i], leaves, leaf, pointerOf(leaf)))
    && (forall leaf :: leaves.Present(leaf) ==>
                         exists i :: 0 <= i < |entries| && HoldsLeaf(entries[i], leaves, leaf, pointerOf(leaf)))
  }

  /** The rewrite turns the pointers into the keys. */
  ghost predicate RewritesTo(pointerOf: Leaf -> string, keyOf: Leaf -> string) {
    forall leaf :: ReplaceAll(pointerOf(leaf)) == keyOf(leaf)
  }

  lemma {:induction false} SomeLastEntry(entries: seq<Entry>, key: string, i: int) returns (last: int)
    requires 0 <= i < |entries| && ReplaceAll(entries[i].pointer) == key
    ensures DecoderLaws.LastEntryFor(entries, key, last)
    decreases |entries| - i
  {
    if j :| i < j < |entries| && ReplaceAll(entries[j].pointer) == key {
      last := SomeLastEntry(entries, key, j);
    } else {
      last := i;
    }
  }

  lemma HeldLeafWrites(e: Entry, leaves: RuleLeaves, leaf: Leaf, key: Leaf, pointerOf: Leaf -> string,
                       keyOf: Leaf -> string)
    requires Injective(keyOf) && RewritesTo(pointerOf, keyOf) && HoldsLeaf(e, leaves, leaf, pointerOf(leaf))
    ensures ReplaceAll(e.pointer) == keyOf(key) <==> leaf == key
    ensures PrimitiveText(e.value) == leaves.Stored(leaf)
  {
  }

  lemma JsonLeaf(entries: seq<Entry>, leaves: RuleLeaves, leaf: Leaf, pointerOf: Leaf -> string, keyOf: Leaf -> string)
    requires Injective(keyOf) && RewritesTo(pointerOf, keyOf) && HoldLeaves(entries, leaves, pointerOf)
    ensures StoresLeaf(DecodeEntries(entries), leaves, leaf, keyOf(leaf))
  {
    var key := keyOf(leaf);
    DecoderLaws.DecodedEntry(entries, key);
    forall i | 0 <= i < |entries| && ReplaceAll(entries[i].pointer) == key
      ensures leaves.Present(leaf) && PrimitiveText(entries[i].value) == leaves.Stored(leaf)
    {
      var held :| HoldsLeaf(entries[i], leaves, held, pointerOf(held));
      HeldLeafWrites(entries[i], leaves, held, leaf, pointerOf, keyOf);
    }
    if leaves.Present(leaf) {
      var i :| 0 <= i < |entries| && HoldsLeaf(entries[i], leaves, leaf, pointerOf(leaf));
      HeldLeafWrites(entries[i], leaves, leaf, leaf, pointerOf, keyOf);
      var last := SomeLastEntry(entries, key, i);
    }
  }

  // ----- the record -----

  function OrZero(n: Option<u64>): u64 {
    if n.Some? then n.value else 0
  }

  function OrEmpty(s: Option<string>): string {
    if s.Some? then s.value else ""
  }

  function LeavesRecord(policy: string, rule: string, leaves: RuleLeaves): PbrRecord {
    PbrRecord(policy, rule, OrZero(leaves.byteCount), OrZero(leaves.packetCount), OrZero(leaves.seconds),
              OrZero(leaves.nanoseconds), OrEmpty(leaves.pathGrpName), OrEmpty(leaves.actionType))
  }

  predicate StoresLeaf(m: Strings, leaves: RuleLeaves, leaf: Leaf, key: string) {
    && (key in m <==> leaves.Present(leaf))
    && (leaves.Present(leaf) ==> m[key] == leaves.Stored(leaf))
  }

  lemma CounterOfLeaf(m: Strings, leaves: RuleLeaves, leaf: Leaf, key: string)
    requires StoresLeaf(m, leaves, leaf, key) && IsCounter(leaf)
    ensures CounterAt(m, key) == Success(OrZero(leaves.Counter(leaf)))
  {
    if leaves.Counter(leaf).Some? {
      UnsignedRoundTrip(leaves.Counter(leaf).value);
    }
  }

  ghost predicate StoresLeaves(m: Strings, leaves: RuleLeaves) {
    && StoresLeaf(m, leaves, ByteCount, BYTE_COUNT) && StoresLeaf(m, leaves, PacketCount, PACKET_COUNT)
    && StoresLeaf(m, leaves, Seconds, SECONDS) && StoresLeaf(m, leaves, Nanoseconds, NANOSECONDS)
    && StoresLeaf(m, leaves, PathGrpName, PATH_GRP_NAME) && StoresLeaf(m, leaves, ActionType, ACTION_TYPE)
  }

  lemma RecordOfLeaves(m: Strings, leaves: RuleLeaves)
    requires StoresLeaves(m, leaves)
    ensures RecordOf(m) == Success(LeavesRecord(Lookup(m, POLICY), Lookup(m, RULE), leaves))
  {
    CounterOfLeaf(m, leaves, ByteCount, BYTE_COUNT);
    CounterOfLeaf(m, leaves, PacketCount, PACKET_COUNT);
    CounterOfLeaf(m, leaves, Seconds, SECONDS);
    CounterOfLeaf(m, leaves, Nanoseconds, NANOSECONDS);
  }

  lemma StoresLeavesBesideNames(m: Strings, leaves: RuleLeaves, policy: string, rule: string)
    requires StoresLeaves(m, leaves)
    ensures StoresLeaves(m[POLICY := policy][RULE := rule], leaves)
  {
    forall leaf: Leaf ensures LeafKey(leaf) != POLICY && LeafKey(leaf) != RULE {
      LeafKeyIsNoName(leaf);
    }
    assert LeafKey(ByteCount) == BYTE_COUNT && LeafKey(PacketCount) == PACKET_COUNT;
    assert LeafKey(Seconds) == SECONDS && LeafKey(Nanoseconds) == NANOSECONDS;
    assert LeafKey(PathGrpName) == PATH_GRP_NAME && LeafKey(ActionType) == ACTION_TYPE;
  }

  /** The elements name exactly this policy and this rule, and neither is empty. */
  predicate Names(elems: seq<PathElem>, policy: string, rule: string) {
    && policy != "" && DecoderLaws.FoundName(elems, POLICY_MAP, POLICY_KEY) == policy
    && rule != "" && DecoderLaws.FoundName(elems, RULE_NAME, RULE_NAME) == rule
  }

  /** A notification that stores the leaves and names policy and rule yields their record. */
  lemma OutcomeOfLeaves(n: Notification, policy: string, rule: string, leaves: RuleLeaves)
    requires n.prefix.Some? && Contains(n.prefix.value.origin, PATH_ORIGIN) && n.update != []
    requires Names(ChosenPath(n.update, n.prefix.value).elem, policy, rule)
    requires StoresLeaves(DecodeUpdates(n.update), leaves)
    ensures ResponseOutcome(SubscribeResponse(Some(n))) == Accepted(LeavesRecord(policy, rule, leaves))
  {
    DecoderLaws.AcceptedNotification(n, PATH_ORIGIN);
    StoresLeavesBesideNames(DecodeUpdates(n.update), leaves, policy, rule);
    RecordOfLeaves(ParseResponse(n, PATH_ORIGIN).value, leaves);
    DecoderLaws.NamesDiffer();
  }

  predicate NotJson(u: Update) {
    Valued(u) ==> !u.val.value.JsonIetfVal?
  }

  lemma {:induction false} NoJsonChoosesPrefix(updates: seq<Update>, prefix: Path)
    requires forall i :: 0 <= i < |updates| ==> NotJson(updates[i])
    ensures ChosenPath(updates, prefix) == prefix
  {
    if updates != [] {
      assert NotJson(updates[|updates| - 1]);
      NoJsonChoosesPrefix(updates[..|updates| - 1], prefix);
    }
  }

  lemma SentUpdatesAreProto(updates: seq<Update>, leaves: RuleLeaves, keyOf: Leaf -> string)
    requires forall i :: 0 <= i < |updates| ==> SendsSomeLeaf(updates[i], leaves, keyOf)
    ensures forall i :: 0 <= i < |updates| ==> NotJson(updates[i])
  {
    forall i | 0 <= i < |updates| ensures NotJson(updates[i]) {
      SentUpdateIsProto(updates[i], leaves, keyOf);
    }
  }

  lemma SentUpdateIsProto(u: Update, leaves: RuleLeaves, keyOf: Leaf -> string)
    requires SendsSomeLeaf(u, leaves, keyOf)
    ensures NotJson(u)
  {
    var leaf :| SendsLeaf(u, leaves, leaf, keyOf(leaf));
    assert u.val.value == LeafValue(leaves, leaf);
  }

  lemma LeafKeyInjective()
    ensures Injective(LeafKey)
  {
    forall a, b ensures LeafKey(a) == LeafKey(b) ==> a == b {
      LeafKeysDiffer(a, b);
    }
  }

  lemma LeafPointersRewrite()
    ensures RewritesTo(LeafPointer, LeafKey)
  {
    forall leaf ensures ReplaceAll(LeafPointer(leaf)) == LeafKey(leaf) {
      RewriteLeaf(leaf);
    }
  }

  lemma ProtoStoresLeaves(updates: seq<Update>, leaves: RuleLeaves)
    requires SentAsProto(updates, leaves, LeafKey)
    ensures StoresLeaves(DecodeUpdates(updates), leaves)
  {
    LeafKeyInjective();
    ProtoLeaf(updates, leaves, ByteCount, LeafKey);
    ProtoLeaf(updates, leaves, PacketCount, LeafKey);
    ProtoLeaf(updates, leaves, Seconds, LeafKey);
    ProtoLeaf(updates, leaves, Nanoseconds, LeafKey);
    ProtoLeaf(updates, leaves, PathGrpName, LeafKey);
    ProtoLeaf(updates, leaves, ActionType, LeafKey);
  }

  lemma JsonStoresLeaves(entries: seq<Entry>, leaves: RuleLeaves)
    requires HoldLeaves(entries, leaves, LeafPointer)
    ensures StoresLeaves(DecodeEntries(entries), leaves)
  {
    LeafKeyInjective();
    LeafPointersRewrite();
    JsonLeaf(entries, leaves, ByteCount, LeafPointer, LeafKey);
    JsonLeaf(entries, leaves, PacketCount, LeafPointer, LeafKey);
    JsonLeaf(entries, leaves, Seconds, LeafPointer, LeafKey);
    JsonLeaf(entries, leaves, Nanoseconds, LeafPointer, LeafKey);
    JsonLeaf(entries, leaves, PathGrpName, LeafPointer, LeafKey);
    JsonLeaf(entries, leaves, ActionType, LeafPointer, LeafKey);
  }

  lemma ProtoOutcome(proto: Notification, policy: string, rule: string, leaves: RuleLeaves)
    requires proto.prefix.Some? && Contains(proto.prefix.value.origin, PATH_ORIGIN)
    requires Names(proto.prefix.value.elem, policy, rule)
    requires proto.update != [] && SentAsProto(proto.update, leaves, LeafKey)
    ensures ResponseOutcome(SubscribeResponse(Some(proto))) == Accepted(LeavesRecord(policy, rule, leaves))
  {
    SentUpdatesAreProto(proto.update, leaves, LeafKey);
    NoJsonChoosesPrefix(proto.update, proto.prefix.value);
    ProtoStoresLeaves(proto.update, leaves);
    OutcomeOfLeaves(proto, policy, rule, leaves);
  }

  function JsonNotification(prefix: Path, path: Path, document: Json): Notification {
    Notification(Some(prefix), [Update(Some(path), Some(JsonIetfVal(Document(document))))])
  }

  lemma OneJsonUpdate(prefix: Path, path: Path, document: Json)
    ensures var n := JsonNotification(prefix, path, document);
            DecodeUpdates(n.update) == DecodeDocument(document) && ChosenPath(n.update, prefix) == path
  {
    var updates := JsonNotification(prefix, path, document).update;
    assert updates[..0] == [];
    assert DecodeUpdates(updates) == DecodeDocument(document) + map[];
  }

  lemma JsonOutcome(prefix: Path, path: Path, document: Json, policy: string, rule: string, leaves: RuleLeaves)
    requires Contains(prefix.origin, PATH_ORIGIN) && Names(path.elem, policy, rule)
    requires HoldLeaves(Flatten(document), leaves, LeafPointer)
    ensures ResponseOutcome(SubscribeResponse(Some(JsonNotification(prefix, path, document))))
         == Accepted(LeavesRecord(policy, rule, leaves))
  {
    OneJsonUpdate(prefix, path, document);
    JsonStoresLeaves(Flatten(document), leaves);
    OutcomeOfLeaves(JsonNotification(prefix, path, document), policy, rule, leaves);
  }

  /**
   * The encodings agree: the same leaves sent as PROTO updates under a prefix that names
   * policy and rule, or as one JSON document whose update path names them, are accepted
   * with the same record.
   */
  lemma EncodingsAgree(proto: Notification, prefix: Path, path: Path, document: Json,
                       policy: string, rule: string, leaves: RuleLeaves)
    requires proto.prefix.Some? && Contains(proto.prefix.value.origin, PATH_ORIGIN)
    requires Names(proto.prefix.value.elem, policy, rule)
    requires proto.update != [] && SentAsProto(proto.update, leaves, LeafKey)
    requires Contains(prefix.origin, PATH_ORIGIN) && Names(path.elem, policy, rule)
    requires HoldLeaves(Flatten(document), leaves, LeafPointer)
    ensures ResponseOutcome(SubscribeResponse(Some(proto)))
         == ResponseOutcome(SubscribeResponse(Some(JsonNotification(prefix, path, document))))
    ensures ResponseOutcome(SubscribeResponse(Some(proto))) == Accepted(LeavesRecord(policy, rule, leaves))
  {
    ProtoOutcome(proto, policy, rule, leaves);
    JsonOutcome(prefix, path, document, policy, rule, leaves);
  }

  // ----- the paths and the document a server sends -----

  function PlainElems(names: seq<string>): (elems: seq<PathElem>)
    ensures |elems| == |names|
  {
    if names == [] then [] else [PathElem(names[0], [])] + PlainElems(names[1..])
  }

  lemma {:induction false} PlainElemTexts(names: seq<string>)
    ensures PathCodec.ElemTexts(PlainElems(names)) == names
  {
    if names != [] {
      PlainElemTexts(names[1..]);
      var elems := PlainElems(names);
      assert elems[1..] == PlainElems(names[1..]);
      assert PathCodec.ElemText(elems[0]) == names[0];
    }
  }

  /** The plain path of a leaf prints as the key under which the leaf is looked up. */
  lemma LeafPathText(origin: string, leaf: Leaf)
    ensures PathCodec.PathText(Path(origin, PlainElems(LeafNames(leaf)))) == LeafKey(leaf)
  {
    PlainElemTexts(LeafNames(leaf));
    LeafKeyIsPath(leaf);
  }
}
