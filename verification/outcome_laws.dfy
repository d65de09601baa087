/** What check_response makes of any response (mgbl_api.cpp:179-212). */
module OutcomeLaws {
  import opened Results
  import opened Text
  import opened GnmiTypes
  import opened Decimal
  import opened Decoder
  import opened DecoderLaws
  import opened Pbr

  // ----- from the decoded map to the record -----

  function CounterField(record: PbrRecord, leaf: Leaf): u64
    requires IsCounter(leaf)
  {
    match leaf
    case ByteCount => record.byteCount
    case PacketCount => record.packetCount
    case Seconds => record.collectionTimestampSeconds
    case Nanoseconds => record.collectionTimestampNanoseconds
  }

  /** The order in which the counters are parsed. */
  function CounterOrder(leaf: Leaf): nat
    requires IsCounter(leaf)
  {
    match leaf
    case ByteCount => 0
    case PacketCount => 1
    case Seconds => 2
    case Nanoseconds => 3
  }

  predicate Parses(m: Strings, leaf: Leaf) {
    LeafKey(leaf) in m ==> Stoull(m[LeafKey(leaf)]).Success?
  }

  /** This counter is the first one that is there and does not parse. */
  ghost predicate FirstBad(m: Strings, leaf: Leaf, error: StoullError) {
    && IsCounter(leaf)
    && LeafKey(leaf) in m && Stoull(m[LeafKey(leaf)]) == Failure(error)
    && forall l :: IsCounter(l) && CounterOrder(l) < CounterOrder(leaf) ==> Parses(m, l)
  }

  ghost predicate AllParse(m: Strings) {
    forall leaf :: IsCounter(leaf) ==> Parses(m, leaf)
  }

  /** The record holds what the map holds, a missing counter being zero and a missing text empty. */
  ghost predicate Holds(record: PbrRecord, m: Strings) {
    && (forall leaf :: IsCounter(leaf) ==>
          if LeafKey(leaf) in m then Stoull(m[LeafKey(leaf)]) == Success(CounterField(record, leaf))
          else CounterField(record, leaf) == 0)
    && record.policyName == (if POLICY in m then m[POLICY] else "")
    && record.ruleName == (if RULE in m then m[RULE] else "")
    && record.pathGrpName == (if PATH_GRP_NAME in m then m[PATH_GRP_NAME] else "")
    && record.policyActionType == (if ACTION_TYPE in m then m[ACTION_TYPE] else "")
  }

  lemma CounterKeys()
    ensures LeafKey(ByteCount) == BYTE_COUNT && LeafKey(PacketCount) == PACKET_COUNT
    ensures LeafKey(Seconds) == SECONDS && LeafKey(Nanoseconds) == NANOSECONDS
  {
  }

  lemma RecordHolds(m: Strings)
    ensures RecordOf(m).Success? <==> AllParse(m)
    ensures RecordOf(m).Success? ==> Holds(RecordOf(m).value, m)
  {
    CounterKeys();
    assert AllParse(m) ==>
        Parses(m, ByteCount) && Parses(m, PacketCount) && Parses(m, Seconds) && Parses(m, Nanoseconds);
  }

  lemma RecordFails(m: Strings)
    requires RecordOf(m).Failure?
    ensures exists leaf :: FirstBad(m, leaf, RecordOf(m).error)
  {
    CounterKeys();
    var bad := if !Parses(m, ByteCount) then ByteCount
               else if !Parses(m, PacketCount) then PacketCount
               else if !Parses(m, Seconds) then Seconds
               else Nanoseconds;
    assert FirstBad(m, bad, RecordOf(m).error);
  }

  lemma FirstBadDecides(m: Strings, leaf: Leaf, error: StoullError)
    requires FirstBad(m, leaf, error)
    ensures RecordOf(m) == Failure(error)
  {
    CounterKeys();
    assert 0 < CounterOrder(leaf) ==> Parses(m, ByteCount);
    assert 1 < CounterOrder(leaf) ==> Parses(m, PacketCount);
    assert 2 < CounterOrder(leaf) ==> Parses(m, Seconds);
  }

  // ----- responses -----

  /** A response without an update, such as the sync response, is the only one without a notification. */
  lemma NoNotification(response: SubscribeResponse)
    ensures ResponseOutcome(response) == Rejected(NO_NOTIFICATION) <==> response.update == None
  {
    if response.update.Some? {
      RejectedUpdate(response.update.value);
    }
  }

  /** An update is rejected exactly when it is not acceptable; the code says what is missing first. */
  lemma RejectedUpdate(n: Notification)
    ensures var outcome := ResponseOutcome(SubscribeResponse(Some(n)));
            && (outcome.Rejected? <==> !Acceptable(n, PATH_ORIGIN))
            && (outcome.Rejected? ==> RefusedWith(n, outcome.code))
  {
    AcceptedNotification(n, PATH_ORIGIN);
    if ParseResponse(n, PATH_ORIGIN).Failure? {
      RefusedNotification(n, PATH_ORIGIN);
    }
  }

  ghost predicate RefusedWith(n: Notification, code: InternalErrorCode) {
    if n.prefix == None then code == NO_PREFIX_IN_RESPONSE
    else if !Contains(n.prefix.value.origin, PATH_ORIGIN) then code == UNKNOWN_ERROR
    else if n.update == [] then code == NO_UPDATE_IN_NOTIFICATION
    else
      var elems := ChosenPath(n.update, n.prefix.value).elem;
      if FoundName(elems, POLICY_MAP, POLICY_KEY) == "" then code == NO_POLICY_NAME_IN_RESPONSE
      else code == NO_RULE_NAME_IN_RESPONSE
  }

  ghost predicate CountersParse(n: Notification) {
    AllParse(DecodeUpdates(n.update))
  }

  lemma SameLeaves(m: Strings, policy: string, rule: string)
    ensures var named := m[POLICY := policy][RULE := rule];
            && (forall leaf :: LeafKey(leaf) in named <==> LeafKey(leaf) in m)
            && (forall leaf :: LeafKey(leaf) in m ==> named[LeafKey(leaf)] == m[LeafKey(leaf)])
  {
    forall leaf: Leaf ensures LeafKey(leaf) != POLICY && LeafKey(leaf) != RULE {
      LeafKeyIsNoName(leaf);
    }
  }

  /**
   * An update is accepted exactly when it is acceptable and its counters parse. The record has the
   * names found on the naming path and, for the rest, what the updates decode to.
   */
  lemma AcceptedUpdate(n: Notification)
    ensures var outcome := ResponseOutcome(SubscribeResponse(Some(n)));
            && (outcome.Accepted? <==> Acceptable(n, PATH_ORIGIN) && CountersParse(n))
            && (outcome.Accepted? ==>
                  && Acceptable(n, PATH_ORIGIN)
                  && var path := ChosenPath(n.update, n.prefix.value);
                     && Holds(outcome.record, Named(DecodeUpdates(n.update), path))
                     && outcome.record.policyName == FoundName(path.elem, POLICY_MAP, POLICY_KEY)
                     && outcome.record.ruleName == FoundName(path.elem, RULE_NAME, RULE_NAME))
  {
    AcceptedNotification(n, PATH_ORIGIN);
    if Acceptable(n, PATH_ORIGIN) {
      var elems, data := ChosenPath(n.update, n.prefix.value).elem, DecodeUpdates(n.update);
      var m := ParseResponse(n, PATH_ORIGIN).value;
      NamesDiffer();
      SameLeaves(data, FoundName(elems, POLICY_MAP, POLICY_KEY), FoundName(elems, RULE_NAME, RULE_NAME));
      assert AllParse(m) <==> AllParse(data) by {
        assert forall leaf :: Parses(m, leaf) <==> Parses(data, leaf);
      }
      RecordHolds(m);
    }
  }

  /** Otherwise parsing throws, and the exception is that of the first counter that does not parse. */
  lemma ThrowingUpdate(n: Notification, error: StoullError)
    ensures ResponseOutcome(SubscribeResponse(Some(n))) == Threw(error)
       <==> Acceptable(n, PATH_ORIGIN) && exists leaf :: FirstBad(DecodeUpdates(n.update), leaf, error)
  {
    AcceptedNotification(n, PATH_ORIGIN);
    if Acceptable(n, PATH_ORIGIN) {
      var elems, data := ChosenPath(n.update, n.prefix.value).elem, DecodeUpdates(n.update);
      var m := ParseResponse(n, PATH_ORIGIN).value;
      SameLeaves(data, FoundName(elems, POLICY_MAP, POLICY_KEY), FoundName(elems, RULE_NAME, RULE_NAME));
      SameFirstBad(m, data);
      if leaf :| FirstBad(data, leaf, error) {
        assert FirstBad(m, leaf, error);
        FirstBadDecides(m, leaf, error);
      }
      if RecordOf(m).Failure? {
        RecordFails(m);
      }
    }
  }

  lemma SameFirstBad(m: Strings, data: Strings)
    requires forall leaf :: LeafKey(leaf) in m <==> LeafKey(leaf) in data
    requires forall leaf :: LeafKey(leaf) in data ==> m[LeafKey(leaf)] == data[LeafKey(leaf)]
    ensures forall leaf, e :: FirstBad(m, leaf, e) <==> FirstBad(data, leaf, e)
  {
    assert forall leaf :: Parses(m, leaf) <==> Parses(data, leaf);
  }
}
