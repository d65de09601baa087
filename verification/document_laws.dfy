/** The JSON document a server sends flattens to exactly the leaves of its statistics. */
module DocumentLaws {
  import opened Results
  import opened Text
  import opened GnmiTypes
  import opened Decimal
  import opened JsonFlatten
  import opened Pbr
  import opened EncodingLaws

  // ----- a document with the present leaves and nothing else -----

  function LeafMember(name: string, leaf: Leaf, value: Leaf -> Json, leaves: RuleLeaves): seq<Member> {
    if leaves.Present(leaf) then [Member(name, value(leaf))] else []
  }

  /** An object is only sent when it has members. */
  function ObjectMember(name: string, members: seq<Member>): seq<Member> {
    if members == [] then [] else [Member(name, JObject(members))]
  }

  function ListMember(name: string, members: seq<Member>): seq<Member> {
    if members == [] then [] else [Member(name, JArray([JObject(members)]))]
  }

  function FibStats(value: Leaf -> Json, leaves: RuleLeaves): seq<Member> {
    LeafMember("byte-count", ByteCount, value, leaves)
    + LeafMember("packet-count", PacketCount, value, leaves)
    + ObjectMember("collection-timestamp",
                   LeafMember("seconds", Seconds, value, leaves)
                   + LeafMember("nano-seconds", Nanoseconds, value, leaves))
  }

  function Paction(value: Leaf -> Json, leaves: RuleLeaves): seq<Member> {
    ListMember("policy-rule-action",
               ObjectMember("act-un",
                            LeafMember("path-grp-name", PathGrpName, value, leaves)
                            + LeafMember("type", ActionType, value, leaves)))
  }

  function PbrDocument(value: Leaf -> Json, leaves: RuleLeaves): Json {
    JObject(ObjectMember("fib-stats", FibStats(value, leaves)) + ObjectMember("paction", Paction(value, leaves)))
  }

  // ----- flattening it -----

  function Child(pointer: string, name: string): string {
    pointer + "/" + name
  }

  /** A member name that needs no escaping. */
  predicate Plain(name: string) {
    '~' !in name && '/' !in name
  }

  /** The entry of a leaf, if it is present. */
  function LeafEntry(pointer: string, leaf: Leaf, value: Leaf -> Json, leaves: RuleLeaves): seq<Entry> {
    if leaves.Present(leaf) then [Entry(pointer, value(leaf))] else []
  }

  lemma OneMember(pointer: string, member: Member)
    requires Plain(member.name)
    ensures MemberLeaves(pointer, [member]) == Leaves(Child(pointer, member.name), member.value)
  {
    PlainEscape(member.name);
    assert MemberLeaves(pointer, [member]) == Leaves(Child(pointer, member.name), member.value) + [];
  }

  lemma LeafMemberLeaves(pointer: string, name: string, leaf: Leaf, value: Leaf -> Json, leaves: RuleLeaves)
    requires Plain(name) && LeavesFit(value, leaves)
    ensures MemberLeaves(pointer, LeafMember(name, leaf, value, leaves))
         == LeafEntry(Child(pointer, name), leaf, value, leaves)
  {
    if leaves.Present(leaf) {
      OneMember(pointer, Member(name, value(leaf)));
      assert LeafJson(value(leaf), leaves, leaf);
    }
  }

  lemma ObjectMemberLeaves(pointer: string, name: string, members: seq<Member>)
    requires Plain(name)
    ensures MemberLeaves(pointer, ObjectMember(name, members)) == MemberLeaves(Child(pointer, name), members)
  {
    if members != [] {
      OneMember(pointer, Member(name, JObject(members)));
    }
  }

  lemma ListMemberLeaves(pointer: string, name: string, members: seq<Member>)
    requires Plain(name)
    ensures MemberLeaves(pointer, ListMember(name, members)) == MemberLeaves(Child(Child(pointer, name), "0"), members)
  {
    if members != [] {
      var list, item := Child(pointer, name), JObject(members);
      OneMember(pointer, Member(name, JArray([item])));
      assert NatText(0) == "0";
      assert ItemLeaves(list, [item], 0) == Leaves(Child(list, "0"), item) + [];
    }
  }

  lemma PlainFibNames()
    ensures Plain("byte-count") && Plain("packet-count") && Plain("collection-timestamp")
    ensures Plain("seconds") && Plain("nano-seconds")
  {
  }

  lemma PlainActionNames()
    ensures Plain("policy-rule-action") && Plain("act-un") && Plain("path-grp-name") && Plain("type")
  {
  }

  /** Every present leaf has a value that fits it. */
  ghost predicate LeavesFit(value: Leaf -> Json, leaves: RuleLeaves) {
    forall leaf :: leaves.Present(leaf) ==> LeafJson(value(leaf), leaves, leaf)
  }

  lemma TimestampLeaves(pointer: string, value: Leaf -> Json, leaves: RuleLeaves)
    requires LeavesFit(value, leaves)
    ensures MemberLeaves(pointer, ObjectMember("collection-timestamp",
                LeafMember("seconds", Seconds, value, leaves) + LeafMember("nano-seconds", Nanoseconds, value, leaves)))
         == LeafEntry(Child(Child(pointer, "collection-timestamp"), "seconds"), Seconds, value, leaves)
          + LeafEntry(Child(Child(pointer, "collection-timestamp"), "nano-seconds"), Nanoseconds, value, leaves)
  {
    PlainFibNames();
    var at := Child(pointer, "collection-timestamp");
    var seconds := LeafMember("seconds", Seconds, value, leaves);
    var nanos := LeafMember("nano-seconds", Nanoseconds, value, leaves);
    ObjectMemberLeaves(pointer, "collection-timestamp", seconds + nanos);
    MemberLeavesAppend(at, seconds, nanos);
    LeafMemberLeaves(at, "seconds", Seconds, value, leaves);
    LeafMemberLeaves(at, "nano-seconds", Nanoseconds, value, leaves);
  }

  lemma FibLeaves(pointer: string, value: Leaf -> Json, leaves: RuleLeaves)
    requires LeavesFit(value, leaves)
    ensures MemberLeaves(pointer, FibStats(value, leaves))
         == LeafEntry(Child(pointer, "byte-count"), ByteCount, value, leaves)
          + LeafEntry(Child(pointer, "packet-count"), PacketCount, value, leaves)
          + (LeafEntry(Child(Child(pointer, "collection-timestamp"), "seconds"), Seconds, value, leaves)
             + LeafEntry(Child(Child(pointer, "collection-timestamp"), "nano-seconds"), Nanoseconds, value, leaves))
  {
    PlainFibNames();
    var bytes := LeafMember("byte-count", ByteCount, value, leaves);
    var packets := LeafMember("packet-count", PacketCount, value, leaves);
    var stamp := ObjectMember("collection-timestamp",
                              LeafMember("seconds", Seconds, value, leaves)
                              + LeafMember("nano-seconds", Nanoseconds, value, leaves));
    MemberLeavesAppend(pointer, bytes + packets, stamp);
    MemberLeavesAppend(pointer, bytes, packets);
    LeafMemberLeaves(pointer, "byte-count", ByteCount, value, leaves);
    LeafMemberLeaves(pointer, "packet-count", PacketCount, value, leaves);
    TimestampLeaves(pointer, value, leaves);
  }

  lemma ActionLeaves(pointer: string, value: Leaf -> Json, leaves: RuleLeaves)
    requires LeavesFit(value, leaves)
    ensures var un := Child(Child(Child(pointer, "policy-rule-action"), "0"), "act-un");
            MemberLeaves(pointer, Paction(value, leaves))
            == LeafEntry(Child(un, "path-grp-name"), PathGrpName, value, leaves)
             + LeafEntry(Child(un, "type"), ActionType, value, leaves)
  {
    PlainActionNames();
    var item := Child(Child(pointer, "policy-rule-action"), "0");
    var group := LeafMember("path-grp-name", PathGrpName, value, leaves);
    var action := LeafMember("type", ActionType, value, leaves);
    ListMemberLeaves(pointer, "policy-rule-action", ObjectMember("act-un", group + action));
    ObjectMemberLeaves(item, "act-un", group + action);
    MemberLeavesAppend(Child(item, "act-un"), group, action);
    LeafMemberLeaves(Child(item, "act-un"), "path-grp-name", PathGrpName, value, leaves);
    LeafMemberLeaves(Child(item, "act-un"), "type", ActionType, value, leaves);
  }

  lemma RootChild(name: string)
    ensures Child("", name) == "/" + name
  {
  }

  lemma FibPointers()
    ensures var fib := Child("", "fib-stats");
            && Child(fib, "byte-count") == LeafPointer(ByteCount)
            && Child(fib, "packet-count") == LeafPointer(PacketCount)
            && Child(Child(fib, "collection-timestamp"), "seconds") == LeafPointer(Seconds)
            && Child(Child(fib, "collection-timestamp"), "nano-seconds") == LeafPointer(Nanoseconds)
  {
    RootChild("fib-stats");
    SlashedTwo("fib-stats", "byte-count");
    SlashedTwo("fib-stats", "packet-count");
    SlashedThree("fib-stats", "collection-timestamp", "seconds");
    SlashedThree("fib-stats", "collection-timestamp", "nano-seconds");
  }

  lemma ActionPointers()
    ensures var un := Child(Child(Child(Child("", "paction"), "policy-rule-action"), "0"), "act-un");
            && Child(un, "path-grp-name") == LeafPointer(PathGrpName)
            && Child(un, "type") == LeafPointer(ActionType)
  {
    RootChild("paction");
    SlashedFive("paction", "policy-rule-action", "0", "act-un", "path-grp-name");
    SlashedFive("paction", "policy-rule-action", "0", "act-un", "type");
  }

  const ALL_LEAVES := [ByteCount, PacketCount, Seconds, Nanoseconds, PathGrpName, ActionType]

  /** The entries of those of the leaves that are present. */
  function Entries(order: seq<Leaf>, at: Leaf -> string, value: Leaf -> Json, leaves: RuleLeaves): seq<Entry> {
    if order == [] then []
    else LeafEntry(at(order[0]), order[0], value, leaves) + Entries(order[1..], at, value, leaves)
  }

  lemma SixEntries(a: seq<Entry>, b: seq<Entry>, c: seq<Entry>, d: seq<Entry>, e: seq<Entry>, f: seq<Entry>)
    ensures a + b + (c + d) + (e + f) == a + (b + (c + (d + (e + (f + [])))))
  {
    assert f + [] == f;
  }

  lemma EntriesFrom(leaf: Leaf, rest: seq<Leaf>, at: Leaf -> string, value: Leaf -> Json, leaves: RuleLeaves)
    ensures Entries([leaf] + rest, at, value, leaves)
         == LeafEntry(at(leaf), leaf, value, leaves) + Entries(rest, at, value, leaves)
  {
    assert ([leaf] + rest)[1..] == rest;
  }

  lemma EntriesOfAll(at: Leaf -> string, value: Leaf -> Json, leaves: RuleLeaves)
    ensures Entries(ALL_LEAVES, at, value, leaves)
         == LeafEntry(at(ByteCount), ByteCount, value, leaves)
          + (LeafEntry(at(PacketCount), PacketCount, value, leaves)
             + (LeafEntry(at(Seconds), Seconds, value, leaves)
                + (LeafEntry(at(Nanoseconds), Nanoseconds, value, leaves)
                   + (LeafEntry(at(PathGrpName), PathGrpName, value, leaves)
                      + (LeafEntry(at(ActionType), ActionType, value, leaves) + [])))))
  {
    EntriesFrom(ActionType, [], at, value, leaves);
    EntriesFrom(PathGrpName, [ActionType] + [], at, value, leaves);
    EntriesFrom(Nanoseconds, [PathGrpName] + ([ActionType] + []), at, value, leaves);
    EntriesFrom(Seconds, [Nanoseconds] + ([PathGrpName] + ([ActionType] + [])), at, value, leaves);
    EntriesFrom(PacketCount, [Seconds] + ([Nanoseconds] + ([PathGrpName] + ([ActionType] + []))), at, value, leaves);
    EntriesFrom(ByteCount, [PacketCount] + ([Seconds] + ([Nanoseconds] + ([PathGrpName] + ([ActionType] + [])))),
                at, value, leaves);
    assert ALL_LEAVES
        == [ByteCount] + ([PacketCount] + ([Seconds] + ([Nanoseconds] + ([PathGrpName] + ([ActionType] + [])))));
  }

  lemma AllMemberLeaves(value: Leaf -> Json, leaves: RuleLeaves)
    requires LeavesFit(value, leaves)
    ensures MemberLeaves("", PbrDocument(value, leaves).members)
         == MemberLeaves(Child("", "fib-stats"), FibStats(value, leaves))
          + MemberLeaves(Child("", "paction"), Paction(value, leaves))
  {
    assert Plain("fib-stats") && Plain("paction");
    MemberLeavesAppend("", ObjectMember("fib-stats", FibStats(value, leaves)),
                       ObjectMember("paction", Paction(value, leaves)));
    ObjectMemberLeaves("", "fib-stats", FibStats(value, leaves));
    ObjectMemberLeaves("", "paction", Paction(value, leaves));
  }

  lemma AllEntries(value: Leaf -> Json, leaves: RuleLeaves)
    requires LeavesFit(value, leaves)
    ensures MemberLeaves(Child("", "fib-stats"), FibStats(value, leaves))
          + MemberLeaves(Child("", "paction"), Paction(value, leaves))
         == Entries(ALL_LEAVES, LeafPointer, value, leaves)
  {
    FibLeaves(Child("", "fib-stats"), value, leaves);
    ActionLeaves(Child("", "paction"), value, leaves);
    FibPointers();
    ActionPointers();
    EntriesOfAll(LeafPointer, value, leaves);
    SixEntries(LeafEntry(LeafPointer(ByteCount), ByteCount, value, leaves),
               LeafEntry(LeafPointer(PacketCount), PacketCount, value, leaves),
               LeafEntry(LeafPointer(Seconds), Seconds, value, leaves),
               LeafEntry(LeafPointer(Nanoseconds), Nanoseconds, value, leaves),
               LeafEntry(LeafPointer(PathGrpName), PathGrpName, value, leaves),
               LeafEntry(LeafPointer(ActionType), ActionType, value, leaves));
  }

  lemma DocumentLeaves(value: Leaf -> Json, leaves: RuleLeaves)
    requires LeavesFit(value, leaves) && exists leaf :: leaves.Present(leaf)
    ensures Leaves("", PbrDocument(value, leaves)) == Entries(ALL_LEAVES, LeafPointer, value, leaves)
  {
    SomeMember(value, leaves);
    AllMemberLeaves(value, leaves);
    AllEntries(value, leaves);
  }

  /** With a leaf there, no object on the way to it is left out. */
  lemma SomeMember(value: Leaf -> Json, leaves: RuleLeaves)
    requires exists leaf :: leaves.Present(leaf)
    ensures PbrDocument(value, leaves).members != []
  {
    var some :| leaves.Present(some);
    if IsCounter(some) {
      assert FibStats(value, leaves) != [];
    } else {
      assert Paction(value, leaves) != [];
    }
  }

  // ----- the leaves of the document -----

  lemma PointersInjective()
    ensures Injective(LeafPointer)
  {
    forall a, b ensures LeafPointer(a) == LeafPointer(b) ==> a == b {
      RewriteLeaf(a);
      RewriteLeaf(b);
      LeafKeysDiffer(a, b);
    }
  }

  lemma {:induction false} EntriesMembers(order: seq<Leaf>, at: Leaf -> string, value: Leaf -> Json,
                                          leaves: RuleLeaves, x: Entry)
    ensures x in Entries(order, at, value, leaves)
       <==> exists leaf :: leaf in order && leaves.Present(leaf) && x == Entry(at(leaf), value(leaf))
  {
    if order != [] {
      EntriesMembers(order[1..], at, value, leaves, x);
    }
  }

  predicate Distinct(order: seq<Leaf>) {
    forall i, j :: 0 <= i < j < |order| ==> order[i] != order[j]
  }

  lemma {:induction false} EntriesDiffer(order: seq<Leaf>, at: Leaf -> string, value: Leaf -> Json, leaves: RuleLeaves)
    requires Injective(at) && Distinct(order)
    ensures DistinctPointers(Entries(order, at, value, leaves))
  {
    if order != [] {
      var rest := Entries(order[1..], at, value, leaves);
      EntriesDiffer(order[1..], at, value, leaves);
      forall x | x in rest ensures x.pointer != at(order[0]) {
        EntriesMembers(order[1..], at, value, leaves, x);
      }
    }
  }

  lemma EntriesHoldLeaves(flat: seq<Entry>, at: Leaf -> string, value: Leaf -> Json, leaves: RuleLeaves)
    requires LeavesFit(value, leaves)
    requires forall x :: x in flat <==> x in Entries(ALL_LEAVES, at, value, leaves)
    ensures HoldLeaves(flat, leaves, at)
  {
    forall i | 0 <= i < |flat| ensures exists leaf :: HoldsLeaf(flat[i], leaves, leaf, at(leaf)) {
      EntriesMembers(ALL_LEAVES, at, value, leaves, flat[i]);
      var leaf :| leaves.Present(leaf) && flat[i] == Entry(at(leaf), value(leaf));
      assert HoldsLeaf(flat[i], leaves, leaf, at(leaf));
    }
    forall leaf | leaves.Present(leaf)
      ensures exists i :: 0 <= i < |flat| && HoldsLeaf(flat[i], leaves, leaf, at(leaf))
    {
      var x := Entry(at(leaf), value(leaf));
      AllLeaves(leaf);
      EntriesMembers(ALL_LEAVES, at, value, leaves, x);
      assert x in flat;
      var i :| 0 <= i < |flat| && flat[i] == x;
      assert HoldsLeaf(flat[i], leaves, leaf, at(leaf));
    }
  }

  lemma AllLeaves(leaf: Leaf)
    ensures leaf in ALL_LEAVES
  {
    assert ALL_LEAVES[0] == ByteCount && ALL_LEAVES[1] == PacketCount && ALL_LEAVES[2] == Seconds;
    assert ALL_LEAVES[3] == Nanoseconds && ALL_LEAVES[4] == PathGrpName && ALL_LEAVES[5] == ActionType;
  }

  lemma AllLeavesDiffer()
    ensures Distinct(ALL_LEAVES)
  {
  }

  /** Flattening only reorders the entries of the leaves. */
  lemma FlatHoldsLeaves(document: Json, at: Leaf -> string, value: Leaf -> Json, leaves: RuleLeaves)
    requires Injective(at) && LeavesFit(value, leaves)
    requires Leaves("", document) == Entries(ALL_LEAVES, at, value, leaves)
    ensures HoldLeaves(Flatten(document), leaves, at)
  {
    AllLeavesDiffer();
    EntriesDiffer(ALL_LEAVES, at, value, leaves);
    FlattenDistinct(document);
    EntriesHoldLeaves(Flatten(document), at, value, leaves);
  }

  /**
   * A document whose values fit the leaves that are present - each counter a number or a
   * string - holds exactly those leaves once it is flattened.
   */
  lemma DocumentHoldsLeaves(value: Leaf -> Json, leaves: RuleLeaves)
    requires LeavesFit(value, leaves) && exists leaf :: leaves.Present(leaf)
    ensures HoldLeaves(Flatten(PbrDocument(value, leaves)), leaves, LeafPointer)
  {
    DocumentLeaves(value, leaves);
    PointersInjective();
    FlatHoldsLeaves(PbrDocument(value, leaves), LeafPointer, value, leaves);
  }

  // ----- both encodings, end to end -----

  /** One update with a plain path for each leaf of a list. */
  function PlainUpdates(origin: string, sent: seq<Leaf>, leaves: RuleLeaves): (updates: seq<Update>)
    requires forall leaf :: leaf in sent ==> leaves.Present(leaf)
    ensures |updates| == |sent|
    ensures forall i :: 0 <= i < |sent| ==>
              updates[i] == Update(Some(Path(origin, PlainElems(LeafNames(sent[i])))), Some(LeafValue(leaves, sent[i])))
  {
    if sent == [] then []
    else
      [Update(Some(Path(origin, PlainElems(LeafNames(sent[0])))), Some(LeafValue(leaves, sent[0])))]
      + PlainUpdates(origin, sent[1..], leaves)
  }

  lemma PlainUpdatesSendLeaves(origin: string, sent: seq<Leaf>, leaves: RuleLeaves)
    requires forall leaf :: leaf in sent <==> leaves.Present(leaf)
    ensures SentAsProto(PlainUpdates(origin, sent, leaves), leaves, LeafKey)
  {
    var updates := PlainUpdates(origin, sent, leaves);
    forall i | 0 <= i < |sent| ensures SendsLeaf(updates[i], leaves, sent[i], LeafKey(sent[i])) {
      LeafPathText(origin, sent[i]);
    }
    forall i | 0 <= i < |updates| ensures SendsSomeLeaf(updates[i], leaves, LeafKey) {
      assert SendsLeaf(updates[i], leaves, sent[i], LeafKey(sent[i]));
    }
  }

  lemma PlainUpdatesOutcome(origin: string, sent: seq<Leaf>, leaves: RuleLeaves, prefix: Path,
                            policy: string, rule: string)
    requires sent != [] && forall leaf :: leaf in sent <==> leaves.Present(leaf)
    requires Contains(prefix.origin, PATH_ORIGIN) && Names(prefix.elem, policy, rule)
    ensures ResponseOutcome(SubscribeResponse(Some(Notification(Some(prefix), PlainUpdates(origin, sent, leaves)))))
         == Accepted(LeavesRecord(policy, rule, leaves))
  {
    PlainUpdatesSendLeaves(origin, sent, leaves);
    ProtoOutcome(Notification(Some(prefix), PlainUpdates(origin, sent, leaves)), policy, rule, leaves);
  }

  lemma DocumentOutcome(value: Leaf -> Json, leaves: RuleLeaves, prefix: Path, path: Path,
                        policy: string, rule: string)
    requires LeavesFit(value, leaves) && exists leaf :: leaves.Present(leaf)
    requires Contains(prefix.origin, PATH_ORIGIN) && Names(path.elem, policy, rule)
    ensures ResponseOutcome(SubscribeResponse(Some(JsonNotification(prefix, path, PbrDocument(value, leaves)))))
         == Accepted(LeavesRecord(policy, rule, leaves))
  {
    DocumentHoldsLeaves(value, leaves);
    JsonOutcome(prefix, path, PbrDocument(value, leaves), policy, rule, leaves);
  }

  /**
   * Whatever leaves a rule has, sent in any order: the plain updates under a prefix that names
   * policy and rule, and the document under a path that names them, have the same outcome.
   */
  lemma EncodingsOfLeavesAgree(origin: string, sent: seq<Leaf>, value: Leaf -> Json, leaves: RuleLeaves,
                               protoPrefix: Path, prefix: Path, path: Path, policy: string, rule: string)
    requires sent != [] && forall leaf :: leaf in sent <==> leaves.Present(leaf)
    requires LeavesFit(value, leaves)
    requires Contains(protoPrefix.origin, PATH_ORIGIN) && Names(protoPrefix.elem, policy, rule)
    requires Contains(prefix.origin, PATH_ORIGIN) && Names(path.elem, policy, rule)
    ensures var proto := Notification(Some(protoPrefix), PlainUpdates(origin, sent, leaves));
            var json := JsonNotification(prefix, path, PbrDocument(value, leaves));
            && ResponseOutcome(SubscribeResponse(Some(proto))) == Accepted(LeavesRecord(policy, rule, leaves))
            && ResponseOutcome(SubscribeResponse(Some(json))) == Accepted(LeavesRecord(policy, rule, leaves))
  {
    assert sent[0] in sent && leaves.Present(sent[0]);
    PlainUpdatesOutcome(origin, sent, leaves, protoPrefix, policy, rule);
    DocumentOutcome(value, leaves, prefix, path, policy, rule);
  }
}
