/** Only the first element of a JSON policy-rule-action list reaches the record. */
module ListLaws {
  import opened Results
  import opened Text
  import opened GnmiTypes
  import opened Decimal
  import opened JsonFlatten
  import opened PointerRewrite
  import opened Decoder
  import opened Pbr
  import PathLaws
  import DecoderLaws

  const PACTION := "paction"
  const ACTIONS := "policy-rule-action"

  /** The pointer of the list, ready for an index. */
  function ListPointer(): string {
    "/" + PACTION + "/" + ACTIONS + "/"
  }

  /** The pointer of an element at index 1 or above, or of something inside one. */
  predicate InTail(pointer: string) {
    var list := ListPointer();
    list <= pointer && |list| < |pointer| && '1' <= pointer[|list|] <= '9'
  }

  // ----- such pointers never become a key that the record is made from -----

  lemma HalveRunsHead(x: string, rest: seq<string>)
    requires x != "0"
    ensures HalveRuns([x] + rest) == [x] + HalveRuns(rest)
  {
    var segments := [x] + rest;
    assert ZeroRun(segments) == 0 && segments[0 + 1..] == rest;
    assert Zeros(0) + ([x] + HalveRuns(rest)) == [x] + HalveRuns(rest);
  }

  lemma ThreeSegments(a: string, b: string, rest: string)
    requires '/' !in a && '/' !in b
    ensures Segments("/" + a + "/" + b + "/" + rest) == [a] + ([b] + Split(rest))
  {
    var pointer := "/" + a + "/" + b + "/" + rest;
    assert pointer[1..] == a + "/" + (b + "/" + rest);
    PathLaws.SplitAt(a, b + "/" + rest);
    PathLaws.SplitAt(b, rest);
  }

  lemma FirstPiece(rest: string)
    requires rest != "" && rest[0] != '/'
    ensures Split(rest) == [Split(rest)[0]] + Split(rest)[1..]
    ensures Split(rest)[0] != "" && Split(rest)[0][0] == rest[0]
  {
    var i := IndexOf(rest, '/');
    assert i > 0;
  }

  /** The rewrite leaves segments in front alone that are not "0". */
  lemma RewriteKeepsFront(a: string, b: string, rest: string)
    requires '/' !in a && '/' !in b && a != "0" && b != "0"
    requires rest != "" && rest[0] != '/' && rest[0] != '0'
    ensures "/" + a + "/" + b + "/" + [rest[0]] <= ReplaceAll("/" + a + "/" + b + "/" + rest)
  {
    var pointer := "/" + a + "/" + b + "/" + rest;
    ThreeSegments(a, b, rest);
    FirstPiece(rest);
    assert SlashFirst(pointer);
    RewriteHalvesZeroRuns(pointer);
    var x, more := Split(rest)[0], Split(rest)[1..];
    HalveRunsHead(x, more);
    HalveRunsHead(b, [x] + more);
    HalveRunsHead(a, [b] + ([x] + more));
    SlashedAtLeastThree(a, b, x, HalveRuns(more));
  }

  lemma SlashedAtLeastThree(a: string, b: string, x: string, more: seq<string>)
    requires x != ""
    ensures "/" + a + "/" + b + "/" + [x[0]] <= Slashed([a] + ([b] + ([x] + more)))
  {
    SlashedHead(x, more);
    SlashedHead(b, [x] + more);
    SlashedHead(a, [b] + ([x] + more));
    assert "/" + a + ("/" + b + ("/" + x + Slashed(more)))
        == "/" + a + "/" + b + "/" + [x[0]] + (x[1..] + Slashed(more));
  }

  lemma TailRewrites(pointer: string)
    requires InTail(pointer)
    ensures InTail(ReplaceAll(pointer))
  {
    var list := ListPointer();
    var rest := pointer[|list|..];
    assert pointer == list + rest && rest[0] == pointer[|list|];
    ActionNames();
    RewriteKeepsFront(PACTION, ACTIONS, rest);
    var kept, rewritten := list + [rest[0]], ReplaceAll(pointer);
    assert kept <= rewritten && kept[|list|] == rest[0] && list <= kept;
  }

  lemma ActionNames()
    ensures '/' !in PACTION && '/' !in ACTIONS && PACTION != "0" && ACTIONS != "0"
    ensures '~' !in PACTION && '~' !in ACTIONS
  {
  }

  lemma LeafKeyNotInTail(leaf: Leaf)
    ensures !InTail(LeafKey(leaf))
  {
    var key, list := LeafKey(leaf), ListPointer();
    if IsCounter(leaf) {
      assert key[1] == 'f' && list[1] == 'p';
    } else {
      assert |list| == 28 && key[28] == 'a';
    }
  }

  // ----- decoding without the tail -----

  predicate SameAt(a: Strings, b: Strings, key: string) {
    (key in a <==> key in b) && (key in a ==> a[key] == b[key])
  }

  lemma {:induction false} DecodeWithoutTail(entries: seq<Entry>, key: string)
    requires !InTail(key)
    ensures SameAt(DecodeEntries(entries), DecodeEntries(Without(entries, InTail)), key)
  {
    if entries != [] {
      var n := |entries| - 1;
      var front, last := entries[..n], entries[n];
      DecodeWithoutTail(front, key);
      WithoutAppend(front, [last], InTail);
      assert entries == front + [last];
      if InTail(last.pointer) {
        TailRewrites(last.pointer);
        assert Without([last], InTail) == [];
        assert Without(entries, InTail) == Without(front, InTail);
      } else {
        assert Without([last], InTail) == [last] + Without([last][1..], InTail) == [last];
        var kept := Without(front, InTail) + [last];
        assert kept[..|kept| - 1] == Without(front, InTail);
      }
    }
  }

  // ----- documents that differ only in the tail of the list -----

  /** Any document that holds a non-empty policy-rule-action list inside paction. */
  function ListDocument(before: seq<Member>, inBefore: seq<Member>, first: Json, tail: seq<Json>,
                        inAfter: seq<Member>, after: seq<Member>): Json
  {
    var list := Member(ACTIONS, JArray([first] + tail));
    JObject(before + ([Member(PACTION, JObject(inBefore + ([list] + inAfter)))] + after))
  }

  lemma {:induction false} NothingLeft(entries: seq<Entry>)
    requires forall e :: e in entries ==> InTail(e.pointer)
    ensures Without(entries, InTail) == []
  {
    if entries != [] {
      NothingLeft(entries[1..]);
    }
  }

  lemma {:induction false} TailLeaves(items: seq<Json>, first: nat)
    requires first > 0
    ensures Without(ItemLeaves("/" + PACTION + "/" + ACTIONS, items, first), InTail) == []
  {
    if items != [] {
      var pointer := "/" + PACTION + "/" + ACTIONS;
      var index := pointer + "/" + NatText(first);
      var leaves := Leaves(index, items[0]);
      LeavesAreBelow(index, items[0]);
      FirstDigit(first);
      forall e | e in leaves ensures InTail(e.pointer) {
        assert index <= e.pointer && index[|pointer| + 1] == NatText(first)[0];
        assert pointer + "/" == ListPointer() && pointer + "/" <= index;
      }
      NothingLeft(leaves);
      TailLeaves(items[1..], first + 1);
      WithoutAppend(leaves, ItemLeaves(pointer, items[1..], first + 1), InTail);
    }
  }

  lemma ListLeaves(first: Json, tail: seq<Json>)
    ensures Without(Leaves("/" + PACTION + "/" + ACTIONS, JArray([first] + tail)), InTail)
         == Without(Leaves("/" + PACTION + "/" + ACTIONS + "/" + NatText(0), first), InTail)
  {
    var pointer := "/" + PACTION + "/" + ACTIONS;
    var items := [first] + tail;
    assert items[1..] == tail;
    TailLeaves(tail, 1);
    var head := Leaves(pointer + "/" + NatText(0), first);
    assert Leaves(pointer, JArray(items)) == head + ItemLeaves(pointer, tail, 1);
    WithoutAppend(head, ItemLeaves(pointer, tail, 1), InTail);
  }

  lemma MemberInside(pointer: string, before: seq<Member>, member: Member, after: seq<Member>)
    ensures Leaves(pointer, JObject(before + ([member] + after)))
         == MemberLeaves(pointer, before)
          + (Leaves(pointer + "/" + Escape(member.name), member.value) + MemberLeaves(pointer, after))
  {
    MemberLeavesAppend(pointer, before, [member] + after);
    assert ([member] + after)[1..] == after;
  }

  /** Replacing one member by one with the same kept leaves. */
  lemma MemberReplaced(pointer: string, before: seq<Member>, a: Member, b: Member, after: seq<Member>)
    requires a.name == b.name
    requires Without(Leaves(pointer + "/" + Escape(a.name), a.value), InTail)
          == Without(Leaves(pointer + "/" + Escape(b.name), b.value), InTail)
    ensures Without(Leaves(pointer, JObject(before + ([a] + after))), InTail)
         == Without(Leaves(pointer, JObject(before + ([b] + after))), InTail)
  {
    var front, back := MemberLeaves(pointer, before), MemberLeaves(pointer, after);
    var ofA, ofB := Leaves(pointer + "/" + Escape(a.name), a.value), Leaves(pointer + "/" + Escape(b.name), b.value);
    MemberInside(pointer, before, a, after);
    MemberInside(pointer, before, b, after);
    WithoutAppend(front, ofA + back, InTail);
    WithoutAppend(ofA, back, InTail);
    WithoutAppend(front, ofB + back, InTail);
    WithoutAppend(ofB, back, InTail);
  }

  /** Objects with the list as their member. */
  lemma ListObjectLeaves(first: Json, tail: seq<Json>, tail': seq<Json>, inBefore: seq<Member>, inAfter: seq<Member>)
    ensures var list, list' := Member(ACTIONS, JArray([first] + tail)), Member(ACTIONS, JArray([first] + tail'));
            Without(Leaves("/" + PACTION, JObject(inBefore + ([list] + inAfter))), InTail)
            == Without(Leaves("/" + PACTION, JObject(inBefore + ([list'] + inAfter))), InTail)
  {
    ActionNames();
    PlainEscape(ACTIONS);
    ListLeaves(first, tail);
    ListLeaves(first, tail');
    MemberReplaced("/" + PACTION, inBefore, Member(ACTIONS, JArray([first] + tail)),
                   Member(ACTIONS, JArray([first] + tail')), inAfter);
  }

  lemma PactionPointer()
    ensures "" + "/" + Escape(PACTION) == "/" + PACTION
  {
    ActionNames();
    PlainEscape(PACTION);
  }

  lemma ListDocumentLeaves(before: seq<Member>, inBefore: seq<Member>, first: Json, tail: seq<Json>, tail': seq<Json>,
                           inAfter: seq<Member>, after: seq<Member>)
    ensures Without(Leaves("", ListDocument(before, inBefore, first, tail, inAfter, after)), InTail)
         == Without(Leaves("", ListDocument(before, inBefore, first, tail', inAfter, after)), InTail)
  {
    PactionPointer();
    ListObjectLeaves(first, tail, tail', inBefore, inAfter);
    var list, list' := Member(ACTIONS, JArray([first] + tail)), Member(ACTIONS, JArray([first] + tail'));
    MemberReplaced("", before, Member(PACTION, JObject(inBefore + ([list] + inAfter))),
                   Member(PACTION, JObject(inBefore + ([list'] + inAfter))), after);
  }

  // ----- notifications -----

  function JsonUpdate(path: Path, document: Json): Update {
    Update(Some(path), Some(JsonIetfVal(Document(document))))
  }

  lemma {:induction false} UpdatesSameAt(before: seq<Update>, a: Update, b: Update, after: seq<Update>, key: string)
    requires SameAt(DecodeUpdate(DecodeUpdates(before), a), DecodeUpdate(DecodeUpdates(before), b), key)
    ensures SameAt(DecodeUpdates(before + [a] + after), DecodeUpdates(before + [b] + after), key)
  {
    var withA, withB := before + [a] + after, before + [b] + after;
    if after == [] {
      assert withA[..|withA| - 1] == before && withB[..|withB| - 1] == before;
    } else {
      var n := |after| - 1;
      UpdatesSameAt(before, a, b, after[..n], key);
      assert withA[..|withA| - 1] == before + [a] + after[..n];
      assert withB[..|withB| - 1] == before + [b] + after[..n];
      DecoderLaws.DecodeUpdateAt(DecodeUpdates(before + [a] + after[..n]), after[n], key);
      DecoderLaws.DecodeUpdateAt(DecodeUpdates(before + [b] + after[..n]), after[n], key);
    }
  }

  lemma {:induction false} SameChosenPath(before: seq<Update>, path: Path, d: Json, d': Json, after: seq<Update>,
                                          prefix: Path)
    ensures ChosenPath(before + [JsonUpdate(path, d)] + after, prefix)
         == ChosenPath(before + [JsonUpdate(path, d')] + after, prefix)
  {
    var u, u' := before + [JsonUpdate(path, d)] + after, before + [JsonUpdate(path, d')] + after;
    if after != [] {
      var n := |after| - 1;
      SameChosenPath(before, path, d, d', after[..n], prefix);
      assert u[..|u| - 1] == before + [JsonUpdate(path, d)] + after[..n];
      assert u'[..|u'| - 1] == before + [JsonUpdate(path, d')] + after[..n];
    }
  }

  /** Records depend on the two names and the six keys only. */
  lemma RecordDependsOnKeys(m: Strings, m': Strings)
    requires SameAt(m, m', POLICY) && SameAt(m, m', RULE)
    requires forall leaf :: SameAt(m, m', LeafKey(leaf))
    ensures RecordOf(m) == RecordOf(m')
  {
    assert SameAt(m, m', LeafKey(ByteCount)) && SameAt(m, m', LeafKey(PacketCount));
    assert SameAt(m, m', LeafKey(Seconds)) && SameAt(m, m', LeafKey(Nanoseconds));
    assert SameAt(m, m', LeafKey(PathGrpName)) && SameAt(m, m', LeafKey(ActionType));
  }

  /** The outcome of a response is determined by its chosen names and the six keys. */
  lemma OutcomeDependsOnKeys(n: Notification, n': Notification)
    requires n.prefix == n'.prefix && (n.update == [] <==> n'.update == [])
    requires n.prefix.Some? ==> ChosenPath(n.update, n.prefix.value).elem == ChosenPath(n'.update, n.prefix.value).elem
    requires forall leaf :: SameAt(DecodeUpdates(n.update), DecodeUpdates(n'.update), LeafKey(leaf))
    ensures ResponseOutcome(SubscribeResponse(Some(n))) == ResponseOutcome(SubscribeResponse(Some(n')))
  {
    var r, r' := ParseResponse(n, PATH_ORIGIN), ParseResponse(n', PATH_ORIGIN);
    DecoderLaws.AcceptedNotification(n, PATH_ORIGIN);
    DecoderLaws.AcceptedNotification(n', PATH_ORIGIN);
    if r.Success? {
      DecoderLaws.NamesDiffer();
      forall leaf ensures SameAt(r.value, r'.value, LeafKey(leaf)) {
        LeafKeyIsNoName(leaf);
      }
      RecordDependsOnKeys(r.value, r'.value);
    } else {
      DecoderLaws.RefusedNotification(n, PATH_ORIGIN);
      DecoderLaws.RefusedNotification(n', PATH_ORIGIN);
    }
  }

  /**
   * Two responses that differ only in the elements at index 1 and above of a JSON
   * policy-rule-action list have the same outcome, hence the same record.
   */
  lemma TailOfListIsIgnored(
      prefix: Option<Path>, earlier: seq<Update>, path: Path, later: seq<Update>,
      before: seq<Member>, inBefore: seq<Member>, first: Json, tail: seq<Json>, tail': seq<Json>,
      inAfter: seq<Member>, after: seq<Member>)
    ensures var document := ListDocument(before, inBefore, first, tail, inAfter, after);
            var document' := ListDocument(before, inBefore, first, tail', inAfter, after);
            var n := Notification(prefix, earlier + [JsonUpdate(path, document)] + later);
            var n' := Notification(prefix, earlier + [JsonUpdate(path, document')] + later);
            ResponseOutcome(SubscribeResponse(Some(n))) == ResponseOutcome(SubscribeResponse(Some(n')))
  {
    var document := ListDocument(before, inBefore, first, tail, inAfter, after);
    var document' := ListDocument(before, inBefore, first, tail', inAfter, after);
    var n := Notification(prefix, earlier + [JsonUpdate(path, document)] + later);
    var n' := Notification(prefix, earlier + [JsonUpdate(path, document')] + later);
    ListDocumentLeaves(before, inBefore, first, tail, tail', inAfter, after);
    FlattenWithout(document, document', InTail);
    forall leaf ensures SameAt(DecodeUpdates(n.update), DecodeUpdates(n'.update), LeafKey(leaf)) {
      var key := LeafKey(leaf);
      LeafKeyNotInTail(leaf);
      DecodeWithoutTail(Flatten(document), key);
      DecodeWithoutTail(Flatten(document'), key);
      DecoderLaws.DecodeUpdateAt(DecodeUpdates(earlier), JsonUpdate(path, document), key);
      DecoderLaws.DecodeUpdateAt(DecodeUpdates(earlier), JsonUpdate(path, document'), key);
      UpdatesSameAt(earlier, JsonUpdate(path, document), JsonUpdate(path, document'), later, key);
    }
    if prefix.Some? {
      SameChosenPath(earlier, path, document, document', later, prefix.value);
    }
    OutcomeDependsOnKeys(n, n');
  }
}
