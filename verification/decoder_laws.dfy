/** What the decoded map of a notification contains, and when a notification is accepted. */
module DecoderLaws {
  import opened Results
  import opened Text
  import opened GnmiTypes
  import opened Decimal
  import opened JsonFlatten
  import opened Decoder
  import PathCodec
  import PointerRewrite

  // ----- one document -----

  /** Entry i is the last one whose rewritten pointer is `key`. */
  ghost predicate LastEntryFor(entries: seq<Entry>, key: string, i: int) {
    && 0 <= i < |entries| && PointerRewrite.ReplaceAll(entries[i].pointer) == key
    && forall j :: i < j < |entries| ==> PointerRewrite.ReplaceAll(entries[j].pointer) != key
  }

  lemma {:induction false} DecodedEntry(entries: seq<Entry>, key: string)
    ensures key in DecodeEntries(entries) <==> exists i :: LastEntryFor(entries, key, i)
    ensures forall i :: LastEntryFor(entries, key, i) ==> DecodeEntries(entries)[key] == PrimitiveText(entries[i].value)
  {
    if entries != [] {
      var n := |entries| - 1;
      var front := entries[..n];
      DecodedEntry(front, key);
      if PointerRewrite.ReplaceAll(entries[n].pointer) == key {
        assert LastEntryFor(entries, key, n);
      } else {
        forall i ensures LastEntryFor(entries, key, i) <==> LastEntryFor(front, key, i) {
          assert forall j :: 0 <= j < n ==> entries[j] == front[j];
        }
      }
    }
  }

  // ----- all updates -----

  predicate HasPathAndValue(u: Update) {
    u.path.Some? && u.val.Some?
  }

  ghost predicate ProtoWrites(u: Update, key: string) {
    HasPathAndValue(u) && !u.val.value.JsonIetfVal? && PathCodec.PathText(u.path.value) == key
  }

  ghost predicate JsonHas(u: Update, key: string) {
    && HasPathAndValue(u) && u.val.value.JsonIetfVal? && u.val.value.json.Document?
    && key in DecodeDocument(u.val.value.json.value)
  }

  ghost predicate NoProtoWrites(updates: seq<Update>, key: string) {
    forall i :: 0 <= i < |updates| ==> !ProtoWrites(updates[i], key)
  }

  ghost predicate LastProto(updates: seq<Update>, key: string, i: int) {
    && 0 <= i < |updates| && ProtoWrites(updates[i], key)
    && forall j :: i < j < |updates| ==> !ProtoWrites(updates[j], key)
  }

  ghost predicate FirstJson(updates: seq<Update>, key: string, i: int) {
    && 0 <= i < |updates| && JsonHas(updates[i], key)
    && forall j :: 0 <= j < i ==> !JsonHas(updates[j], key)
  }

  ghost predicate NobodyWrites(updates: seq<Update>, key: string) {
    forall i :: 0 <= i < |updates| ==> !ProtoWrites(updates[i], key) && !JsonHas(updates[i], key)
  }

  lemma DecodeUpdateAt(m: Strings, u: Update, key: string)
    ensures ProtoWrites(u, key) ==> key in DecodeUpdate(m, u) && DecodeUpdate(m, u)[key] == ValueText(u.val.value)
    ensures !ProtoWrites(u, key) && key in m ==> key in DecodeUpdate(m, u) && DecodeUpdate(m, u)[key] == m[key]
    ensures !ProtoWrites(u, key) && key !in m ==>
              && (key in DecodeUpdate(m, u) <==> JsonHas(u, key))
              && (JsonHas(u, key) ==> DecodeUpdate(m, u)[key] == DecodeDocument(u.val.value.json.value)[key])
  {
  }

  lemma {:induction false} DecodedByNobody(updates: seq<Update>, key: string)
    ensures key !in DecodeUpdates(updates) <==> NobodyWrites(updates, key)
  {
    if updates != [] {
      var n := |updates| - 1;
      var front, last := updates[..n], updates[n];
      DecodedByNobody(front, key);
      DecodeUpdateAt(DecodeUpdates(front), last, key);
      assert NobodyWrites(updates, key)
        <==> NobodyWrites(front, key) && !ProtoWrites(last, key) && !JsonHas(last, key) by {
        assert forall j :: 0 <= j < n ==> front[j] == updates[j];
      }
    }
  }

  lemma {:induction false} DecodedByProto(updates: seq<Update>, key: string, i: int)
    requires LastProto(updates, key, i)
    ensures key in DecodeUpdates(updates) && DecodeUpdates(updates)[key] == ValueText(updates[i].val.value)
  {
    var n := |updates| - 1;
    var front := updates[..n];
    DecodeUpdateAt(DecodeUpdates(front), updates[n], key);
    if i < n {
      assert LastProto(front, key, i);
      DecodedByProto(front, key, i);
    }
  }

  lemma {:induction false} DecodedByJson(updates: seq<Update>, key: string, i: int)
    requires NoProtoWrites(updates, key) && FirstJson(updates, key, i)
    ensures key in DecodeUpdates(updates)
    ensures DecodeUpdates(updates)[key] == DecodeDocument(updates[i].val.value.json.value)[key]
  {
    var n := |updates| - 1;
    var front := updates[..n];
    assert NoProtoWrites(front, key);
    DecodeUpdateAt(DecodeUpdates(front), updates[n], key);
    if i < n {
      assert FirstJson(front, key, i);
      DecodedByJson(front, key, i);
    } else {
      assert NobodyWrites(front, key);
      DecodedByNobody(front, key);
    }
  }

  /**
   * The decoded map at `key`: the last PROTO update that renders to the key decides; if
   * there is none, the first JSON document that contains the key; otherwise it is absent.
   */
  lemma DecodedValue(updates: seq<Update>, key: string)
    ensures key !in DecodeUpdates(updates) <==> NobodyWrites(updates, key)
    ensures forall i :: LastProto(updates, key, i) ==>
                          && key in DecodeUpdates(updates)
                          && DecodeUpdates(updates)[key] == ValueText(updates[i].val.value)
    ensures forall i :: NoProtoWrites(updates, key) && FirstJson(updates, key, i) ==>
                          && key in DecodeUpdates(updates)
                          && DecodeUpdates(updates)[key] == DecodeDocument(updates[i].val.value.json.value)[key]
  {
    DecodedByNobody(updates, key);
    forall i | LastProto(updates, key, i)
      ensures key in DecodeUpdates(updates) && DecodeUpdates(updates)[key] == ValueText(updates[i].val.value)
    {
      DecodedByProto(updates, key, i);
    }
    forall i | NoProtoWrites(updates, key) && FirstJson(updates, key, i)
      ensures key in DecodeUpdates(updates)
      ensures DecodeUpdates(updates)[key] == DecodeDocument(updates[i].val.value.json.value)[key]
    {
      DecodedByJson(updates, key, i);
    }
  }

  /** The text that a PROTO value leaves at its key. */
  lemma ProtoTexts(updates: seq<Update>, key: string, i: int)
    requires LastProto(updates, key, i)
    ensures key in DecodeUpdates(updates)
    ensures var text := DecodeUpdates(updates)[key];
            match updates[i].val.value
            case UintVal(n) => IsNumeralOf(text, n)
            case IntVal(v) => IsNumeralOf(text, v)
            case StringVal(s) => text == s
            case BoolVal(b) => text == if b then "true" else "false"
            case DoubleVal(t) => text == t
            case OtherVal => text == "unsupported_type"
            case JsonIetfVal(_) => false
  {
    DecodedByProto(updates, key, i);
    match updates[i].val.value
    case UintVal(n) => IntTextIsNumeral(n);
    case IntVal(v) => IntTextIsNumeral(v);
    case _ =>
  }

  /** The text that a JSON primitive leaves at its rewritten key. */
  lemma JsonTexts(entries: seq<Entry>, key: string, i: int)
    requires LastEntryFor(entries, key, i)
    ensures key in DecodeEntries(entries)
    ensures var text := DecodeEntries(entries)[key];
            match entries[i].value
            case JUint(n) => IsNumeralOf(text, n)
            case JInt(v) => IsNumeralOf(text, v)
            case JString(s) => text == s
            case JBool(b) => text == if b then "true" else "false"
            case JFloat(t) => text == t
            case JNull => text == "null"
            case _ => true
  {
    DecodedEntry(entries, key);
    match entries[i].value
    case JUint(n) => IntTextIsNumeral(n);
    case JInt(v) => IntTextIsNumeral(v);
    case _ =>
  }

  /** A JSON update that does not parse leaves the decoded map as it would be without it. */
  lemma {:induction false} MalformedJsonChangesNothing(before: seq<Update>, u: Update, after: seq<Update>)
    requires u.val == Some(JsonIetfVal(Malformed))
    ensures DecodeUpdates(before + [u] + after) == DecodeUpdates(before + after)
  {
    if after == [] {
      var all := before + [u] + after;
      assert all[..|all| - 1] == before && before + after == before;
    } else {
      var n := |after| - 1;
      MalformedJsonChangesNothing(before, u, after[..n]);
      assert (before + [u] + after)[..|before| + 1 + n] == before + [u] + after[..n];
      assert (before + after)[..|before| + n] == before + after[..n];
    }
  }

  // ----- decoded data cannot pose as names -----

  lemma PathTextForm(path: Path)
    ensures PointerForm(PathCodec.PathText(path))
  {
    var texts := PathCodec.ElemTexts(path.elem);
    if texts != [] {
      assert Slashed(texts)[0] == '/';
    }
  }

  lemma {:induction false} DecodedDocumentKeys(entries: seq<Entry>)
    requires forall e :: e in entries ==> PointerForm(e.pointer)
    ensures forall key :: key in DecodeEntries(entries) ==> PointerForm(key)
  {
    if entries != [] {
      var n := |entries| - 1;
      assert forall e :: e in entries[..n] ==> e in entries;
      DecodedDocumentKeys(entries[..n]);
      assert entries[n] in entries;
      if entries[n].pointer != "" {
        PointerRewrite.RewriteHalvesZeroRuns(entries[n].pointer);
      }
    }
  }

  /** Every decoded key is empty or starts with '/'. */
  lemma {:induction false} DecodedKeys(updates: seq<Update>)
    ensures forall key :: key in DecodeUpdates(updates) ==> PointerForm(key)
  {
    if updates != [] {
      var last := updates[|updates| - 1];
      DecodedKeys(updates[..|updates| - 1]);
      if HasPathAndValue(last) {
        PathTextForm(last.path.value);
        if last.val.value.JsonIetfVal? && last.val.value.json.Document? {
          FlattenedPointers(last.val.value.json.value);
          DecodedDocumentKeys(Flatten(last.val.value.json.value));
        }
      }
    }
  }

  // ----- the chosen path and its names -----

  ghost predicate LastValued(updates: seq<Update>, i: int) {
    0 <= i < |updates| && HasPathAndValue(updates[i]) && forall j :: i < j < |updates| ==> !HasPathAndValue(updates[j])
  }

  lemma {:induction false} NothingValued(updates: seq<Update>, prefix: Path)
    requires forall i :: 0 <= i < |updates| ==> !HasPathAndValue(updates[i])
    ensures ChosenPath(updates, prefix) == prefix
  {
    if updates != [] {
      assert !HasPathAndValue(updates[|updates| - 1]);
      NothingValued(updates[..|updates| - 1], prefix);
    }
  }

  lemma {:induction false} LastValuedDecides(updates: seq<Update>, prefix: Path, i: int)
    requires LastValued(updates, i)
    ensures ChosenPath(updates, prefix) == if updates[i].val.value.JsonIetfVal? then updates[i].path.value else prefix
  {
    var n := |updates| - 1;
    if i < n {
      assert !HasPathAndValue(updates[n]);
      LastValuedDecides(updates[..n], prefix, i);
    }
  }

  /** The last update that has both a path and a value decides which path names policy and rule. */
  lemma ChosenPathIsLast(updates: seq<Update>, prefix: Path)
    ensures (forall i :: 0 <= i < |updates| ==> !HasPathAndValue(updates[i])) ==> ChosenPath(updates, prefix) == prefix
    ensures forall i :: LastValued(updates, i) ==>
              ChosenPath(updates, prefix) == if updates[i].val.value.JsonIetfVal? then updates[i].path.value else prefix
  {
    if forall i :: 0 <= i < |updates| ==> !HasPathAndValue(updates[i]) {
      NothingValued(updates, prefix);
    }
    forall i | LastValued(updates, i)
      ensures ChosenPath(updates, prefix) == if updates[i].val.value.JsonIetfVal? then updates[i].path.value else prefix
    {
      LastValuedDecides(updates, prefix, i);
    }
  }

  /** A JSON update that does not parse still decides the path, unless a later update does. */
  lemma {:induction false} MalformedJsonStillNames(before: seq<Update>, u: Update, after: seq<Update>, prefix: Path)
    requires u.val == Some(JsonIetfVal(Malformed))
    ensures ChosenPath(before + [u] + after, prefix)
         == if u.path.Some? && (forall i :: 0 <= i < |after| ==> !HasPathAndValue(after[i])) then u.path.value
            else ChosenPath(before + after, prefix)
    decreases |after|
  {
    if after == [] {
      var all := before + [u] + after;
      assert all[..|all| - 1] == before && before + after == before;
    } else {
      var n := |after| - 1;
      MalformedJsonStillNames(before, u, after[..n], prefix);
      assert (before + [u] + after)[..|before| + 1 + n] == before + [u] + after[..n];
      assert (before + after)[..|before| + n] == before + after[..n];
      assert (forall i :: 0 <= i < |after| ==> !HasPathAndValue(after[i]))
        <==> !HasPathAndValue(after[n]) && forall i :: 0 <= i < n ==> !HasPathAndValue(after[..n][i]);
    }
  }

  /** The value of key `key` in the last element called `name` that has it, or "". */
  function FoundName(elems: seq<PathElem>, name: string, key: string): string {
    if elems == [] then ""
    else
      var last := elems[|elems| - 1];
      var found := if last.name == name then FindKey(last.key, key) else None;
      if found.Some? then found.value else FoundName(elems[..|elems| - 1], name, key)
  }

  lemma {:induction false} ScannedNames(m: Strings, elems: seq<PathElem>)
    requires POLICY !in m && RULE !in m
    ensures var scanned := ScanNames(m, elems);
            && Lookup(scanned, POLICY) == FoundName(elems, POLICY_MAP, POLICY_KEY)
            && Lookup(scanned, RULE) == FoundName(elems, RULE_NAME, RULE_NAME)
            && forall k :: k != POLICY && k != RULE ==> (k in scanned <==> k in m) && (k in m ==> scanned[k] == m[k])
  {
    NamesDiffer();
    if elems != [] {
      ScannedNames(m, elems[..|elems| - 1]);
    }
  }

  lemma NamesDiffer()
    ensures POLICY != RULE && POLICY_MAP != RULE_NAME
    ensures !PointerForm(POLICY) && !PointerForm(RULE)
  {
    assert |POLICY| != |RULE| && |POLICY_MAP| != |RULE_NAME|;
  }

  ghost predicate Acceptable(notification: Notification, pathOrigin: string) {
    && notification.prefix.Some?
    && Contains(notification.prefix.value.origin, pathOrigin)
    && notification.update != []
    && var path := ChosenPath(notification.update, notification.prefix.value);
       && FoundName(path.elem, POLICY_MAP, POLICY_KEY) != ""
       && FoundName(path.elem, RULE_NAME, RULE_NAME) != ""
  }

  /** The decoded data with the two names that are found on a path. */
  function Named(data: Strings, path: Path): Strings {
    data[POLICY := FoundName(path.elem, POLICY_MAP, POLICY_KEY)]
        [RULE := FoundName(path.elem, RULE_NAME, RULE_NAME)]
  }

  /**
   * A notification is accepted exactly when its prefix is present and of the right
   * origin, it has an update, and both names are found on the chosen path. The result is
   * the decoded data plus those two names, which the data cannot have set.
   */
  lemma AcceptedNotification(notification: Notification, pathOrigin: string)
    ensures ParseResponse(notification, pathOrigin).Success? <==> Acceptable(notification, pathOrigin)
    ensures Acceptable(notification, pathOrigin) ==>
              var path := ChosenPath(notification.update, notification.prefix.value);
              var data := DecodeUpdates(notification.update);
              && POLICY !in data && RULE !in data
              && ParseResponse(notification, pathOrigin).value == Named(data, path)
  {
    NamesDiffer();
    DecodedKeys(notification.update);
    if notification.prefix.Some? {
      var path := ChosenPath(notification.update, notification.prefix.value);
      var data := DecodeUpdates(notification.update);
      ScannedNames(data, path.elem);
      var scanned := ScanNames(data, path.elem);
      if Acceptable(notification, pathOrigin) {
        var named := Named(data, path);
        assert POLICY in scanned && RULE in scanned;
        assert forall k :: k in scanned <==> k in named;
        assert scanned == named;
      }
    }
  }

  /** Every refusal names the first thing that is missing. */
  lemma RefusedNotification(notification: Notification, pathOrigin: string)
    requires ParseResponse(notification, pathOrigin).Failure?
    ensures var error := ParseResponse(notification, pathOrigin).error;
            && (error == NO_PREFIX_IN_RESPONSE <==> notification.prefix.None?)
            && (notification.prefix.Some? ==>
                  var prefix := notification.prefix.value;
                  var path := ChosenPath(notification.update, prefix);
                  && (error == UNKNOWN_ERROR <==> !Contains(prefix.origin, pathOrigin))
                  && (error == NO_UPDATE_IN_NOTIFICATION <==>
                        Contains(prefix.origin, pathOrigin) && notification.update == [])
                  && (error == NO_POLICY_NAME_IN_RESPONSE <==>
                        && Contains(prefix.origin, pathOrigin) && notification.update != []
                        && FoundName(path.elem, POLICY_MAP, POLICY_KEY) == "")
                  && (error == NO_RULE_NAME_IN_RESPONSE <==>
                        && Contains(prefix.origin, pathOrigin) && notification.update != []
                        && FoundName(path.elem, POLICY_MAP, POLICY_KEY) != ""
                        && FoundName(path.elem, RULE_NAME, RULE_NAME) == ""))
  {
    NamesDiffer();
    DecodedKeys(notification.update);
    if notification.prefix.Some? {
      ScannedNames(DecodeUpdates(notification.update), ChosenPath(notification.update, notification.prefix.value).elem);
    }
  }

  lemma ParseDependsOn(prefix: Option<Path>, a: seq<Update>, b: seq<Update>, pathOrigin: string)
    requires (a == [] <==> b == []) && DecodeUpdates(a) == DecodeUpdates(b)
    requires prefix.Some? ==> ChosenPath(a, prefix.value) == ChosenPath(b, prefix.value)
    ensures ParseResponse(Notification(prefix, a), pathOrigin) == ParseResponse(Notification(prefix, b), pathOrigin)
  {
  }

  /** So it can be left out of a notification if an update behind it has both a path and a value. */
  lemma MalformedJsonLeftOut(prefix: Option<Path>, before: seq<Update>, u: Update, after: seq<Update>, i: int,
                             pathOrigin: string)
    requires u.val == Some(JsonIetfVal(Malformed)) && 0 <= i < |after| && HasPathAndValue(after[i])
    ensures ParseResponse(Notification(prefix, before + [u] + after), pathOrigin)
         == ParseResponse(Notification(prefix, before + after), pathOrigin)
  {
    MalformedJsonChangesNothing(before, u, after);
    if prefix.Some? {
      MalformedJsonStillNames(before, u, after, prefix.value);
    }
    ParseDependsOn(prefix, before + [u] + after, before + after, pathOrigin);
  }
}
