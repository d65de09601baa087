/** Counters keep their values on the way through decimal text. */
module CounterLaws {
  import opened Results
  import opened GnmiTypes
  import opened Decimal
  import opened JsonFlatten
  import opened Decoder
  import opened DecoderLaws
  import opened Pbr
  import opened OutcomeLaws

  /** What an accepted response reports for a counter is what its decoded text parses to. */
  lemma FieldOfCounter(notification: Notification, counter: Leaf, record: PbrRecord)
    requires IsCounter(counter) && ResponseOutcome(SubscribeResponse(Some(notification))) == Accepted(record)
    ensures CounterAt(DecodeUpdates(notification.update), LeafKey(counter)) == Success(CounterField(record, counter))
  {
    AcceptedNotification(notification, PATH_ORIGIN);
    LeafKeyIsNoName(counter);
  }

  /** An unsigned 64-bit value sent for a counter is the value of the counter's field. */
  lemma UnsignedCounterSurvives(notification: Notification, counter: Leaf, i: nat, n: u64, record: PbrRecord)
    requires LastProto(notification.update, LeafKey(counter), i)
    requires notification.update[i].val == Some(UintVal(n))
    requires IsCounter(counter) && ResponseOutcome(SubscribeResponse(Some(notification))) == Accepted(record)
    ensures CounterField(record, counter) == n
  {
    FieldOfCounter(notification, counter, record);
    DecodedByProto(notification.update, LeafKey(counter), i);
    UnsignedRoundTrip(n);
  }

  /** A signed 64-bit value sent for a counter arrives modulo 2^64. */
  lemma SignedCounterSurvives(notification: Notification, counter: Leaf, i: nat, v: int, record: PbrRecord)
    requires LastProto(notification.update, LeafKey(counter), i)
    requires notification.update[i].val == Some(IntVal(v)) && -TWO_63 <= v < TWO_63
    requires IsCounter(counter) && ResponseOutcome(SubscribeResponse(Some(notification))) == Accepted(record)
    ensures CounterField(record, counter) == v % TWO_64
  {
    FieldOfCounter(notification, counter, record);
    DecodedByProto(notification.update, LeafKey(counter), i);
    SignedRoundTrip(v);
  }

  /** A fractional value loses what follows its digits. */
  lemma FractionIsCut(notification: Notification, counter: Leaf, i: nat, digits: string, rest: string,
                      record: PbrRecord)
    requires LastProto(notification.update, LeafKey(counter), i)
    requires notification.update[i].val == Some(DoubleVal(digits + rest))
    requires NumberText(digits + rest, "", "", digits, rest)
    requires IsCounter(counter) && ResponseOutcome(SubscribeResponse(Some(notification))) == Accepted(record)
    ensures AllDigits(digits) && CounterField(record, counter) == PlaceValue(digits)
  {
    FieldOfCounter(notification, counter, record);
    DecodedByProto(notification.update, LeafKey(counter), i);
    StoullOfNumber(digits + rest, "", "", digits, rest);
  }

  /** A counter whose decoded text is no number makes an acceptable notification throw. */
  lemma BadCounterThrows(notification: Notification, counter: Leaf)
    requires Acceptable(notification, PATH_ORIGIN) && IsCounter(counter)
    requires LeafKey(counter) in DecodeUpdates(notification.update)
    requires !IsNumber(DecodeUpdates(notification.update)[LeafKey(counter)])
    ensures var outcome := ResponseOutcome(SubscribeResponse(Some(notification)));
            && outcome.Threw?
            && ((forall leaf :: IsCounter(leaf) && CounterOrder(leaf) < CounterOrder(counter) ==>
                   Parses(DecodeUpdates(notification.update), leaf))
                ==> outcome == Threw(InvalidArgument))
  {
    var data := DecodeUpdates(notification.update);
    InvalidArguments(data[LeafKey(counter)]);
    assert !Parses(data, counter);
    AcceptedUpdate(notification);
    RejectedUpdate(notification);
    if forall leaf :: IsCounter(leaf) && CounterOrder(leaf) < CounterOrder(counter) ==> Parses(data, leaf) {
      assert FirstBad(data, counter, InvalidArgument);
      ThrowingUpdate(notification, InvalidArgument);
    }
  }

  /** So a counter that was last sent as a value of an unsupported kind, or as a truth value, throws. */
  lemma UnsupportedCounterThrows(notification: Notification, counter: Leaf, i: nat)
    requires Acceptable(notification, PATH_ORIGIN) && IsCounter(counter)
    requires LastProto(notification.update, LeafKey(counter), i)
    requires notification.update[i].val.value.OtherVal? || notification.update[i].val.value.BoolVal?
    ensures var outcome := ResponseOutcome(SubscribeResponse(Some(notification)));
            && outcome.Threw?
            && ((forall leaf :: IsCounter(leaf) && CounterOrder(leaf) < CounterOrder(counter) ==>
                   Parses(DecodeUpdates(notification.update), leaf))
                ==> outcome == Threw(InvalidArgument))
  {
    ProtoTexts(notification.update, LeafKey(counter), i);
    WordIsNoNumber(DecodeUpdates(notification.update)[LeafKey(counter)]);
    BadCounterThrows(notification, counter);
  }

  /** And so does one that no PROTO update sends and that is null in the first JSON document with it. */
  lemma NullCounterThrows(notification: Notification, counter: Leaf, i: nat, j: nat)
    requires Acceptable(notification, PATH_ORIGIN) && IsCounter(counter)
    requires NoProtoWrites(notification.update, LeafKey(counter)) && FirstJson(notification.update, LeafKey(counter), i)
    requires var entries := Flatten(notification.update[i].val.value.json.value);
             LastEntryFor(entries, LeafKey(counter), j) && entries[j].value == JNull
    ensures ResponseOutcome(SubscribeResponse(Some(notification))).Threw?
  {
    var entries := Flatten(notification.update[i].val.value.json.value);
    DecodedByJson(notification.update, LeafKey(counter), i);
    JsonTexts(entries, LeafKey(counter), j);
    WordIsNoNumber(DecodeEntries(entries)[LeafKey(counter)]);
    BadCounterThrows(notification, counter);
  }
}
