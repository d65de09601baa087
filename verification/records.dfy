/** What a run of responses leaves behind in the client's statistics. */
module Records {
  import opened Text
  import opened GnmiTypes
  import opened Decimal
  import opened Pbr

  /** The records of the accepted responses, in order. */
  function AcceptedRecords(responses: seq<SubscribeResponse>): seq<PbrRecord> {
    if responses == [] then []
    else AcceptedRecords(responses[..|responses| - 1]) + RecordsOf(responses[|responses| - 1])
  }

  /** One record or none. */
  function RecordsOf(response: SubscribeResponse): (records: seq<PbrRecord>)
    ensures |records| <= 1
  {
    match ResponseOutcome(response)
    case Accepted(record) => [record]
    case _ => []
  }

  predicate Throws(response: SubscribeResponse) {
    ResponseOutcome(response).Threw?
  }

  predicate ThrownBy(response: SubscribeResponse, error: StoullError) {
    ResponseOutcome(response) == Threw(error)
  }

  predicate NoneThrows(responses: seq<SubscribeResponse>) {
    forall i :: 0 <= i < |responses| ==> !Throws(responses[i])
  }

  /** How many responses come before the first one with a counter that does not parse. */
  function FirstThrow(responses: seq<SubscribeResponse>): (n: nat)
    ensures n <= |responses|
  {
    if responses == [] || Throws(responses[0]) then 0 else 1 + FirstThrow(responses[1..])
  }

  lemma {:induction false} FirstThrowAt(responses: seq<SubscribeResponse>, n: nat)
    requires n <= |responses| && NoneThrows(responses[..n])
    requires n < |responses| ==> Throws(responses[n])
    ensures FirstThrow(responses) == n
  {
    if n > 0 {
      assert !Throws(responses[..n][0]);
      assert responses[1..][..n - 1] == responses[..n][1..];
      FirstThrowAt(responses[1..], n - 1);
    }
  }

  lemma AcceptedRecordsStep(responses: seq<SubscribeResponse>, i: nat)
    requires i < |responses|
    ensures AcceptedRecords(responses[..i + 1]) == AcceptedRecords(responses[..i]) + RecordsOf(responses[i])
    ensures !Throws(responses[i]) && NoneThrows(responses[..i]) ==> NoneThrows(responses[..i + 1])
  {
    assert responses[..i + 1][..i] == responses[..i];
  }

  lemma {:induction false} FirstThrowIsFirst(responses: seq<SubscribeResponse>)
    ensures NoneThrows(responses[..FirstThrow(responses)])
    ensures forall i :: 0 <= i < FirstThrow(responses) ==> !ResponseOutcome(responses[i]).Threw?
    ensures FirstThrow(responses) < |responses| ==> ResponseOutcome(responses[FirstThrow(responses)]).Threw?
  {
    var n := FirstThrow(responses);
    if n > 0 {
      FirstThrowIsFirst(responses[1..]);
      forall i | 0 <= i < n ensures !Throws(responses[..n][i]) {
        assert i > 0 ==> responses[..n][i] == responses[1..][..n - 1][i - 1];
      }
    }
  }

  lemma AcceptedRecordsAdd(responses: seq<SubscribeResponse>, response: SubscribeResponse)
    ensures AcceptedRecords(responses + [response]) == AcceptedRecords(responses) + RecordsOf(response)
  {
    assert (responses + [response])[..|responses|] == responses;
  }

  lemma {:induction false} AcceptedRecordsConcat(a: seq<SubscribeResponse>, b: seq<SubscribeResponse>)
    ensures AcceptedRecords(a + b) == AcceptedRecords(a) + AcceptedRecords(b)
  {
    if b == [] {
      assert a + b == a;
    } else {
      var front, last := b[..|b| - 1], b[|b| - 1];
      AcceptedRecordsConcat(a, front);
      assert b == front + [last];
      AcceptedRecordsAdd(front, last);
      Assoc(a, front, [last]);
      AcceptedRecordsAdd(a + front, last);
      Assoc(AcceptedRecords(a), AcceptedRecords(front), RecordsOf(last));
    }
  }

  // ----- what is stored -----

  /** Record k is that of response at[k]; these are the accepted responses, each once, in order. */
  ghost predicate StoredAt(responses: seq<SubscribeResponse>, records: seq<PbrRecord>, at: seq<int>) {
    && |at| == |records|
    && (forall k :: 0 <= k < |at| ==>
          0 <= at[k] < |responses| && ResponseOutcome(responses[at[k]]) == Accepted(records[k]))
    && (forall j, k :: 0 <= j < k < |at| ==> at[j] < at[k])
    && (forall i :: 0 <= i < |responses| && ResponseOutcome(responses[i]).Accepted? ==> i in at)
  }

  ghost predicate Stored(responses: seq<SubscribeResponse>, records: seq<PbrRecord>) {
    exists at :: StoredAt(responses, records, at)
  }

  lemma StoredMore(responses: seq<SubscribeResponse>, records: seq<PbrRecord>, at: seq<int>, last: SubscribeResponse)
    requires StoredAt(responses, records, at)
    ensures ResponseOutcome(last).Accepted? ==>
              StoredAt(responses + [last], records + [ResponseOutcome(last).record], at + [|responses|])
    ensures !ResponseOutcome(last).Accepted? ==> StoredAt(responses + [last], records, at)
  {
    var more := responses + [last];
    assert more[..|responses|] == responses && more[|responses|] == last;
    if ResponseOutcome(last).Accepted? {
      assert (at + [|responses|])[|at|] == |responses|;
      forall i | 0 <= i < |more| && ResponseOutcome(more[i]).Accepted? ensures i in at + [|responses|] {
        assert i < |responses| ==> i in at;
      }
    }
  }

  /** The stored records are those of the accepted responses, unchanged. */
  lemma {:induction false} AcceptedRecordsStored(responses: seq<SubscribeResponse>)
    ensures Stored(responses, AcceptedRecords(responses))
  {
    if responses == [] {
      assert StoredAt([], [], []);
    } else {
      var n := |responses| - 1;
      AcceptedRecordsStored(responses[..n]);
      var at :| StoredAt(responses[..n], AcceptedRecords(responses[..n]), at);
      StoredMore(responses[..n], AcceptedRecords(responses[..n]), at, responses[n]);
      assert responses == responses[..n] + [responses[n]];
      OneRecord(responses[n]);
      if ResponseOutcome(responses[n]).Accepted? {
        assert StoredAt(responses, AcceptedRecords(responses), at + [n]);
      } else {
        assert AcceptedRecords(responses) == AcceptedRecords(responses[..n]);
        assert StoredAt(responses, AcceptedRecords(responses), at);
      }
    }
  }

  lemma OneRecord(response: SubscribeResponse)
    ensures RecordsOf(response)
         == if ResponseOutcome(response).Accepted? then [ResponseOutcome(response).record] else []
  {
  }

  lemma IncreasingUpTo(at: seq<int>, k: nat)
    requires k < |at| && forall i, j :: 0 <= i < j < |at| ==> at[i] < at[j]
    ensures at[k] <= at[|at| - 1]
  {
  }

  lemma NothingStored(responses: seq<SubscribeResponse>, records: seq<PbrRecord>, at: seq<int>)
    requires StoredAt(responses, records, at)
    ensures responses == [] ==> records == []
  {
    if at != [] {
      assert 0 <= at[0] < |responses|;
    }
  }

  lemma StoredFront(responses: seq<SubscribeResponse>, records: seq<PbrRecord>, at: seq<int>)
    requires responses != [] && StoredAt(responses, records, at)
    requires ResponseOutcome(responses[|responses| - 1]).Accepted?
    ensures records != [] && ResponseOutcome(responses[|responses| - 1]) == Accepted(records[|records| - 1])
    ensures StoredAt(responses[..|responses| - 1], records[..|records| - 1], at[..|at| - 1])
  {
    var n, m := |responses| - 1, |at| - 1;
    assert responses[n] == responses[|responses| - 1];
    var k :| 0 <= k < |at| && at[k] == n;
    IncreasingUpTo(at, k);
    assert at[m] == n;
    var front := responses[..n];
    forall i | 0 <= i < n && ResponseOutcome(front[i]).Accepted? ensures i in at[..m] {
      assert responses[i] == front[i];
      var j :| 0 <= j < |at| && at[j] == i;
      assert at[..m][j] == i;
    }
    forall j | 0 <= j < m ensures 0 <= at[j] < n && ResponseOutcome(front[at[j]]) == Accepted(records[j]) {
      assert at[j] < at[m];
      assert front[at[j]] == responses[at[j]];
    }
  }

  lemma StoredBefore(responses: seq<SubscribeResponse>, records: seq<PbrRecord>, at: seq<int>)
    requires responses != [] && StoredAt(responses, records, at)
    requires !ResponseOutcome(responses[|responses| - 1]).Accepted?
    ensures StoredAt(responses[..|responses| - 1], records, at)
  {
    var n := |responses| - 1;
    var front := responses[..n];
    forall j | 0 <= j < |at| ensures 0 <= at[j] < n && ResponseOutcome(front[at[j]]) == Accepted(records[j]) {
      assert at[j] != n;
      assert front[at[j]] == responses[at[j]];
    }
    forall i | 0 <= i < n && ResponseOutcome(front[i]).Accepted? ensures i in at {
      assert responses[i] == front[i];
    }
  }

  lemma LastStored(responses: seq<SubscribeResponse>, records: seq<PbrRecord>)
    requires responses != [] && records != []
    requires ResponseOutcome(responses[|responses| - 1]) == Accepted(records[|records| - 1])
    requires records[..|records| - 1] == AcceptedRecords(responses[..|responses| - 1])
    ensures records == AcceptedRecords(responses)
  {
    OneRecord(responses[|responses| - 1]);
    FrontAndLast(records);
  }

  lemma FrontAndLast<T>(s: seq<T>)
    requires s != []
    ensures s == s[..|s| - 1] + [s[|s| - 1]]
  {
  }

  lemma LastNotStored(responses: seq<SubscribeResponse>, records: seq<PbrRecord>)
    requires responses != [] && !ResponseOutcome(responses[|responses| - 1]).Accepted?
    requires records == AcceptedRecords(responses[..|responses| - 1])
    ensures records == AcceptedRecords(responses)
  {
    OneRecord(responses[|responses| - 1]);
    NothingMore(records);
  }

  lemma NothingMore<T>(s: seq<T>)
    ensures s + [] == s
  {
  }

  /** The responses leave no choice of what is stored. */
  lemma {:induction false} StoredOnce(responses: seq<SubscribeResponse>, records: seq<PbrRecord>)
    requires Stored(responses, records)
    ensures records == AcceptedRecords(responses)
  {
    var at :| StoredAt(responses, records, at);
    if responses == [] {
      NothingStored(responses, records, at);
    } else if ResponseOutcome(responses[|responses| - 1]).Accepted? {
      StoredFront(responses, records, at);
      StoredOnce(responses[..|responses| - 1], records[..|records| - 1]);
      LastStored(responses, records);
    } else {
      StoredBefore(responses, records, at);
      StoredOnce(responses[..|responses| - 1], records);
      LastNotStored(responses, records);
    }
  }

  /** The first n responses are read without a throw, the next one throws, and this is what they store. */
  ghost predicate ReadUpTo(responses: seq<SubscribeResponse>, n: nat, records: seq<PbrRecord>) {
    && n <= |responses|
    && (forall i :: 0 <= i < n ==> !ResponseOutcome(responses[i]).Threw?)
    && (n < |responses| ==> ResponseOutcome(responses[n]).Threw?)
    && Stored(responses[..n], records)
  }

  lemma ReadUpToFirstThrow(responses: seq<SubscribeResponse>)
    ensures ReadUpTo(responses, FirstThrow(responses), AcceptedRecords(responses[..FirstThrow(responses)]))
  {
    FirstThrowIsFirst(responses);
    AcceptedRecordsStored(responses[..FirstThrow(responses)]);
  }
}
