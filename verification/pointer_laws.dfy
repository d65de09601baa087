/** Flattening a document is listing what its JSON pointers (RFC 6901) resolve to. */
module PointerLaws {
  import opened Text
  import opened GnmiTypes
  import opened Decimal
  import opened JsonFlatten

  // ----- reference tokens -----

  /** RFC 6901, section 4: what an escaped reference token stands for. */
  function Unescape(text: string): string {
    if |text| >= 2 && text[0] == '~' && text[1] == '1' then "/" + Unescape(text[2..])
    else if |text| >= 2 && text[0] == '~' && text[1] == '0' then "~" + Unescape(text[2..])
    else if text == "" then ""
    else [text[0]] + Unescape(text[1..])
  }

  /** Escaping can be undone, and leaves no slash behind. */
  lemma {:induction false} EscapeRoundTrip(token: string)
    ensures Unescape(Escape(token)) == token && '/' !in Escape(token)
  {
    if token != "" {
      var rest := token[1..];
      EscapeRoundTrip(rest);
      assert token == [token[0]] + rest;
      if token[0] == '~' {
        assert ("~0" + Escape(rest))[2..] == Escape(rest);
      } else if token[0] == '/' {
        assert ("~1" + Escape(rest))[2..] == Escape(rest);
      } else {
        assert ([token[0]] + Escape(rest))[1..] == Escape(rest);
      }
    }
  }

  function PointerOf(tokens: seq<string>): string {
    if tokens == [] then "" else "/" + Escape(tokens[0]) + PointerOf(tokens[1..])
  }

  /** Following the tokens into the value ends at this primitive; an empty list or object counts as null. */
  ghost predicate Resolves(value: Json, tokens: seq<string>, leaf: Json)
    decreases |tokens|
  {
    if tokens == [] then
      match value
      case JArray(items) => items == [] && leaf == JNull
      case JObject(members) => members == [] && leaf == JNull
      case _ => leaf == value
    else
      match value
      case JArray(items) => exists k :: ItemResolves(items, k, tokens, leaf)
      case JObject(members) => exists k :: MemberResolves(members, k, tokens, leaf)
      case _ => false
  }

  ghost predicate ItemResolves(items: seq<Json>, k: int, tokens: seq<string>, leaf: Json)
    requires tokens != []
    decreases |tokens|, 0
  {
    0 <= k < |items| && tokens[0] == NatText(k) && Resolves(items[k], tokens[1..], leaf)
  }

  ghost predicate MemberResolves(members: seq<Member>, k: int, tokens: seq<string>, leaf: Json)
    requires tokens != []
    decreases |tokens|, 0
  {
    0 <= k < |members| && tokens[0] == members[k].name && Resolves(members[k].value, tokens[1..], leaf)
  }

  lemma IndexIsPlain(k: nat)
    ensures Escape(NatText(k)) == NatText(k)
  {
    NatTextIsNumeral(k);
    assert forall c :: c in NatText(k) ==> '0' <= c <= '9';
    PlainEscape(NatText(k));
  }

  lemma PointerOfFirst(pointer: string, token: string, rest: seq<string>)
    ensures pointer + PointerOf([token] + rest) == pointer + "/" + Escape(token) + PointerOf(rest)
  {
    assert ([token] + rest)[1..] == rest;
  }

  // ----- every entry is resolved by its pointer -----

  lemma {:induction false} EntryResolves(pointer: string, value: Json, e: Entry) returns (tokens: seq<string>)
    requires e in Leaves(pointer, value)
    ensures e.pointer == pointer + PointerOf(tokens) && Resolves(value, tokens, e.value)
    decreases value, 0
  {
    tokens := [];
    if value.JArray? && value.items != [] {
      var k, rest := ItemEntryResolves(pointer, value.items, 0, e);
      tokens := [NatText(k)] + rest;
      IndexIsPlain(k);
      PointerOfFirst(pointer, NatText(k), rest);
      assert tokens[1..] == rest;
      assert ItemResolves(value.items, k, tokens, e.value);
    } else if value.JObject? && value.members != [] {
      var k, rest := MemberEntryResolves(pointer, value.members, e);
      tokens := [value.members[k].name] + rest;
      PointerOfFirst(pointer, value.members[k].name, rest);
      assert tokens[1..] == rest;
      assert MemberResolves(value.members, k, tokens, e.value);
    }
  }

  lemma {:induction false} ItemEntryResolves(pointer: string, items: seq<Json>, first: nat, e: Entry)
    returns (k: nat, rest: seq<string>)
    requires e in ItemLeaves(pointer, items, first)
    ensures first <= k < first + |items|
    ensures e.pointer == pointer + "/" + NatText(k) + PointerOf(rest) && Resolves(items[k - first], rest, e.value)
    decreases items, 1
  {
    if e in Leaves(pointer + "/" + NatText(first), items[0]) {
      k := first;
      rest := EntryResolves(pointer + "/" + NatText(first), items[0], e);
    } else {
      k, rest := ItemEntryResolves(pointer, items[1..], first + 1, e);
    }
  }

  lemma {:induction false} MemberEntryResolves(pointer: string, members: seq<Member>, e: Entry)
    returns (k: nat, rest: seq<string>)
    requires e in MemberLeaves(pointer, members)
    ensures k < |members|
    ensures e.pointer == pointer + "/" + Escape(members[k].name) + PointerOf(rest)
    ensures Resolves(members[k].value, rest, e.value)
    decreases members, 1
  {
    if e in Leaves(pointer + "/" + Escape(members[0].name), members[0].value) {
      k := 0;
      rest := EntryResolves(pointer + "/" + Escape(members[0].name), members[0].value, e);
    } else {
      k, rest := MemberEntryResolves(pointer, members[1..], e);
      k := k + 1;
    }
  }

  // ----- whatever resolves is an entry -----

  lemma {:induction false} ItemHasEntry(pointer: string, items: seq<Json>, first: nat, k: nat, e: Entry)
    requires k < |items| && e in Leaves(pointer + "/" + NatText(first + k), items[k])
    ensures e in ItemLeaves(pointer, items, first)
    decreases k
  {
    if k > 0 {
      assert items[1..][k - 1] == items[k] && first + 1 + (k - 1) == first + k;
      ItemHasEntry(pointer, items[1..], first + 1, k - 1, e);
    }
  }

  lemma {:induction false} MemberHasEntry(pointer: string, members: seq<Member>, k: nat, e: Entry)
    requires k < |members| && e in Leaves(pointer + "/" + Escape(members[k].name), members[k].value)
    ensures e in MemberLeaves(pointer, members)
    decreases k
  {
    if k > 0 {
      assert members[1..][k - 1] == members[k];
      MemberHasEntry(pointer, members[1..], k - 1, e);
    }
  }

  lemma {:induction false} ResolvedIsEntry(pointer: string, value: Json, tokens: seq<string>, leaf: Json)
    requires Resolves(value, tokens, leaf)
    ensures Entry(pointer + PointerOf(tokens), leaf) in Leaves(pointer, value)
    decreases |tokens|
  {
    if tokens == [] {
      assert pointer + PointerOf(tokens) == pointer;
    } else {
      assert tokens == [tokens[0]] + tokens[1..];
      PointerOfFirst(pointer, tokens[0], tokens[1..]);
      var e := Entry(pointer + PointerOf(tokens), leaf);
      if value.JArray? {
        var k :| ItemResolves(value.items, k, tokens, leaf);
        IndexIsPlain(k);
        ResolvedIsEntry(pointer + "/" + NatText(k), value.items[k], tokens[1..], leaf);
        ItemHasEntry(pointer, value.items, 0, k, e);
      } else {
        var k :| MemberResolves(value.members, k, tokens, leaf);
        ResolvedIsEntry(pointer + "/" + Escape(tokens[0]), value.members[k].value, tokens[1..], leaf);
        MemberHasEntry(pointer, value.members, k, e);
      }
    }
  }

  /** The entries of a document are exactly the pointers that resolve to a primitive, with that primitive. */
  lemma LeavesResolve(document: Json, e: Entry)
    ensures e in Leaves("", document)
       <==> exists tokens :: e.pointer == PointerOf(tokens) && Resolves(document, tokens, e.value)
  {
    if e in Leaves("", document) {
      var tokens := EntryResolves("", document, e);
      assert "" + PointerOf(tokens) == PointerOf(tokens);
    }
    if tokens :| e.pointer == PointerOf(tokens) && Resolves(document, tokens, e.value) {
      ResolvedIsEntry("", document, tokens, e.value);
      assert "" + PointerOf(tokens) == PointerOf(tokens);
    }
  }

  // ----- the ordered object -----

  /** The order of strings: at the first difference the smaller character, or the end, comes first. */
  lemma {:induction false} LessMeans(a: string, b: string)
    ensures Less(a, b) <==> exists k :: FirstDifference(a, b, k)
  {
    if b != "" && a != "" && a[0] == b[0] {
      LessMeans(a[1..], b[1..]);
      if k :| FirstDifference(a[1..], b[1..], k) {
        assert a[..k + 1] == [a[0]] + a[1..][..k] && b[..k + 1] == [b[0]] + b[1..][..k];
        assert FirstDifference(a, b, k + 1);
      }
      if k :| FirstDifference(a, b, k) {
        assert k > 0;
        assert a[1..][..k - 1] == a[..k][1..] && b[1..][..k - 1] == b[..k][1..];
        assert FirstDifference(a[1..], b[1..], k - 1);
      }
    } else {
      assert Less(a, b) ==> FirstDifference(a, b, 0);
      forall k | FirstDifference(a, b, k) ensures Less(a, b) {
        DifferenceBehind(a, b, k);
      }
    }
  }

  predicate FirstDifference(a: string, b: string, k: int) {
    0 <= k <= |a| && k < |b| && a[..k] == b[..k] && (k == |a| || a[k] < b[k])
  }

  lemma DifferenceBehind(a: string, b: string, k: int)
    ensures FirstDifference(a, b, k) ==> k == 0 || (a != "" && b != "" && a[0] == b[0])
  {
    if FirstDifference(a, b, k) && k > 0 {
      assert a[0] == a[..k][0] == b[..k][0] == b[0];
    }
  }

  lemma {:induction false} LessDiffers(a: string, b: string)
    requires Less(a, b)
    ensures a != b
  {
    if a != "" && a[0] == b[0] {
      LessDiffers(a[1..], b[1..]);
    }
  }

  lemma {:induction false} AssignMembers(entries: seq<Entry>, e: Entry, x: Entry)
    requires Sorted(entries)
    ensures x in Assign(entries, e) <==> x == e || (x in entries && x.pointer != e.pointer)
  {
    if entries != [] {
      var head, rest := entries[0], entries[1..];
      assert entries == [head] + rest;
      if Less(e.pointer, head.pointer) {
        LessDiffers(e.pointer, head.pointer);
        forall y | y in rest ensures y.pointer != e.pointer {
          var j :| 0 <= j < |rest| && rest[j] == y;
          assert entries[j + 1] == y;
          LessTransitive(e.pointer, head.pointer, y.pointer);
          LessDiffers(e.pointer, y.pointer);
        }
      } else if e.pointer == head.pointer {
        forall y | y in rest ensures y.pointer != e.pointer {
          var j :| 0 <= j < |rest| && rest[j] == y;
          assert entries[j + 1] == y;
          LessDiffers(head.pointer, y.pointer);
        }
      } else {
        AssignMembers(rest, e, x);
      }
    }
  }

  /** The i-th leaf is the last one with its pointer. */
  ghost predicate LastLeaf(leaves: seq<Entry>, i: int) {
    0 <= i < |leaves| && forall j :: i < j < |leaves| ==> leaves[j].pointer != leaves[i].pointer
  }

  ghost predicate SomeLastLeaf(leaves: seq<Entry>, x: Entry) {
    exists i :: LastLeaf(leaves, i) && leaves[i] == x
  }

  ghost predicate PointerUsed(leaves: seq<Entry>, pointer: string) {
    exists i :: 0 <= i < |leaves| && leaves[i].pointer == pointer
  }

  lemma LastLeafOfRest(leaves: seq<Entry>, x: Entry)
    requires leaves != []
    ensures SomeLastLeaf(leaves, x)
       <==> SomeLastLeaf(leaves[1..], x) || (x == leaves[0] && !PointerUsed(leaves[1..], x.pointer))
    ensures PointerUsed(leaves, x.pointer) <==> leaves[0].pointer == x.pointer || PointerUsed(leaves[1..], x.pointer)
  {
    var rest := leaves[1..];
    if i :| LastLeaf(rest, i) && rest[i] == x {
      forall j | i + 1 < j < |leaves| ensures leaves[j].pointer != x.pointer {
        assert leaves[j] == rest[j - 1];
      }
      assert LastLeaf(leaves, i + 1);
    }
    if i :| LastLeaf(leaves, i) && leaves[i] == x {
      if i > 0 {
        assert rest[i - 1] == x;
        forall j | i - 1 < j < |rest| ensures rest[j].pointer != x.pointer {
          assert rest[j] == leaves[j + 1];
        }
        assert LastLeaf(rest, i - 1);
      } else {
        forall j | 0 <= j < |rest| ensures rest[j].pointer != x.pointer {
          assert rest[j] == leaves[j + 1];
        }
      }
    }
    if x == leaves[0] && !PointerUsed(rest, x.pointer) {
      forall j | 0 < j < |leaves| ensures leaves[j].pointer != x.pointer {
        assert leaves[j] == rest[j - 1];
      }
      assert LastLeaf(leaves, 0);
    }
    if i :| 0 <= i < |leaves| && leaves[i].pointer == x.pointer {
      assert i > 0 ==> rest[i - 1] == leaves[i];
    }
    if i :| 0 <= i < |rest| && rest[i].pointer == x.pointer {
      assert leaves[i + 1] == rest[i];
    }
  }

  lemma {:induction false} AssignAllMembers(entries: seq<Entry>, leaves: seq<Entry>, x: Entry)
    requires Sorted(entries)
    ensures x in AssignAll(entries, leaves)
       <==> SomeLastLeaf(leaves, x) || (x in entries && !PointerUsed(leaves, x.pointer))
    decreases |leaves|
  {
    if leaves != [] {
      AssignSorted(entries, leaves[0]);
      AssignMembers(entries, leaves[0], x);
      AssignAllMembers(Assign(entries, leaves[0]), leaves[1..], x);
      LastLeafOfRest(leaves, x);
    }
  }

  /** Flattening keeps, for every pointer, the last leaf that has it. */
  lemma FlattenKeepsLast(document: Json, x: Entry)
    ensures x in Flatten(document) <==> SomeLastLeaf(Leaves("", document), x)
  {
    AssignAllMembers([], Leaves("", document), x);
  }
}
