/**
 * json::flatten(): a document becomes a list of (pointer, primitive) entries. Pointers are
 * JSON pointers (RFC 6901); the entries form an object, so they are ordered by pointer.
 */
module JsonFlatten {
  import opened Text
  import opened GnmiTypes
  import opened Decimal

  datatype Entry = Entry(pointer: string, value: Json)

  /** RFC 6901, section 3: '~' and '/' are escaped inside a reference token. */
  function Escape(token: string): string {
    if token == "" then ""
    else if token[0] == '~' then "~0" + Escape(token[1..])
    else if token[0] == '/' then "~1" + Escape(token[1..])
    else [token[0]] + Escape(token[1..])
  }

  /** The entries below `pointer`, in document order; an empty list or object counts as null. */
  function Leaves(pointer: string, value: Json): seq<Entry>
    decreases value, 0
  {
    match value
    case JArray(items) => if items == [] then [Entry(pointer, JNull)] else ItemLeaves(pointer, items, 0)
    case JObject(members) => if members == [] then [Entry(pointer, JNull)] else MemberLeaves(pointer, members)
    case _ => [Entry(pointer, value)]
  }

  function ItemLeaves(pointer: string, items: seq<Json>, first: nat): seq<Entry>
    decreases items, 1
  {
    if items == [] then []
    else Leaves(pointer + "/" + NatText(first), items[0]) + ItemLeaves(pointer, items[1..], first + 1)
  }

  function MemberLeaves(pointer: string, members: seq<Member>): seq<Entry>
    decreases members, 1
  {
    if members == [] then []
    else Leaves(pointer + "/" + Escape(members[0].name), members[0].value) + MemberLeaves(pointer, members[1..])
  }

  /** The order of std::string. */
  predicate Less(a: string, b: string) {
    b != "" && (a == "" || a[0] < b[0] || (a[0] == b[0] && Less(a[1..], b[1..])))
  }

  /** Assigning one key of an ordered object. */
  function Assign(entries: seq<Entry>, e: Entry): seq<Entry> {
    if entries == [] || Less(e.pointer, entries[0].pointer) then [e] + entries
    else if e.pointer == entries[0].pointer then [e] + entries[1..]
    else [entries[0]] + Assign(entries[1..], e)
  }

  function AssignAll(entries: seq<Entry>, leaves: seq<Entry>): seq<Entry>
    decreases |leaves|
  {
    if leaves == [] then entries else AssignAll(Assign(entries, leaves[0]), leaves[1..])
  }

  function Flatten(document: Json): seq<Entry> {
    AssignAll([], Leaves("", document))
  }

  lemma {:induction false} MemberLeavesAppend(pointer: string, a: seq<Member>, b: seq<Member>)
    ensures MemberLeaves(pointer, a + b) == MemberLeaves(pointer, a) + MemberLeaves(pointer, b)
  {
    if a == [] {
      assert a + b == b;
    } else {
      MemberLeavesAppend(pointer, a[1..], b);
      assert (a + b)[1..] == a[1..] + b;
      Assoc(Leaves(pointer + "/" + Escape(a[0].name), a[0].value),
            MemberLeaves(pointer, a[1..]), MemberLeaves(pointer, b));
    }
  }

  lemma {:induction false} PlainEscape(token: string)
    requires '~' !in token && '/' !in token
    ensures Escape(token) == token
  {
    if token != "" {
      PlainEscape(token[1..]);
    }
  }

  // ----- every pointer is empty or starts with '/' -----

  predicate Below(pointer: string, e: Entry) {
    pointer <= e.pointer && (|pointer| < |e.pointer| ==> e.pointer[|pointer|] == '/')
  }

  lemma {:induction false} LeavesAreBelow(pointer: string, value: Json)
    ensures forall e :: e in Leaves(pointer, value) ==> Below(pointer, e)
    decreases value, 0
  {
    match value
    case JArray(items) =>
      if items != [] { ItemLeavesAreBelow(pointer, items, 0); }
    case JObject(members) =>
      if members != [] { MemberLeavesAreBelow(pointer, members); }
    case _ =>
  }

  lemma {:induction false} ItemLeavesAreBelow(pointer: string, items: seq<Json>, first: nat)
    ensures forall e :: e in ItemLeaves(pointer, items, first) ==> Below(pointer, e)
    decreases items, 1
  {
    if items != [] {
      LeavesAreBelow(pointer + "/" + NatText(first), items[0]);
      BelowToken(pointer, NatText(first), Leaves(pointer + "/" + NatText(first), items[0]));
      ItemLeavesAreBelow(pointer, items[1..], first + 1);
    }
  }

  lemma {:induction false} MemberLeavesAreBelow(pointer: string, members: seq<Member>)
    ensures forall e :: e in MemberLeaves(pointer, members) ==> Below(pointer, e)
    decreases members, 1
  {
    if members != [] {
      var token := Escape(members[0].name);
      LeavesAreBelow(pointer + "/" + token, members[0].value);
      BelowToken(pointer, token, Leaves(pointer + "/" + token, members[0].value));
      MemberLeavesAreBelow(pointer, members[1..]);
    }
  }

  lemma BelowToken(pointer: string, token: string, entries: seq<Entry>)
    requires forall e :: e in entries ==> Below(pointer + "/" + token, e)
    ensures forall e :: e in entries ==> Below(pointer, e)
  {
    forall e | e in entries ensures Below(pointer, e) {
      var longer := pointer + "/" + token;
      assert longer <= e.pointer && longer[|pointer|] == '/' && pointer <= longer;
    }
  }

  lemma {:induction false} AssignAdds(entries: seq<Entry>, e: Entry)
    ensures e in Assign(entries, e)
    ensures forall x :: x in Assign(entries, e) ==> x == e || x in entries
    ensures forall x :: x in entries && x.pointer != e.pointer ==> x in Assign(entries, e)
  {
    if entries != [] && !Less(e.pointer, entries[0].pointer) && e.pointer != entries[0].pointer {
      AssignAdds(entries[1..], e);
    }
  }

  lemma {:induction false} AssignAllAdds(entries: seq<Entry>, leaves: seq<Entry>)
    ensures forall x :: x in AssignAll(entries, leaves) ==> x in leaves || x in entries
    decreases |leaves|
  {
    if leaves != [] {
      AssignAdds(entries, leaves[0]);
      AssignAllAdds(Assign(entries, leaves[0]), leaves[1..]);
    }
  }

  predicate PointerForm(pointer: string) {
    pointer == "" || pointer[0] == '/'
  }

  /** Flattened keys are empty or start with '/', whatever the document. */
  lemma FlattenedPointers(document: Json)
    ensures forall e :: e in Flatten(document) ==> PointerForm(e.pointer)
  {
    LeavesAreBelow("", document);
    AssignAllAdds([], Leaves("", document));
  }

  // ----- distinct leaves all survive -----

  predicate DistinctPointers(leaves: seq<Entry>) {
    forall i, j :: 0 <= i < j < |leaves| ==> leaves[i].pointer != leaves[j].pointer
  }

  lemma {:induction false} AssignAllKeeps(entries: seq<Entry>, leaves: seq<Entry>)
    requires DistinctPointers(leaves)
    ensures forall x :: x in leaves ==> x in AssignAll(entries, leaves)
    ensures forall x :: x in entries && (forall y :: y in leaves ==> y.pointer != x.pointer) ==>
                          x in AssignAll(entries, leaves)
    decreases |leaves|
  {
    if leaves != [] {
      AssignAdds(entries, leaves[0]);
      AssignAllKeeps(Assign(entries, leaves[0]), leaves[1..]);
      forall y | y in leaves[1..] ensures y.pointer != leaves[0].pointer {
        var j :| 0 <= j < |leaves[1..]| && leaves[1..][j] == y;
        assert leaves[j + 1] == y;
      }
    }
  }

  /** With distinct pointers, flattening only reorders the leaves. */
  lemma FlattenDistinct(document: Json)
    requires DistinctPointers(Leaves("", document))
    ensures forall x :: x in Flatten(document) <==> x in Leaves("", document)
  {
    AssignAllAdds([], Leaves("", document));
    AssignAllKeeps([], Leaves("", document));
  }

  // ----- order -----

  lemma {:induction false} LessTransitive(a: string, b: string, c: string)
    requires Less(a, b) && Less(b, c)
    ensures Less(a, c)
  {
    if a != "" && a[0] == b[0] == c[0] {
      LessTransitive(a[1..], b[1..], c[1..]);
    }
  }

  lemma {:induction false} LessTotal(a: string, b: string)
    ensures Less(a, b) || a == b || Less(b, a)
  {
    if a != "" && b != "" && a[0] == b[0] {
      LessTotal(a[1..], b[1..]);
      assert a == [a[0]] + a[1..] && b == [b[0]] + b[1..];
    }
  }

  predicate Sorted(entries: seq<Entry>) {
    forall i, j :: 0 <= i < j < |entries| ==> Less(entries[i].pointer, entries[j].pointer)
  }

  lemma {:induction false} AssignSorted(entries: seq<Entry>, e: Entry)
    requires Sorted(entries)
    ensures Sorted(Assign(entries, e))
  {
    if entries != [] {
      var head, rest := entries[0], entries[1..];
      LessTotal(e.pointer, head.pointer);
      if Less(e.pointer, head.pointer) {
        forall j | 0 < j < |entries| ensures Less(e.pointer, entries[j].pointer) {
          LessTransitive(e.pointer, head.pointer, entries[j].pointer);
        }
      } else if e.pointer != head.pointer {
        AssignSorted(rest, e);
        AssignAdds(rest, e);
        forall x | x in Assign(rest, e) ensures Less(head.pointer, x.pointer) {
          if x != e {
            assert x in rest;
          }
        }
      }
    }
  }

  lemma {:induction false} AssignAllSorted(entries: seq<Entry>, leaves: seq<Entry>)
    requires Sorted(entries)
    ensures Sorted(AssignAll(entries, leaves))
    decreases |leaves|
  {
    if leaves != [] {
      AssignSorted(entries, leaves[0]);
      AssignAllSorted(Assign(entries, leaves[0]), leaves[1..]);
    }
  }

  /** The entries of a document are strictly ordered by pointer, so no pointer comes twice. */
  lemma FlattenSorted(document: Json)
    ensures Sorted(Flatten(document))
  {
    AssignAllSorted([], Leaves("", document));
  }

  // ----- leaving entries out -----

  /** The entries whose pointer is not dropped. */
  function Without(entries: seq<Entry>, dropped: string -> bool): seq<Entry> {
    if entries == [] then []
    else if dropped(entries[0].pointer) then Without(entries[1..], dropped)
    else [entries[0]] + Without(entries[1..], dropped)
  }

  lemma {:induction false} WithoutAppend(a: seq<Entry>, b: seq<Entry>, dropped: string -> bool)
    ensures Without(a + b, dropped) == Without(a, dropped) + Without(b, dropped)
  {
    if a == [] {
      assert a + b == b;
    } else {
      WithoutAppend(a[1..], b, dropped);
      assert (a + b)[1..] == a[1..] + b;
      assert [a[0]] + (Without(a[1..], dropped) + Without(b, dropped))
          == [a[0]] + Without(a[1..], dropped) + Without(b, dropped);
    }
  }

  lemma {:induction false} WithoutMembers(entries: seq<Entry>, dropped: string -> bool)
    ensures forall x :: x in Without(entries, dropped) <==> x in entries && !dropped(x.pointer)
  {
    if entries != [] {
      WithoutMembers(entries[1..], dropped);
    }
  }

  lemma AssignInFront(entries: seq<Entry>, e: Entry)
    requires forall x :: x in entries ==> Less(e.pointer, x.pointer)
    ensures Assign(entries, e) == [e] + entries
  {
    assert entries != [] ==> entries[0] in entries;
  }

  /** Leaving entries out commutes with assigning. */
  lemma {:induction false} AssignWithout(entries: seq<Entry>, e: Entry, dropped: string -> bool)
    requires Sorted(entries)
    ensures Without(Assign(entries, e), dropped)
         == if dropped(e.pointer) then Without(entries, dropped) else Assign(Without(entries, dropped), e)
  {
    if entries == [] {
      assert [e][1..] == [];
    } else {
      var head, rest := entries[0], entries[1..];
      assert !dropped(head.pointer) ==> Without(entries, dropped) == [head] + Without(rest, dropped);
      if Less(e.pointer, head.pointer) {
        assert ([e] + entries)[1..] == entries;
        WithoutMembers(entries, dropped);
        forall x | x in Without(entries, dropped) ensures Less(e.pointer, x.pointer) {
          if x != head {
            LessTransitive(e.pointer, head.pointer, x.pointer);
          }
        }
        AssignInFront(Without(entries, dropped), e);
      } else if e.pointer == head.pointer {
        assert ([e] + rest)[1..] == rest;
        assert ([head] + Without(rest, dropped))[1..] == Without(rest, dropped);
      } else {
        AssignWithout(rest, e, dropped);
        assert ([head] + Assign(rest, e))[1..] == Assign(rest, e);
        assert ([head] + Without(rest, dropped))[1..] == Without(rest, dropped);
      }
    }
  }

  lemma {:induction false} AssignAllWithout(entries: seq<Entry>, leaves: seq<Entry>, dropped: string -> bool)
    requires Sorted(entries)
    ensures Without(AssignAll(entries, leaves), dropped)
         == AssignAll(Without(entries, dropped), Without(leaves, dropped))
    decreases |leaves|
  {
    if leaves != [] {
      var e, rest := leaves[0], leaves[1..];
      AssignSorted(entries, e);
      AssignWithout(entries, e, dropped);
      AssignAllWithout(Assign(entries, e), rest, dropped);
      assert ([e] + Without(rest, dropped))[1..] == Without(rest, dropped);
    }
  }

  /** Documents whose leaves differ only in what is left out flatten alike apart from that. */
  lemma FlattenWithout(a: Json, b: Json, dropped: string -> bool)
    requires Without(Leaves("", a), dropped) == Without(Leaves("", b), dropped)
    ensures Without(Flatten(a), dropped) == Without(Flatten(b), dropped)
  {
    AssignAllWithout([], Leaves("", a), dropped);
    AssignAllWithout([], Leaves("", b), dropped);
  }
}
