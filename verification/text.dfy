/** The few operations of std::string that the client relies on, and splitting on '/'. */
module Text {

  /** std::string::npos for a 64-bit size_type. */
  const NPOS: nat := 0xFFFF_FFFF_FFFF_FFFF

  /** The position of the first `c` in `s`, or |s| if there is none. */
  function IndexOf(s: string, c: char): (i: nat)
    ensures i <= |s|
    ensures i < |s| ==> s[i] == c
  {
    if s == "" || s[0] == c then 0 else 1 + IndexOf(s[1..], c)
  }

  /** std::string::find(c, start). */
  function Find(s: string, c: char, start: nat): (i: nat)
    ensures i == NPOS || start <= i
    ensures |s| <= NPOS && i != NPOS ==> i < |s| && s[i] == c
  {
    if |s| <= start then NPOS
    else
      var i := IndexOf(s[start..], c);
      if start + i == |s| then NPOS else start + i
  }

  /** std::string::substr(pos, count) for a position inside the string: the count is clamped. */
  function Substr(s: string, pos: nat, count: nat): string
    requires pos <= |s|
  {
    if |s| - pos <= count then s[pos..] else s[pos..pos + count]
  }

  /** Unsigned 64-bit subtraction, which wraps around. */
  function SizeSub(a: nat, b: nat): nat
    requires a <= NPOS && b <= NPOS
  {
    if b <= a then a - b else a + (NPOS + 1) - b
  }

  /** True when `sub` occurs in `s`: std::string::find(sub) != npos. */
  predicate Contains(s: string, sub: string) {
    exists i {:trigger s[i..]} :: 0 <= i <= |s| && sub <= s[i..]
  }

  /** Something in front, the text, something behind. */
  lemma ContainsMeans(s: string, sub: string)
    ensures Contains(s, sub) <==> exists front, back :: s == front + (sub + back)
  {
    if Contains(s, sub) {
      var i :| 0 <= i <= |s| && sub <= s[i..];
      assert s == s[..i] + (sub + s[i..][|sub|..]);
    }
    if front, back :| s == front + (sub + back) {
      assert s[|front|..] == sub + back;
    }
  }

  lemma {:induction false} IndexOfIsFirst(s: string, c: char)
    ensures c !in s[..IndexOf(s, c)]
  {
    var i := IndexOf(s, c);
    if i > 0 {
      IndexOfIsFirst(s[1..], c);
      assert s[..i] == [s[0]] + s[1..][..i - 1];
    }
  }

  lemma {:induction false} IndexOfUnique(s: string, c: char, i: nat)
    requires i <= |s| && c !in s[..i] && (i < |s| ==> s[i] == c)
    ensures IndexOf(s, c) == i
  {
    if i > 0 {
      assert s[0] == s[..i][0];
      assert s[1..][..i - 1] == s[..i][1..];
      IndexOfUnique(s[1..], c, i - 1);
    }
  }

  /** The first `c` of `a + rest`, when `a` has none and `rest` starts with one (or is empty). */
  lemma IndexOfAfter(a: string, rest: string, c: char)
    requires c !in a && (rest == "" || rest[0] == c)
    ensures IndexOf(a + rest, c) == |a|
  {
    assert (a + rest)[..|a|] == a;
    IndexOfUnique(a + rest, c, |a|);
  }

  lemma DifferentPlaces(s: string, c: char, d: char)
    requires c != d && IndexOf(s, c) < |s|
    ensures IndexOf(s, c) != IndexOf(s, d)
  {
    var i := IndexOf(s, c);
    assert s[i] == c;
  }

  lemma Assoc<T>(a: seq<T>, b: seq<T>, c: seq<T>)
    ensures a + (b + c) == a + b + c
  {
  }

  // ----- splitting on '/' -----

  /** The pieces between the slashes of `s`; a string without a slash is one piece. */
  function Split(s: string): (pieces: seq<string>)
    ensures |pieces| >= 1
    decreases |s|
  {
    var i := IndexOf(s, '/');
    if i == |s| then [s] else [s[..i]] + Split(s[i + 1..])
  }

  /** Every segment with a slash in front of it. */
  function Slashed(segments: seq<string>): string {
    if segments == [] then "" else "/" + segments[0] + Slashed(segments[1..])
  }

  predicate SlashFree(segments: seq<string>) {
    forall i :: 0 <= i < |segments| ==> '/' !in segments[i]
  }

  /** The first piece ends at the first slash. */
  lemma SplitOnce(head: string, rest: string)
    requires '/' !in head && (rest == "" || rest[0] == '/')
    ensures Split(head + rest) == if rest == "" then [head] else [head] + Split(rest[1..])
  {
    var s := head + rest;
    IndexOfAfter(head, rest, '/');
    if rest == "" {
      assert s == head;
    } else {
      assert s[..|head|] == head;
      assert s[|head| + 1..] == rest[1..];
    }
  }

  lemma SlashedTail(segments: seq<string>)
    requires segments != []
    ensures Slashed(segments) != "" && Slashed(segments)[0] == '/'
    ensures Slashed(segments)[1..] == segments[0] + Slashed(segments[1..])
  {
    assert Slashed(segments) == "/" + segments[0] + Slashed(segments[1..]);
  }

  /** Split undoes Slashed ... */
  lemma {:induction false} SplitSlashed(segments: seq<string>)
    requires segments != [] && SlashFree(segments)
    ensures Slashed(segments)[1..] == segments[0] + Slashed(segments[1..])
    ensures Split(Slashed(segments)[1..]) == segments
  {
    SlashedTail(segments);
    if |segments| == 1 {
      assert Slashed(segments[1..]) == "";
    } else {
      SplitSlashed(segments[1..]);
      SlashedTail(segments[1..]);
    }
    SplitOnce(segments[0], Slashed(segments[1..]));
    assert segments == [segments[0]] + segments[1..];
  }

  lemma SlashedHead(segment: string, rest: seq<string>)
    ensures Slashed([segment] + rest) == "/" + segment + Slashed(rest)
  {
    assert ([segment] + rest)[1..] == rest;
  }

  lemma SlashedOne(text: string)
    ensures Slashed([text]) == "/" + text
  {
    assert Slashed([text]) == "/" + text + Slashed([]);
  }

  lemma SlashedTwo(a: string, b: string)
    ensures Slashed([a, b]) == "/" + a + "/" + b
  {
    assert [a, b][1..] == [b] && Slashed([b]) == "/" + b;
  }

  lemma SlashedThree(a: string, b: string, c: string)
    ensures Slashed([a, b, c]) == "/" + a + "/" + b + "/" + c
  {
    SlashedTwo(b, c);
    assert [a, b, c][1..] == [b, c];
  }

  lemma SlashedFour(a: string, b: string, c: string, d: string)
    ensures Slashed([a, b, c, d]) == "/" + a + "/" + b + "/" + c + "/" + d
  {
    SlashedThree(b, c, d);
    assert [a, b, c, d][1..] == [b, c, d];
  }

  lemma SlashedFive(a: string, b: string, c: string, d: string, e: string)
    ensures Slashed([a, b, c, d, e]) == "/" + a + "/" + b + "/" + c + "/" + d + "/" + e
  {
    SlashedFour(b, c, d, e);
    assert [a, b, c, d, e][1..] == [b, c, d, e];
  }

  lemma CutAt(s: string, i: nat)
    requires i < |s| && s[i] == '/'
    ensures s == s[..i] + ("/" + s[i + 1..])
  {
  }

  /** ... and Slashed undoes Split. */
  lemma {:induction false} SlashedSplit(s: string)
    ensures Slashed(Split(s)) == "/" + s
    decreases |s|
  {
    var i := IndexOf(s, '/');
    if i < |s| {
      SlashedSplit(s[i + 1..]);
      SlashedHead(s[..i], Split(s[i + 1..]));
      CutAt(s, i);
      Assoc("/", s[..i], "/" + s[i + 1..]);
    } else {
      SlashedHead(s, []);
      assert [s] + [] == [s];
      assert Slashed([]) == "";
    }
  }

  lemma {:induction false} SplitIsSlashFree(s: string)
    ensures SlashFree(Split(s))
    decreases |s|
  {
    var i := IndexOf(s, '/');
    IndexOfIsFirst(s, '/');
    if i < |s| {
      SplitIsSlashFree(s[i + 1..]);
    } else {
      assert s[..i] == s;
    }
  }

  lemma {:induction false} SlashedAppend(a: seq<string>, b: seq<string>)
    ensures Slashed(a + b) == Slashed(a) + Slashed(b)
  {
    if a == [] {
      assert a + b == b;
    } else {
      SlashedAppend(a[1..], b);
      assert (a + b)[1..] == a[1..] + b;
    }
  }

  /** The pieces without a final empty one: a trailing slash starts no piece. */
  function Trim(pieces: seq<string>): seq<string>
    requires pieces != []
  {
    if pieces[|pieces| - 1] == "" then pieces[..|pieces| - 1] else pieces
  }

  function TrimmedSplit(s: string): seq<string> {
    Trim(Split(s))
  }

  lemma TrimPrepend(head: string, rest: seq<string>)
    requires rest != []
    ensures Trim([head] + rest) == [head] + Trim(rest)
  {
    assert ([head] + rest)[..|rest|] == [head] + rest[..|rest| - 1];
  }

  lemma TrimmedSplitStep(s: string)
    ensures s == "" ==> TrimmedSplit(s) == []
    ensures s != "" ==>
              var i := IndexOf(s, '/');
              TrimmedSplit(s) == [s[..i]] + (if i == |s| then [] else TrimmedSplit(s[i + 1..]))
  {
    var i := IndexOf(s, '/');
    if i < |s| {
      TrimPrepend(s[..i], Split(s[i + 1..]));
    } else {
      assert s[..i] == s;
    }
  }
}
