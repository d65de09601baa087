/** The rewriting of "/0/" to "/" in flattened JSON keys (mgbl_api.cpp:232-243). */
module PointerRewrite {
  import opened Text

  const ZERO_STEP := "/0/"

  /** std::regex_replace(key, "/0/", "/"): matches do not overlap, and the scan goes on behind them. */
  function ReplaceAll(key: string): string {
    if |key| < 3 then key
    else if key[..3] == ZERO_STEP then "/" + ReplaceAll(key[3..])
    else [key[0]] + ReplaceAll(key[1..])
  }

  // ----- the same, segment by segment -----

  /** The segments of a pointer that starts with '/'. */
  function Segments(pointer: string): seq<string>
    requires pointer != ""
  {
    Split(pointer[1..])
  }

  /** The length of the run of "0" segments in front, not counting the last segment. */
  function ZeroRun(segments: seq<string>): (k: nat)
    ensures segments == [] ==> k == 0
    ensures segments != [] ==> k < |segments|
  {
    if |segments| >= 2 && segments[0] == "0" then 1 + ZeroRun(segments[1..]) else 0
  }

  function Zeros(n: nat): (zeros: seq<string>)
    ensures |zeros| == n
  {
    if n == 0 then [] else ["0"] + Zeros(n - 1)
  }

  /** Each maximal run of k non-final zeros is halved; every other segment stays. */
  function HalveRuns(segments: seq<string>): seq<string> {
    if segments == [] then []
    else
      var k := ZeroRun(segments);
      Zeros(k / 2) + ([segments[k]] + HalveRuns(segments[k + 1..]))
  }

  /** What one left-to-right pass does: a zero is dropped and its successor is skipped over. */
  function DropEveryOther(segments: seq<string>): seq<string> {
    if |segments| <= 1 then segments
    else if segments[0] == "0" then [segments[1]] + DropEveryOther(segments[2..])
    else [segments[0]] + DropEveryOther(segments[1..])
  }

  lemma NoMatchHere(c: char, rest: string)
    requires c != '/'
    ensures ReplaceAll([c] + rest) == [c] + ReplaceAll(rest)
  {
    var key := [c] + rest;
    assert 3 <= |key| ==> key[..3][0] == c;
    assert key[1..] == rest;
    ReplaceHead(key);
  }

  lemma {:induction false} ReplaceSkips(segment: string, rest: string)
    requires '/' !in segment
    ensures ReplaceAll(segment + rest) == segment + ReplaceAll(rest)
  {
    if segment == "" {
      assert segment + rest == rest;
    } else {
      ReplaceSkips(segment[1..], rest);
      assert segment == [segment[0]] + segment[1..];
      Assoc([segment[0]], segment[1..], rest);
      NoMatchHere(segment[0], segment[1..] + rest);
      Assoc([segment[0]], segment[1..], ReplaceAll(rest));
    }
  }

  lemma SecondCharNotSlash(segment: string, key: string)
    requires '/' !in segment && 1 + |segment| <= |key| && key[1..1 + |segment|] == segment
    ensures |segment| >= 2 ==> key[2] != '/'
  {
    assert |segment| >= 2 ==> key[2] == key[1..1 + |segment|][1];
  }

  /** A match needs a whole "0" segment with another segment behind it. */
  lemma MatchIsZeroSegment(segments: seq<string>)
    requires segments != [] && SlashFree(segments)
    ensures var key := Slashed(segments);
            3 <= |key| && key[..3] == ZERO_STEP <==> |segments| >= 2 && segments[0] == "0"
  {
    var key, rest := Slashed(segments), Slashed(segments[1..]);
    assert key == "/" + segments[0] + rest;
    if |segments| >= 2 && segments[0] == "0" {
      assert rest[0] == '/';
    }
    if 3 <= |key| && key[..3] == ZERO_STEP {
      assert key[1] == key[..3][1] && key[2] == key[..3][2];
      assert segments[0] != "" && segments[0][0] == '0';
      SecondCharNotSlash(segments[0], key);
    }
  }

  lemma {:induction false} ReplaceDropsEveryOther(segments: seq<string>)
    requires SlashFree(segments)
    ensures ReplaceAll(Slashed(segments)) == Slashed(DropEveryOther(segments))
  {
    if segments != [] {
      MatchIsZeroSegment(segments);
      if |segments| >= 2 && segments[0] == "0" {
        ReplaceDropsEveryOther(segments[2..]);
        ReplaceMatch(segments);
        SlashedHead(segments[1], DropEveryOther(segments[2..]));
      } else {
        ReplaceDropsEveryOther(segments[1..]);
        ReplaceNoMatch(segments);
        SlashedHead(segments[0], DropEveryOther(segments[1..]));
        assert |segments| == 1 ==> DropEveryOther(segments) == [segments[0]] + DropEveryOther(segments[1..]);
      }
    }
  }

  lemma ReplaceMatch(segments: seq<string>)
    requires SlashFree(segments) && |segments| >= 2 && segments[0] == "0"
    ensures ReplaceAll(Slashed(segments)) == "/" + segments[1] + ReplaceAll(Slashed(segments[2..]))
  {
    var key := Slashed(segments);
    MatchIsZeroSegment(segments);
    assert segments[1..][1..] == segments[2..];
    var rest := segments[1] + Slashed(segments[2..]);
    assert Slashed(segments[1..]) == "/" + segments[1] + Slashed(segments[2..]);
    Assoc("/", segments[1], Slashed(segments[2..]));
    assert key == "/" + "0" + ("/" + rest);
    Assoc("/" + "0", "/", rest);
    assert "/" + "0" + "/" == ZERO_STEP;
    ReplaceAtMatch(rest);
    ReplaceSkips(segments[1], Slashed(segments[2..]));
    Assoc("/", segments[1], ReplaceAll(Slashed(segments[2..])));
  }

  lemma ReplaceNoMatch(segments: seq<string>)
    requires SlashFree(segments) && segments != [] && !(|segments| >= 2 && segments[0] == "0")
    ensures ReplaceAll(Slashed(segments)) == "/" + segments[0] + ReplaceAll(Slashed(segments[1..]))
  {
    var key := Slashed(segments);
    MatchIsZeroSegment(segments);
    var rest := segments[0] + Slashed(segments[1..]);
    Assoc("/", segments[0], Slashed(segments[1..]));
    assert key == "/" + rest && key[1..] == rest;
    ReplaceHead(key);
    ReplaceSkips(segments[0], Slashed(segments[1..]));
    Assoc("/", segments[0], ReplaceAll(Slashed(segments[1..])));
  }

  lemma ReplaceAtMatch(rest: string)
    ensures ReplaceAll(ZERO_STEP + rest) == "/" + ReplaceAll(rest)
  {
    var key := ZERO_STEP + rest;
    assert key[..3] == ZERO_STEP && key[3..] == rest;
  }

  lemma ReplaceHead(key: string)
    requires key != "" && !(3 <= |key| && key[..3] == ZERO_STEP)
    ensures ReplaceAll(key) == [key[0]] + ReplaceAll(key[1..])
  {
  }

  /** Where no run of zeros can begin: a last segment, or one that is not "0". */
  predicate RunEnds(segments: seq<string>) {
    segments != [] && (|segments| >= 2 ==> segments[0] != "0")
  }

  /** The run in front is maximal and consists of zeros. */
  lemma {:induction false} SplitOffRun(segments: seq<string>)
    requires segments != []
    ensures var k := ZeroRun(segments);
            && segments == Zeros(k) + segments[k..]
            && RunEnds(segments[k..]) && segments[k..][0] == segments[k] && segments[k..][1..] == segments[k + 1..]
  {
    var k := ZeroRun(segments);
    if k > 0 {
      SplitOffRun(segments[1..]);
      assert segments[1..][k - 1..] == segments[k..];
      assert segments == ["0"] + segments[1..];
      Assoc(["0"], Zeros(k - 1), segments[k..]);
    } else {
      assert segments[0..] == segments && Zeros(0) + segments == segments;
    }
  }

  lemma {:induction false} DropEveryOtherOfRun(k: nat, rest: seq<string>)
    requires RunEnds(rest)
    ensures DropEveryOther(Zeros(k) + rest) == Zeros(k / 2) + ([rest[0]] + DropEveryOther(rest[1..]))
  {
    var tail := [rest[0]] + DropEveryOther(rest[1..]);
    if k == 0 {
      assert Zeros(0) + rest == rest && Zeros(0) + tail == tail;
      assert |rest| == 1 ==> rest == [rest[0]] + [];
    } else if k == 1 {
      var segments := Zeros(1) + rest;
      assert segments[1] == rest[0] && segments[2..] == rest[1..];
      assert Zeros(0) + tail == tail;
    } else {
      DropEveryOtherOfRun(k - 2, rest);
      var segments := Zeros(k) + rest;
      assert Zeros(k)[2..] == Zeros(k - 2);
      assert segments[2..] == Zeros(k - 2) + rest;
      Assoc(["0"], Zeros((k - 2) / 2), tail);
    }
  }

  /** The first segment behind the run in front. */
  function BehindRun(segments: seq<string>): string
    requires segments != []
  {
    segments[ZeroRun(segments)]
  }

  function AfterRun(segments: seq<string>): (rest: seq<string>)
    requires segments != []
    ensures |rest| < |segments|
  {
    segments[ZeroRun(segments) + 1..]
  }

  lemma HalveRunsStep(segments: seq<string>)
    requires segments != []
    ensures HalveRuns(segments)
         == Zeros(ZeroRun(segments) / 2) + ([BehindRun(segments)] + HalveRuns(AfterRun(segments)))
  {
  }

  lemma RunInFront(segments: seq<string>)
    requires segments != []
    ensures segments == Zeros(ZeroRun(segments)) + ([BehindRun(segments)] + AfterRun(segments))
    ensures RunEnds([BehindRun(segments)] + AfterRun(segments))
  {
    SplitOffRun(segments);
    assert segments[ZeroRun(segments)..] == [BehindRun(segments)] + AfterRun(segments);
  }

  lemma {:induction false} DropEveryOtherHalves(segments: seq<string>)
    ensures DropEveryOther(segments) == HalveRuns(segments)
  {
    if segments != [] {
      var k := ZeroRun(segments);
      var x, rest := BehindRun(segments), AfterRun(segments);
      RunInFront(segments);
      DropEveryOtherHalves(rest);
      DropEveryOtherOfRun(k, [x] + rest);
      assert ([x] + rest)[1..] == rest;
      HalveRunsStep(segments);
    }
  }

  // ----- results -----

  predicate SlashFirst(pointer: string) {
    pointer != "" && pointer[0] == '/'
  }

  lemma {:induction false} ZerosSlashFree(n: nat)
    ensures SlashFree(Zeros(n))
  {
    if n > 0 {
      ZerosSlashFree(n - 1);
      SlashFreeHead("0", Zeros(n - 1));
    }
  }

  lemma SlashFreeHead(segment: string, rest: seq<string>)
    requires '/' !in segment && SlashFree(rest)
    ensures SlashFree([segment] + rest)
  {
  }

  lemma SlashFreeAppend(a: seq<string>, b: seq<string>)
    requires SlashFree(a) && SlashFree(b)
    ensures SlashFree(a + b)
  {
  }

  lemma {:induction false} HalveRunsSlashFree(segments: seq<string>)
    requires SlashFree(segments)
    ensures SlashFree(HalveRuns(segments))
    ensures segments != [] ==> HalveRuns(segments) != []
  {
    if segments != [] {
      var k := ZeroRun(segments);
      var x, rest := BehindRun(segments), AfterRun(segments);
      HalveRunsSlashFree(rest);
      ZerosSlashFree(k / 2);
      SlashFreeHead(x, HalveRuns(rest));
      SlashFreeAppend(Zeros(k / 2), [x] + HalveRuns(rest));
      HalveRunsStep(segments);
    }
  }

  /**
   * The single pass turns each maximal run of k non-final "0" segments into k/2 such
   * segments and keeps all other segments, in order.
   */
  lemma RewriteHalvesZeroRuns(pointer: string)
    requires SlashFirst(pointer)
    ensures ReplaceAll(pointer) == Slashed(HalveRuns(Segments(pointer)))
    ensures SlashFirst(ReplaceAll(pointer))
    ensures Segments(ReplaceAll(pointer)) == HalveRuns(Segments(pointer))
  {
    var segments := Segments(pointer);
    SlashedSplit(pointer[1..]);
    SplitIsSlashFree(pointer[1..]);
    assert pointer == "/" + pointer[1..];
    ReplaceDropsEveryOther(segments);
    DropEveryOtherHalves(segments);
    HalveRunsSlashFree(segments);
    SplitSlashed(HalveRuns(segments));
  }

  function NonZero(segments: seq<string>): seq<string> {
    if segments == [] then []
    else (if segments[0] == "0" then [] else [segments[0]]) + NonZero(segments[1..])
  }

  lemma {:induction false} NonZeroBehindZeros(n: nat, rest: seq<string>)
    ensures NonZero(Zeros(n) + rest) == NonZero(rest)
  {
    if n == 0 {
      assert Zeros(0) + rest == rest;
    } else {
      NonZeroBehindZeros(n - 1, rest);
      assert (Zeros(n) + rest)[1..] == Zeros(n - 1) + rest;
    }
  }

  lemma NonZeroOfHead(x: string, a: seq<string>, b: seq<string>)
    requires NonZero(a) == NonZero(b)
    ensures NonZero([x] + a) == NonZero([x] + b)
  {
    assert ([x] + a)[1..] == a && ([x] + b)[1..] == b;
  }

  /** The rewrite neither loses, adds, changes nor reorders a segment other than "0". */
  lemma {:induction false} HalveRunsKeepsTheRest(segments: seq<string>)
    ensures NonZero(HalveRuns(segments)) == NonZero(segments)
  {
    if segments != [] {
      var k := ZeroRun(segments);
      var x, rest := BehindRun(segments), AfterRun(segments);
      RunInFront(segments);
      HalveRunsKeepsTheRest(rest);
      HalveRunsStep(segments);
      NonZeroBehindZeros(k, [x] + rest);
      NonZeroBehindZeros(k / 2, [x] + HalveRuns(rest));
      NonZeroOfHead(x, HalveRuns(rest), rest);
    }
  }

  lemma LastBehind(a: seq<string>, x: string, b: seq<string>)
    ensures var all := a + ([x] + b); all[|all| - 1] == if b == [] then x else b[|b| - 1]
  {
  }

  /** The last segment is always kept, even when it is "0". */
  lemma {:induction false} HalveRunsKeepsLast(segments: seq<string>)
    requires segments != []
    ensures HalveRuns(segments) != []
    ensures HalveRuns(segments)[|HalveRuns(segments)| - 1] == segments[|segments| - 1]
  {
    var k := ZeroRun(segments);
    var x, rest := BehindRun(segments), AfterRun(segments);
    HalveRunsStep(segments);
    LastBehind(Zeros(k / 2), x, HalveRuns(rest));
    if rest != [] {
      HalveRunsKeepsLast(rest);
    }
  }

  lemma ZeroRunOfOneZero(after: seq<string>)
    requires RunEnds(after)
    ensures ZeroRun(["0"] + after) == 1 && ZeroRun(after) == 0
  {
    assert (["0"] + after)[1..] == after;
  }

  lemma LeadingZeroDropped(after: seq<string>)
    requires RunEnds(after)
    ensures HalveRuns(["0"] + after) == HalveRuns(after)
  {
    ZeroRunOfOneZero(after);
    assert (["0"] + after)[2..] == after[1..];
  }

  /** An isolated interior zero - not next to another one - disappears. */
  lemma {:induction false} IsolatedZeroDropped(before: seq<string>, after: seq<string>)
    requires RunEnds(after)
    requires before != [] ==> before[|before| - 1] != "0"
    ensures HalveRuns(before + (["0"] + after)) == HalveRuns(before + after)
    decreases |before|
  {
    var zero := ["0"] + after;
    if before == [] {
      assert before + zero == zero && before + after == after;
      LeadingZeroDropped(after);
    } else {
      HalveRunsOfPrefix(before, zero);
      HalveRunsOfPrefix(before, after);
      IsolatedZeroDropped(before[ZeroRun(before) + 1..], after);
    }
  }

  /** A run that ends inside `before` does not depend on what follows. */
  lemma {:induction false} ZeroRunPrefix(before: seq<string>, after: seq<string>)
    requires before != [] && before[|before| - 1] != "0" && after != []
    ensures ZeroRun(before + after) == ZeroRun(before) < |before|
  {
    assert (before + after)[1..] == before[1..] + after;
    if before[0] == "0" {
      ZeroRunPrefix(before[1..], after);
    }
  }

  lemma HalveRunsOfPrefix(before: seq<string>, after: seq<string>)
    requires before != [] && before[|before| - 1] != "0" && after != []
    ensures var k := ZeroRun(before);
            HalveRuns(before + after) == Zeros(k / 2) + ([before[k]] + HalveRuns(before[k + 1..] + after))
  {
    var k := ZeroRun(before);
    ZeroRunPrefix(before, after);
    assert (before + after)[k + 1..] == before[k + 1..] + after;
  }
}
