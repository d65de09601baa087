/** Request keys survive the trip through request paths, parsing and name scanning. */
module RequestLaws {
  import opened Results
  import opened Text
  import opened GnmiTypes
  import opened PathCodec
  import opened PathLaws
  import opened Requests
  import opened Pbr
  import Decoder
  import opened OutcomeLaws
  import DecoderLaws

  const PBR_STATS := PATH_ORIGIN + ":pbr-stats"

  /** The five elements that name a policy and a rule. */
  function KeyPath(key: PbrKey): Path {
    Path("", [
      PathElem(PBR_STATS, []),
      PathElem("policy-maps", []),
      PathElem("policy-map", [KeyValue("policy-name", key.keyPolicy)]),
      PathElem("rule-names", []),
      PathElem("rule-name", [KeyValue("rule-name", key.keyRule)])])
  }

  function KeyedText(name: string, key: string, value: string): string {
    name + "[" + key + "=" + value + "]"
  }

  function KeyTexts(key: PbrKey): seq<string> {
    [PBR_STATS, "policy-maps", KeyedText("policy-map", "policy-name", key.keyPolicy),
     "rule-names", KeyedText("rule-name", "rule-name", key.keyRule)]
  }

  lemma KeyPathTexts(key: PbrKey)
    ensures ElemTexts(KeyPath(key).elem) == KeyTexts(key)
  {
    var elems := KeyPath(key).elem;
    OnePairText(elems[2]);
    OnePairText(elems[4]);
    assert ElemText(elems[0]) == PBR_STATS && ElemText(elems[1]) == "policy-maps" && ElemText(elems[3]) == "rule-names";
    assert "policy-map" + "[" + ("policy-name" + "=" + key.keyPolicy) + "]"
        == KeyedText("policy-map", "policy-name", key.keyPolicy);
    assert "rule-name" + "[" + ("rule-name" + "=" + key.keyRule) + "]"
        == KeyedText("rule-name", "rule-name", key.keyRule);
  }

  lemma RegroupRequest(a: string, b: string, m: string, mk: string, p: string,
                       c: string, n: string, nk: string, r: string)
    ensures "/" + a + "/" + b + "/" + KeyedText(m, mk, p) + "/" + c + "/" + KeyedText(n, nk, r) + "/"
         == ("/" + a + "/" + b + "/" + m + "[" + mk + "=") + p
          + ("]" + "/" + c + "/" + n + "[" + nk + "=") + r + ("]" + "/")
  {
    var left := "/" + a + "/" + b + "/" + m + "[" + mk + "=";
    assert "/" + a + "/" + b + "/" + KeyedText(m, mk, p) == left + p + "]";
    var middle := "/" + c + "/" + n + "[" + nk + "=";
    assert left + p + "]" + "/" + c + "/" + KeyedText(n, nk, r) == left + p + "]" + (middle + r + "]");
    assert "]" + "/" + c + "/" + n + "[" + nk + "=" == "]" + middle;
    assert left + p + "]" + (middle + r + "]") + "/" == left + p + ("]" + middle) + r + ("]" + "/");
  }

  lemma PrependSlash(a: string, p: string, b: string, r: string, c: string)
    ensures "/" + (a + p + b + r + c) == ("/" + a) + p + b + r + c
  {
  }

  lemma PolicyLiteral()
    ensures ":pbr-stats" + "/" + "policy-maps" + "/" + "policy-map" + "[" + "policy-name" + "="
         == ":pbr-stats/policy-maps/policy-map[policy-name="
  {
  }

  lemma RuleLiteral()
    ensures "]" + "/" + "rule-names" + "/" + "rule-name" + "[" + "rule-name" + "="
         == "]/rule-names/rule-name[rule-name="
    ensures "]" + "/" == "]/"
  {
  }

  lemma RegroupOrigin(origin: string, a: string, b: string, c: string, d: string)
    ensures "/" + (origin + a) + "/" + b + "/" + c + "[" + d + "="
         == "/" + (origin + (a + "/" + b + "/" + c + "[" + d + "="))
  {
  }

  /** The request string is the printed path without its first slash and with one at the end. */
  lemma RequestTextIsPrintedPath(key: PbrKey)
    ensures "/" + RequestPathText(key) == Slashed(KeyTexts(key)) + "/"
  {
    var policy := KeyedText("policy-map", "policy-name", key.keyPolicy);
    var rule := KeyedText("rule-name", "rule-name", key.keyRule);
    SlashedFive(PBR_STATS, "policy-maps", policy, "rule-names", rule);
    RegroupRequest(PBR_STATS, "policy-maps", "policy-map", "policy-name", key.keyPolicy,
                   "rule-names", "rule-name", "rule-name", key.keyRule);
    RegroupOrigin(PATH_ORIGIN, ":pbr-stats", "policy-maps", "policy-map", "policy-name");
    PolicyLiteral();
    RuleLiteral();
    PrependSlash(PATH_ORIGIN + ":pbr-stats/policy-maps/policy-map[policy-name=", key.keyPolicy,
                 "]/rule-names/rule-name[rule-name=", key.keyRule, "]/");
  }

  /** A leading slash less and a trailing slash more make no difference to the pieces. */
  lemma TrailingSlash(texts: seq<string>, s: string)
    requires texts != [] && texts[|texts| - 1] != "" && texts[|texts| - 1][|texts[|texts| - 1]| - 1] != '/'
    requires "/" + s == Slashed(texts) + "/" && s != "" && s[0] != '/'
    ensures Pieces(s) == SplitAll(texts)
    ensures Pieces(Slashed(texts)) == SplitAll(texts)
  {
    SplitOfSlashed(texts);
    var body, pieces := Slashed(texts)[1..], SplitAll(texts);
    assert s == ("/" + s)[1..] && s == body + "/" + "";
    SplitConcat(body, "");
    assert Split("") == [""];
    assert (pieces + [""])[..|pieces|] == pieces;
    NothingTrimmed(texts, LastOf(texts));
  }

  lemma RequestTextHead(key: PbrKey)
    ensures RequestPathText(key) != "" && RequestPathText(key)[0] != '/'
  {
    assert PATH_ORIGIN[0] == 'C';
    assert PATH_ORIGIN <= RequestPathText(key);
  }

  /** Both forms have the same pieces. */
  lemma RequestPieces(key: PbrKey)
    ensures Pieces(RequestPathText(key)) == SplitAll(KeyTexts(key))
    ensures Pieces(PathText(KeyPath(key))) == SplitAll(KeyTexts(key))
  {
    KeyPathTexts(key);
    RequestTextIsPrintedPath(key);
    RequestTextHead(key);
    TrailingSlash(KeyTexts(key), RequestPathText(key));
  }

  /** A name that can be written between the brackets of a path. */
  predicate Nameable(name: string) {
    name != "" && '/' !in name && ']' !in name
  }

  /** A text without any of the characters that have a meaning in a path. */
  predicate Token(text: string) {
    text != "" && '/' !in text && '[' !in text && ']' !in text && '=' !in text
  }

  lemma TokenConcat(a: string, b: string)
    requires Token(a) && Token(b)
    ensures Token(a + b)
  {
  }

  lemma OriginNotCut()
    ensures '/' !in PATH_ORIGIN && '=' !in PATH_ORIGIN
  {
  }

  lemma OriginWithoutBrackets()
    ensures '[' !in PATH_ORIGIN && ']' !in PATH_ORIGIN
  {
  }

  lemma OriginToken()
    ensures Token(PATH_ORIGIN)
  {
    OriginNotCut();
    OriginWithoutBrackets();
  }

  lemma PbrStatsToken()
    ensures Token(PBR_STATS)
  {
    OriginToken();
    TokenConcat(PATH_ORIGIN, ":pbr-stats");
  }

  lemma PolicyTokens()
    ensures Token("policy-maps") && Token("policy-map") && Token("policy-name")
  {
  }

  lemma RuleTokens()
    ensures Token("rule-names") && Token("rule-name")
  {
  }

  lemma Tokens()
    ensures Token(PBR_STATS) && Token("policy-maps") && Token("policy-map") && Token("policy-name")
    ensures Token("rule-names") && Token("rule-name")
  {
    PbrStatsToken();
    PolicyTokens();
    RuleTokens();
  }

  predicate Survives(elem: PathElem) {
    Reparsable(elem) && '/' !in ElemText(elem)
  }

  lemma KeyedElemSurvives(name: string, key: string, value: string)
    requires Token(name) && Token(key)
    ensures Survives(PathElem(name, [KeyValue(key, value)])) <==> Nameable(value)
  {
    var elem := PathElem(name, [KeyValue(key, value)]);
    OnePairText(elem);
    var front := name + "[" + key + "=";
    assert ElemText(elem) == front + value + "]";
    assert '/' !in front;
  }

  lemma PlainElemSurvives(name: string)
    requires Token(name)
    ensures Survives(PathElem(name, []))
  {
    assert ElemText(PathElem(name, [])) == name;
  }

  lemma KeyPathRoundTrips(key: PbrKey)
    ensures RoundTrips(KeyPath(key)) <==> Nameable(key.keyPolicy) && Nameable(key.keyRule)
  {
    Tokens();
    PlainElemSurvives(PBR_STATS);
    PlainElemSurvives("policy-maps");
    PlainElemSurvives("rule-names");
    KeyedElemSurvives("policy-map", "policy-name", key.keyPolicy);
    KeyedElemSurvives("rule-name", "rule-name", key.keyRule);
    var elems := KeyPath(key).elem;
    assert ReparsablePath(KeyPath(key)) <==>
        Survives(elems[0]) && Survives(elems[1]) && Survives(elems[2]) && Survives(elems[3]) && Survives(elems[4]);
  }

  /** The request path denotes its policy and rule exactly when both can be written in a path. */
  lemma RequestPathNamesKey(key: PbrKey)
    ensures ParsePath(RequestPathText(key)) == Success(KeyPath(key))
       <==> Nameable(key.keyPolicy) && Nameable(key.keyRule)
  {
    RequestPieces(key);
    RoundTrip(KeyPath(key));
    KeyPathRoundTrips(key);
  }

  // ----- any key at all -----

  /** The part of a name that the parser sees: up to the first ']'. */
  function Shown(name: string): string {
    name[..IndexOf(name, ']')]
  }

  /** True when a slash comes before any ']'. */
  predicate CutBySlash(name: string) {
    IndexOf(name, '/') < IndexOf(name, ']')
  }

  /** The pieces that the name, with the bracket behind it, leaves behind its first slash. */
  function Spill(name: string): seq<string> {
    Split(name + "]")[1..]
  }

  /** The names that leave the path valid. */
  predicate Kept(name: string) {
    !CutBySlash(name) && Shown(name) != "" && ParsePieces(Spill(name)).Success?
  }

  predicate Subscribable(key: PbrKey) {
    Kept(key.keyPolicy) && Kept(key.keyRule)
  }

  /** What a name becomes: its element, and further elements made from what it spills. */
  function NameElems(name: string, key: string, value: string): seq<PathElem>
    requires Kept(value)
  {
    [PathElem(name, [KeyValue(key, Shown(value))])] + ParsePieces(Spill(value)).value
  }

  /** The path that is subscribed to for a key. */
  function PathOfKey(key: PbrKey): Path {
    if Subscribable(key) then
      Path("", [PathElem(PBR_STATS, []), PathElem("policy-maps", [])]
           + NameElems("policy-map", "policy-name", key.keyPolicy)
           + ([PathElem("rule-names", [])] + NameElems("rule-name", "rule-name", key.keyRule)))
    else EMPTY_PATH
  }

  /** The text of an element whose closing bracket, if any, is in `text`. */
  function OpenedText(name: string, key: string, text: string): string {
    name + "[" + key + "=" + text
  }

  lemma KeyedIsOpened(name: string, key: string, value: string)
    ensures KeyedText(name, key, value) == OpenedText(name, key, value + "]")
  {
  }

  /** The value ends at the first ']'. */
  lemma ClosedPiece(name: string, key: string, text: string)
    requires Token(name) && Token(key) && IndexOf(text, ']') < |text|
    ensures ParsePiece(OpenedText(name, key, text))
         == if Shown(text) == "" then Failure(NotKeyEqualsValue)
            else Success(PathElem(name, [KeyValue(key, Shown(text))]))
  {
    var shown, rest := Shown(text), text[IndexOf(text, ']') + 1..];
    CutAtIndex(text, ']');
    if shown != "" {
      RegroupOpened(name, KeyValue(key, shown), rest, text);
      ParseKeyedPiece(name, KeyValue(key, shown), rest);
    } else {
      assert text == "]" + rest;
      EmptyValuePiece(name, key, rest);
    }
  }

  lemma RegroupOpened(name: string, pair: KeyValue, rest: string, text: string)
    requires text == pair.value + "]" + rest
    ensures OpenedText(name, pair.key, text) == name + PairText(pair) + rest
  {
    assert PairText(pair) == "[" + pair.key + "=" + pair.value + "]";
    assert OpenedText(name, pair.key, text) == name + ("[" + pair.key + "=" + pair.value + "]") + rest;
  }

  lemma EmptyValuePiece(name: string, key: string, rest: string)
    requires Token(name) && Token(key)
    ensures ParsePiece(OpenedText(name, key, "]" + rest)) == Failure(NotKeyEqualsValue)
  {
    var front := name + "[" + key + "=";
    var piece := front + ("]" + rest);
    assert piece == name + ("[" + key + "=" + ("]" + rest));
    IndexOfAfter(name, "[" + key + "=" + ("]" + rest), '[');
    IndexOfAfter(front, "]" + rest, ']');
    assert piece[|name| + 1..|front|] == key + "=";
    IndexOfAfter(key, "=", '=');
  }

  lemma OpenPiece(name: string, key: string, value: string)
    requires Token(name) && Token(key) && ']' !in value
    ensures ParsePiece(OpenedText(name, key, value)) == Failure(MissingClosingBracket)
  {
    var piece := OpenedText(name, key, value);
    assert piece == name + ("[" + key + "=" + value);
    IndexOfAfter(name, "[" + key + "=" + value, '[');
    var front := name + "[" + key + "=";
    assert ']' !in front;
    assert piece + "" == piece;
    IndexOfAfter(piece, "", ']');
  }

  lemma FirstPartWhole(name: string)
    requires '/' !in name
    ensures Split(name + "]")[0] == name + "]"
    ensures !CutBySlash(name)
    ensures IndexOf(name + "]", ']') == IndexOf(name, ']')
  {
    SplitPlain(name + "]");
    SlashFreeIsNotCut(name);
    ClosedAt(name, "]");
  }

  lemma FirstPartUpToSlash(name: string)
    requires '/' in name
    ensures IndexOf(name, '/') < |name| && Split(name + "]")[0] == name[..IndexOf(name, '/')]
  {
    var slash := IndexOf(name, '/');
    IndexOfIsFirst(name, '/');
    assert slash < |name| by {
      assert name[..|name|] == name;
    }
    CutAt(name, slash);
    SplitAt(name[..slash], name[slash + 1..] + "]");
    RegroupCut(name[..slash], name[slash + 1..]);
  }

  lemma RegroupCut(head: string, tail: string)
    ensures head + ("/" + tail) + "]" == head + "/" + (tail + "]")
  {
  }

  /** The first ']' stays where it is when something is put behind it. */
  lemma ClosedAt(name: string, more: string)
    requires more == "]" || ']' in name
    ensures IndexOf(name + more, ']') == IndexOf(name, ']')
  {
    var close := IndexOf(name, ']');
    IndexOfIsFirst(name, ']');
    assert close == |name| ==> name[..close] == name;
    assert (name + more)[..close] == name[..close];
    IndexOfUnique(name + more, ']', close);
  }

  lemma ShownBefore(name: string, slash: nat)
    requires IndexOf(name, ']') < slash <= |name|
    ensures IndexOf(name[..slash], ']') == IndexOf(name, ']')
  {
    var close := IndexOf(name, ']');
    IndexOfIsFirst(name, ']');
    assert name[..slash][..close] == name[..close];
    IndexOfUnique(name[..slash], ']', close);
  }

  lemma NothingShownBefore(name: string, slash: nat)
    requires slash <= IndexOf(name, ']')
    ensures ']' !in name[..slash]
  {
    IndexOfIsFirst(name, ']');
    assert name[..IndexOf(name, ']')][..slash] == name[..slash];
  }

  /** The first piece has the name's first ']', or none if the name is cut before. */
  lemma FirstPart(name: string)
    ensures var first := Split(name + "]")[0];
            && (CutBySlash(name) ==> ']' !in first)
            && (!CutBySlash(name) ==> IndexOf(first, ']') < |first| && Shown(first) == Shown(name))
  {
    var close := IndexOf(name, ']');
    if '/' !in name {
      FirstPartWhole(name);
      assert (name + "]")[..close] == name[..close];
    } else {
      var slash := IndexOf(name, '/');
      FirstPartUpToSlash(name);
      if slash < close {
        NothingShownBefore(name, slash);
      } else {
        DifferentPlaces(name, '/', ']');
        ShownBefore(name, slash);
        assert name[..slash][..close] == name[..close];
      }
    }
  }

  lemma SplitBehind(front: string, text: string)
    requires '/' !in front
    ensures Split(front + text) == [front + Split(text)[0]] + Split(text)[1..]
  {
    var i := IndexOf(text, '/');
    IndexOfIsFirst(text, '/');
    var head, rest := front + text[..i], text[i..];
    assert text == text[..i] + rest;
    assert front + text == head + rest;
    SplitOnce(text[..i], rest);
    SplitOnce(head, rest);
  }

  lemma KeyedPieces(name: string, key: string, value: string)
    requires Token(name) && Token(key)
    ensures Split(KeyedText(name, key, value)) == [OpenedText(name, key, Split(value + "]")[0])] + Spill(value)
  {
    KeyedIsOpened(name, key, value);
    assert '/' !in name + "[" + key + "=";
    SplitBehind(name + "[" + key + "=", value + "]");
  }

  /** The pieces made from a name parse exactly when the name is kept. */
  lemma NameParses(name: string, key: string, value: string)
    requires Token(name) && Token(key)
    ensures var parsed := ParsePieces(Split(KeyedText(name, key, value)));
            && (parsed.Success? <==> Kept(value))
            && (Kept(value) ==> parsed.value == NameElems(name, key, value))
  {
    var first := Split(value + "]")[0];
    KeyedPieces(name, key, value);
    FirstPart(value);
    if CutBySlash(value) {
      OpenPiece(name, key, first);
    } else {
      ClosedPiece(name, key, first);
    }
    assert ([OpenedText(name, key, first)] + Spill(value))[1..] == Spill(value);
  }

  lemma PlainFirst(name: string, rest: seq<string>)
    requires Token(name)
    ensures ParsePieces([name] + rest) == Extend([PathElem(name, [])], ParsePieces(rest))
  {
    ParsePlainPiece(name);
    assert ([name] + rest)[1..] == rest;
  }

  lemma SplitPlain(name: string)
    requires '/' !in name
    ensures Split(name) == [name]
  {
    SplitOnce(name, "");
    assert name + "" == name;
  }

  lemma SplitAllFrom(text: string, rest: seq<string>)
    ensures SplitAll([text] + rest) == Split(text) + SplitAll(rest)
  {
    assert ([text] + rest)[1..] == rest;
  }

  lemma SplitAllFive(a: string, b: string, c: string, d: string, e: string)
    requires '/' !in a && '/' !in b && '/' !in d
    ensures SplitAll([a, b, c, d, e]) == [a] + ([b] + (Split(c) + ([d] + Split(e))))
  {
    SplitPlain(a);
    SplitPlain(b);
    SplitPlain(d);
    SplitAllFrom(e, []);
    SplitAllFrom(d, [e] + []);
    SplitAllFrom(c, [d] + ([e] + []));
    SplitAllFrom(b, [c] + ([d] + ([e] + [])));
    SplitAllFrom(a, [b] + ([c] + ([d] + ([e] + []))));
    assert [a, b, c, d, e] == [a] + ([b] + ([c] + ([d] + ([e] + []))));
    assert Split(e) + [] == Split(e);
  }

  /** The pieces of a request, with the elements of the plain ones. */
  lemma ParseRequest(a: string, b: string, policy: seq<string>, d: string, rule: seq<string>)
    requires Token(a) && Token(b) && Token(d)
    ensures var parsed := ParsePieces([a] + ([b] + (policy + ([d] + rule))));
            && (parsed.Success? <==> ParsePieces(policy).Success? && ParsePieces(rule).Success?)
            && (parsed.Success? ==>
                  parsed.value == [PathElem(a, []), PathElem(b, [])] + ParsePieces(policy).value
                                  + ([PathElem(d, [])] + ParsePieces(rule).value))
  {
    PlainFirst(a, [b] + (policy + ([d] + rule)));
    PlainFirst(b, policy + ([d] + rule));
    ParsePiecesConcat(policy, [d] + rule);
    PlainFirst(d, rule);
  }

  /** For every key: whether its request path is valid, and which path it denotes. */
  lemma RequestPathOfKey(key: PbrKey)
    ensures ParsePath(RequestPathText(key)).Success? <==> Subscribable(key)
    ensures Subscribable(key) ==> ParsePath(RequestPathText(key)) == Success(PathOfKey(key))
  {
    Tokens();
    RequestPieces(key);
    var policy := KeyedText("policy-map", "policy-name", key.keyPolicy);
    var rule := KeyedText("rule-name", "rule-name", key.keyRule);
    SplitAllFive(PBR_STATS, "policy-maps", policy, "rule-names", rule);
    NameParses("policy-map", "policy-name", key.keyPolicy);
    NameParses("rule-name", "rule-name", key.keyRule);
    ParseRequest(PBR_STATS, "policy-maps", Split(policy), "rule-names", Split(rule));
  }

  lemma CutKeyFails(key: PbrKey)
    requires CutBySlash(key.keyPolicy) || CutBySlash(key.keyRule)
    ensures ParsePath(RequestPathText(key)).Failure?
  {
    RequestPathOfKey(key);
  }

  /** A name without slash is shortened at its first ']'; an empty rest makes the path invalid. */
  lemma SlashFreeName(name: string)
    requires '/' !in name
    ensures Spill(name) == [] && (Kept(name) <==> Shown(name) != "")
  {
    SplitPlain(name + "]");
    SlashFreeIsNotCut(name);
  }

  lemma SlashFreeIsNotCut(name: string)
    requires '/' !in name
    ensures !CutBySlash(name)
  {
    IndexOfUnique(name, '/', |name|);
  }

  lemma SlashFreeKey(key: PbrKey)
    requires '/' !in key.keyPolicy && '/' !in key.keyRule
    ensures PathOrEmpty(RequestPathText(key))
         == if Shown(key.keyPolicy) == "" || Shown(key.keyRule) == "" then EMPTY_PATH
            else KeyPath(PbrKey(Shown(key.keyPolicy), Shown(key.keyRule)))
  {
    RequestPathOfKey(key);
    SlashFreeName(key.keyPolicy);
    SlashFreeName(key.keyRule);
  }

  /** A policy with ']' before a slash is subscribed to under another path, with an element too many. */
  lemma SpilledKey(shown: string, spilled: string, rule: string)
    requires Nameable(shown) && Nameable(rule) && '/' !in spilled && '[' !in spilled
    ensures var elems := PathOrEmpty(RequestPathText(PbrKey(shown + "]/" + spilled, rule))).elem;
            elems == KeyPath(PbrKey(shown, rule)).elem[..3] + [PathElem(spilled + "]", [])]
                     + KeyPath(PbrKey(shown, rule)).elem[3..]
  {
    var policy := shown + "]/" + spilled;
    RequestPathOfKey(PbrKey(policy, rule));
    SlashFreeName(rule);
    NoBracketShown(rule);
    SpilledName(shown, spilled);
  }

  lemma SpilledName(shown: string, spilled: string)
    requires Nameable(shown) && '/' !in spilled && '[' !in spilled
    ensures var name := shown + "]/" + spilled;
            && Spill(name) == [spilled + "]"] && Shown(name) == shown && Kept(name)
            && ParsePieces(Spill(name)).value == [PathElem(spilled + "]", [])]
  {
    var name := shown + "]/" + spilled;
    assert name == shown + ("]/" + spilled) && name == shown + "]" + ("/" + spilled);
    IndexOfAfter(shown, "]/" + spilled, ']');
    IndexOfAfter(shown + "]", "/" + spilled, '/');
    assert name + "]" == shown + "]" + "/" + (spilled + "]");
    SplitAt(shown + "]", spilled + "]");
    SplitPlain(spilled + "]");
    ParsePlainPiece(spilled + "]");
    assert ParsePieces([spilled + "]"][1..]) == Success([]);
  }

  // ----- results -----

  /** The subscription of any key. */
  lemma SubscribedPath(key: PbrKey)
    ensures PathOrEmpty(RequestPathText(key)) == PathOfKey(key)
  {
    RequestPathOfKey(key);
  }

  /**
   * Without ']' in the names, that is the five-element path of the key when both names are
   * non-empty and slash-free, and an empty path otherwise.
   */
  lemma PathOfPlainKey(key: PbrKey)
    requires ']' !in key.keyPolicy && ']' !in key.keyRule
    ensures PathOfKey(key) == if Nameable(key.keyPolicy) && Nameable(key.keyRule) then KeyPath(key) else EMPTY_PATH
  {
    NoBracketShown(key.keyPolicy);
    NoBracketShown(key.keyRule);
    if '/' !in key.keyPolicy && '/' !in key.keyRule {
      SlashFreeName(key.keyPolicy);
      SlashFreeName(key.keyRule);
    }
  }

  lemma NoBracketShown(name: string)
    requires ']' !in name
    ensures Shown(name) == name
    ensures CutBySlash(name) <==> '/' in name
  {
    IndexOfUnique(name, ']', |name|);
    IndexOfIsFirst(name, '/');
    assert name[..|name|] == name;
  }

  /** The i-th subscription of the request built from a key list. */
  lemma SubscriptionOfKey(args: RpcArgs, keys: seq<PbrKey>, i: nat)
    requires Supported(args.encoding) && i < |keys|
    ensures var subscriptions := RequestFor(args, RequestPathTexts(keys)).subscription;
            && |subscriptions| == |keys| && subscriptions[i].path == PathOfKey(keys[i])
            && (']' !in keys[i].keyPolicy && ']' !in keys[i].keyRule ==>
                  subscriptions[i].path
                  == if Nameable(keys[i].keyPolicy) && Nameable(keys[i].keyRule) then KeyPath(keys[i]) else EMPTY_PATH)
  {
    SubscribedPath(keys[i]);
    if ']' !in keys[i].keyPolicy && ']' !in keys[i].keyRule {
      PathOfPlainKey(keys[i]);
    }
  }

  /**
   * A request for samples of all keys, in the asked mode: with JSON_IETF or PROTO one subscription per
   * key, at the asked interval, on the path of that key; with another encoding nothing but the mode.
   */
  predicate AsksForKeys(request: SubscribeRequest, mode: StreamMode, args: RpcArgs, keys: seq<PbrKey>) {
    && request.mode == mode
    && (args.encoding == JSON_IETF || args.encoding == PROTO ==>
          && request.encoding == args.encoding && |request.subscription| == |keys|
          && forall i :: 0 <= i < |keys| ==>
               request.subscription[i] == Subscription(SAMPLE, args.sampleIntervalNsec, PathOfKey(keys[i])))
    && (args.encoding != JSON_IETF && args.encoding != PROTO ==> request.encoding == JSON && request.subscription == [])
  }

  lemma RequestAsksForKeys(mode: StreamMode, args: RpcArgs, keys: seq<PbrKey>)
    ensures AsksForKeys(RequestFor(args.(mode := mode), RequestPathTexts(keys)), mode, args, keys)
  {
    if Supported(args.encoding) {
      forall i | 0 <= i < |keys|
        ensures RequestFor(args.(mode := mode), RequestPathTexts(keys)).subscription[i]
             == Subscription(SAMPLE, args.sampleIntervalNsec, PathOfKey(keys[i]))
      {
        SubscriptionOfKey(args.(mode := mode), keys, i);
      }
    }
  }

  /** Keys without ']' share a path only if neither can be written in one. */
  lemma DistinctKeysDistinctPaths(a: PbrKey, b: PbrKey)
    requires ']' !in a.keyPolicy && ']' !in a.keyRule && ']' !in b.keyPolicy && ']' !in b.keyRule
    ensures PathOfKey(a) == PathOfKey(b)
       <==> a == b || !(  (Nameable(a.keyPolicy) && Nameable(a.keyRule))
                       || (Nameable(b.keyPolicy) && Nameable(b.keyRule)))
  {
    PathOfPlainKey(a);
    PathOfPlainKey(b);
    assert KeyPath(a).elem[2].key[0].value == a.keyPolicy && KeyPath(a).elem[4].key[0].value == a.keyRule;
    assert KeyPath(b).elem[2].key[0].value == b.keyPolicy && KeyPath(b).elem[4].key[0].value == b.keyRule;
  }

  lemma ShownBeforeBracket(name: string, cut: string)
    requires ']' !in name
    ensures Shown(name + "]" + cut) == name
  {
    assert name + "]" + cut == name + ("]" + cut);
    IndexOfAfter(name, "]" + cut, ']');
  }

  /** With ']' a key shares the path of the key that is cut there. */
  lemma BracketedKeySharesPath(policy: string, cut: string, rule: string)
    requires Nameable(policy) && Nameable(rule) && '/' !in cut
    ensures PathOrEmpty(RequestPathText(PbrKey(policy + "]" + cut, rule)))
         == PathOrEmpty(RequestPathText(PbrKey(policy, rule)))
  {
    SlashFreeKey(PbrKey(policy + "]" + cut, rule));
    SlashFreeKey(PbrKey(policy, rule));
    NoBracketShown(policy);
    ShownBeforeBracket(policy, cut);
  }

  // ----- the names that come back -----

  /** No element of the list gives a value for the key of the name. */
  predicate NamesNo(elems: seq<PathElem>, name: string, key: string) {
    forall i :: 0 <= i < |elems| && elems[i].name == name ==> FindKey(elems[i].key, key) == None
  }

  predicate NamesNothing(elems: seq<PathElem>) {
    && NamesNo(elems, Decoder.POLICY_MAP, Decoder.POLICY_KEY)
    && NamesNo(elems, Decoder.RULE_NAME, Decoder.RULE_NAME)
  }

  lemma FoundNameInLast(elems: seq<PathElem>, last: PathElem, name: string, key: string)
    ensures DecoderLaws.FoundName(elems + [last], name, key)
         == var found := if last.name == name then FindKey(last.key, key) else None;
            if found.Some? then found.value else DecoderLaws.FoundName(elems, name, key)
  {
    assert (elems + [last])[..|elems|] == elems;
  }

  lemma {:induction false} FoundNameBefore(elems: seq<PathElem>, back: seq<PathElem>, name: string, key: string)
    requires NamesNo(back, name, key)
    ensures DecoderLaws.FoundName(elems + back, name, key) == DecoderLaws.FoundName(elems, name, key)
  {
    if back == [] {
      assert elems + back == elems;
    } else {
      var front, last := back[..|back| - 1], back[|back| - 1];
      FoundNameBefore(elems, front, name, key);
      FoundNameInLast(elems + front, last, name, key);
      assert back == front + [last];
      Assoc(elems, front, [last]);
    }
  }

  /** The last element that has the key decides, whatever is in front of it. */
  lemma FoundNameAt(front: seq<PathElem>, name: string, key: string, value: string, back: seq<PathElem>)
    requires NamesNo(back, name, key)
    ensures DecoderLaws.FoundName(front + [PathElem(name, [KeyValue(key, value)])] + back, name, key) == value
  {
    var elem := PathElem(name, [KeyValue(key, value)]);
    FoundNameBefore(front + [elem], back, name, key);
    FoundNameInLast(front, elem, name, key);
  }

  lemma NamesNoConcat(a: seq<PathElem>, b: seq<PathElem>, name: string, key: string)
    requires NamesNo(a, name, key) && NamesNo(b, name, key)
    ensures NamesNo(a + b, name, key)
  {
  }

  /** What the names of a key spill does not name a policy, nor behind the rule a rule. */
  predicate SpillsNoName(key: PbrKey)
    requires Subscribable(key)
  {
    && NamesNo(ParsePieces(Spill(key.keyPolicy)).value, Decoder.POLICY_MAP, Decoder.POLICY_KEY)
    && NamesNo(ParsePieces(Spill(key.keyRule)).value, Decoder.POLICY_MAP, Decoder.POLICY_KEY)
    && NamesNo(ParsePieces(Spill(key.keyRule)).value, Decoder.RULE_NAME, Decoder.RULE_NAME)
  }

  lemma RegroupNames<T>(front: seq<T>, maps: T, p: T, ps: seq<T>, names: T, r: T, rs: seq<T>, back: seq<T>)
    ensures var elems := front + ([maps] + ([p] + ps) + ([names] + ([r] + rs))) + back;
            && elems == (front + [maps]) + [p] + (ps + ([names] + ([r] + (rs + back))))
            && elems == (front + [maps] + [p] + ps + [names]) + [r] + (rs + back)
  {
  }

  /** The elements of the subscribed path behind its first one. */
  function AskedElems(key: PbrKey): seq<PathElem>
    requires Subscribable(key)
  {
    PathOfKey(key).elem[1..]
  }

  lemma AskedElemsParts(key: PbrKey)
    requires Subscribable(key)
    ensures AskedElems(key)
         == [PathElem("policy-maps", [])] + NameElems("policy-map", "policy-name", key.keyPolicy)
          + ([PathElem("rule-names", [])] + NameElems("rule-name", "rule-name", key.keyRule))
  {
  }

  /** The scan finds the shortened names, wherever a path holds the subscribed elements. */
  lemma NamesOfAskedElems(key: PbrKey, front: seq<PathElem>, back: seq<PathElem>)
    requires Subscribable(key) && SpillsNoName(key)
    requires NamesNothing(back)
    ensures var elems := front + AskedElems(key) + back;
            && DecoderLaws.FoundName(elems, Decoder.POLICY_MAP, Decoder.POLICY_KEY) == Shown(key.keyPolicy)
            && DecoderLaws.FoundName(elems, Decoder.RULE_NAME, Decoder.RULE_NAME) == Shown(key.keyRule)
  {
    var maps, names := PathElem("policy-maps", []), PathElem("rule-names", []);
    var policy := PathElem("policy-map", [KeyValue("policy-name", Shown(key.keyPolicy))]);
    var rule := PathElem("rule-name", [KeyValue("rule-name", Shown(key.keyRule))]);
    var ps, rs := ParsePieces(Spill(key.keyPolicy)).value, ParsePieces(Spill(key.keyRule)).value;
    AskedElemsParts(key);
    RegroupNames(front, maps, policy, ps, names, rule, rs, back);
    LiteralNames();
    NamesNoConcat(rs, back, Decoder.POLICY_MAP, Decoder.POLICY_KEY);
    NamesNoConcat([rule], rs + back, Decoder.POLICY_MAP, Decoder.POLICY_KEY);
    NamesNoConcat([names], [rule] + (rs + back), Decoder.POLICY_MAP, Decoder.POLICY_KEY);
    NamesNoConcat(ps, [names] + ([rule] + (rs + back)), Decoder.POLICY_MAP, Decoder.POLICY_KEY);
    NamesNoConcat(rs, back, Decoder.RULE_NAME, Decoder.RULE_NAME);
    FoundNameAt(front + [maps], Decoder.POLICY_MAP, Decoder.POLICY_KEY, Shown(key.keyPolicy),
                ps + ([names] + ([rule] + (rs + back))));
    FoundNameAt(front + [maps] + [policy] + ps + [names], Decoder.RULE_NAME, Decoder.RULE_NAME, Shown(key.keyRule),
                rs + back);
  }

  lemma LiteralNames()
    ensures |Decoder.POLICY_MAP| == 10 && |"rule-names"| == 10 && |Decoder.RULE_NAME| == 9
    ensures Decoder.POLICY_MAP != "rule-names"
  {
    assert Decoder.POLICY_MAP[0] != "rule-names"[0];
  }

  lemma OutcomeOfNames(notification: Notification, policy: string, rule: string)
    requires notification.prefix.Some? && Contains(notification.prefix.value.origin, PATH_ORIGIN)
    requires notification.update != [] && policy != "" && rule != ""
    requires var elems := Decoder.ChosenPath(notification.update, notification.prefix.value).elem;
             && DecoderLaws.FoundName(elems, Decoder.POLICY_MAP, Decoder.POLICY_KEY) == policy
             && DecoderLaws.FoundName(elems, Decoder.RULE_NAME, Decoder.RULE_NAME) == rule
    ensures match ResponseOutcome(SubscribeResponse(Some(notification)))
            case Accepted(record) =>
              CountersParse(notification) && record.policyName == policy && record.ruleName == rule
            case Threw(_) => !CountersParse(notification)
            case Rejected(_) => false
  {
    RejectedUpdate(notification);
    AcceptedUpdate(notification);
  }

  /** An element without ']' in its name whose values are not empty and have no ']' either. */
  predicate CleanElem(elem: PathElem) {
    ']' !in elem.name ==> forall i :: 0 <= i < |elem.key| ==> elem.key[i].value != "" && ']' !in elem.key[i].value
  }

  predicate CleanElems(elems: seq<PathElem>) {
    forall i :: 0 <= i < |elems| ==> CleanElem(elems[i])
  }

  /** Every element that parsing yields is clean: with reversed brackets, the ']' is in the name. */
  lemma ParsedPieceClean(piece: string)
    requires ParsePiece(piece).Success?
    ensures CleanElem(ParsePiece(piece).value)
  {
    if IndexOf(piece, '[') < |piece| {
      KeyedPieceParts(piece);
      if BracketsReversed(piece) {
        assert piece[..IndexOf(piece, '[')][IndexOf(piece, ']')] == ']';
      } else {
        AcceptedOrderedPiece(piece);
      }
    }
  }

  lemma ParsedPiecesClean(pieces: seq<string>)
    requires ParsePieces(pieces).Success?
    ensures CleanElems(ParsePieces(pieces).value)
  {
    ParsePiecesElementwise(pieces);
    forall i | 0 <= i < |pieces| ensures CleanElem(ParsePieces(pieces).value[i]) {
      ParsedPieceClean(pieces[i]);
    }
  }

  lemma CleanConcat(a: seq<PathElem>, b: seq<PathElem>)
    requires CleanElems(a) && CleanElems(b)
    ensures CleanElems(a + b)
  {
  }

  lemma NameElemsClean(name: string, key: string, value: string)
    requires Kept(value)
    ensures CleanElems(NameElems(name, key, value))
  {
    IndexOfIsFirst(value, ']');
    ParsedPiecesClean(Spill(value));
    assert CleanElem(PathElem(name, [KeyValue(key, Shown(value))]));
    CleanConcat([PathElem(name, [KeyValue(key, Shown(value))])], ParsePieces(Spill(value)).value);
  }

  lemma AskedElemsClean(key: PbrKey)
    requires Subscribable(key)
    ensures CleanElems(AskedElems(key))
  {
    AskedElemsParts(key);
    var policy := NameElems("policy-map", "policy-name", key.keyPolicy);
    var rule := NameElems("rule-name", "rule-name", key.keyRule);
    NameElemsClean("policy-map", "policy-name", key.keyPolicy);
    NameElemsClean("rule-name", "rule-name", key.keyRule);
    CleanConcat([PathElem("policy-maps", [])], policy);
    CleanConcat([PathElem("rule-names", [])], rule);
    CleanConcat([PathElem("policy-maps", [])] + policy, [PathElem("rule-names", [])] + rule);
  }

  lemma {:induction false} FoundNameClean(elems: seq<PathElem>, name: string, key: string)
    requires ']' !in name && CleanElems(elems) && !NamesNo(elems, name, key)
    ensures DecoderLaws.FoundName(elems, name, key) != "" && ']' !in DecoderLaws.FoundName(elems, name, key)
  {
    var front, last := elems[..|elems| - 1], elems[|elems| - 1];
    assert CleanElem(last);
    if !(last.name == name && FindKey(last.key, key).Some?) {
      assert !NamesNo(front, name, key) by {
        var i :| 0 <= i < |elems| && elems[i].name == name && FindKey(elems[i].key, key) != None;
        assert front[i] == elems[i];
      }
      FoundNameClean(front, name, key);
    }
  }

  /** Elements that name by themselves hide what is in front of them. */
  lemma {:induction false} FoundNameBehind(front: seq<PathElem>, elems: seq<PathElem>, name: string, key: string)
    requires !NamesNo(elems, name, key)
    ensures DecoderLaws.FoundName(front + elems, name, key) == DecoderLaws.FoundName(elems, name, key)
  {
    var rest, last := elems[..|elems| - 1], elems[|elems| - 1];
    assert elems == rest + [last];
    Assoc(front, rest, [last]);
    FoundNameInLast(front + rest, last, name, key);
    if !(last.name == name && FindKey(last.key, key).Some?) {
      assert !NamesNo(rest, name, key) by {
        var i :| 0 <= i < |elems| && elems[i].name == name && FindKey(elems[i].key, key) != None;
        assert rest[i] == elems[i];
      }
      FoundNameBehind(front, rest, name, key);
    }
  }

  lemma AskedElemsName(key: PbrKey)
    requires Subscribable(key)
    ensures !NamesNo(AskedElems(key), Decoder.POLICY_MAP, Decoder.POLICY_KEY)
    ensures !NamesNo(AskedElems(key), Decoder.RULE_NAME, Decoder.RULE_NAME)
  {
    AskedElemsParts(key);
    var elems, n := AskedElems(key), 2 + |ParsePieces(Spill(key.keyPolicy)).value|;
    assert elems[1] == PathElem("policy-map", [KeyValue("policy-name", Shown(key.keyPolicy))]);
    assert elems[n + 1] == PathElem("rule-name", [KeyValue("rule-name", Shown(key.keyRule))]);
  }

  /** The policy and the rule that the scan finds on the subscribed elements of a key. */
  function AskedPolicy(key: PbrKey): string
    requires Subscribable(key)
  {
    DecoderLaws.FoundName(AskedElems(key), Decoder.POLICY_MAP, Decoder.POLICY_KEY)
  }

  function AskedRule(key: PbrKey): string
    requires Subscribable(key)
  {
    DecoderLaws.FoundName(AskedElems(key), Decoder.RULE_NAME, Decoder.RULE_NAME)
  }

  lemma NamesAround(key: PbrKey, front: seq<PathElem>, back: seq<PathElem>)
    requires Subscribable(key)
    requires NamesNothing(back)
    ensures var elems := front + AskedElems(key) + back;
            && DecoderLaws.FoundName(elems, Decoder.POLICY_MAP, Decoder.POLICY_KEY) == AskedPolicy(key)
            && DecoderLaws.FoundName(elems, Decoder.RULE_NAME, Decoder.RULE_NAME) == AskedRule(key)
  {
    AskedElemsName(key);
    FoundNameBefore(front + AskedElems(key), back, Decoder.POLICY_MAP, Decoder.POLICY_KEY);
    FoundNameBefore(front + AskedElems(key), back, Decoder.RULE_NAME, Decoder.RULE_NAME);
    FoundNameBehind(front, AskedElems(key), Decoder.POLICY_MAP, Decoder.POLICY_KEY);
    FoundNameBehind(front, AskedElems(key), Decoder.RULE_NAME, Decoder.RULE_NAME);
  }

  lemma AskedNamesClean(key: PbrKey)
    requires Subscribable(key)
    ensures AskedPolicy(key) != "" && ']' !in AskedPolicy(key)
    ensures AskedRule(key) != "" && ']' !in AskedRule(key)
  {
    AskedElemsClean(key);
    AskedElemsName(key);
    NoBracketInNames();
    FoundNameClean(AskedElems(key), Decoder.POLICY_MAP, Decoder.POLICY_KEY);
    FoundNameClean(AskedElems(key), Decoder.RULE_NAME, Decoder.RULE_NAME);
  }

  /**
   * What the scan finds for a key: the names up to their first ']', unless a spilled piece names again;
   * and the names themselves if and only if neither has a ']'.
   */
  lemma AskedNames(key: PbrKey)
    requires Subscribable(key)
    ensures AskedPolicy(key) != "" && AskedRule(key) != ""
    ensures SpillsNoName(key) ==> AskedPolicy(key) == Shown(key.keyPolicy) && AskedRule(key) == Shown(key.keyRule)
    ensures PbrKey(AskedPolicy(key), AskedRule(key)) == key <==> ']' !in key.keyPolicy && ']' !in key.keyRule
  {
    AskedNamesClean(key);
    if SpillsNoName(key) {
      NamesOfAskedElems(key, [], []);
      assert [] + AskedElems(key) + [] == AskedElems(key);
    }
    if ']' !in key.keyPolicy && ']' !in key.keyRule {
      NoBracketShown(key.keyPolicy);
      NoBracketShown(key.keyRule);
      SlashFreeKeyAsks(key);
    }
  }

  lemma NoBracketInNames()
    ensures ']' !in Decoder.POLICY_MAP && ']' !in Decoder.RULE_NAME
  {
  }

  /**
   * End to end, for every key that is subscribed to: a response whose naming path holds the subscribed
   * elements - behind a module element of any form, with anything in front, and with nothing behind that
   * names again - is accepted exactly when its counters parse, and parsing them throws otherwise. Its
   * record carries the names found on the subscribed path; they are the requested ones if and only if
   * neither has a ']'.
   */
  lemma RequestKeyComesBack(key: PbrKey, front: seq<PathElem>, back: seq<PathElem>, notification: Notification)
    requires Subscribable(key)
    requires notification.prefix.Some? && Contains(notification.prefix.value.origin, PATH_ORIGIN)
    requires notification.update != []
    requires Decoder.ChosenPath(notification.update, notification.prefix.value).elem == front + AskedElems(key) + back
    requires NamesNothing(back)
    ensures match ResponseOutcome(SubscribeResponse(Some(notification)))
            case Accepted(record) =>
              && CountersParse(notification)
              && record.policyName == AskedPolicy(key) && record.ruleName == AskedRule(key)
              && (PbrKey(record.policyName, record.ruleName) == key
                  <==> ']' !in key.keyPolicy && ']' !in key.keyRule)
            case Threw(_) => !CountersParse(notification)
            case Rejected(_) => false
  {
    NamesAround(key, front, back);
    AskedNames(key);
    OutcomeOfNames(notification, AskedPolicy(key), AskedRule(key));
  }

  /** Slash-free names spill nothing; with something in front of any ']', they are subscribed to. */
  lemma SlashFreeKeyAsks(key: PbrKey)
    requires '/' !in key.keyPolicy && '/' !in key.keyRule
    requires Shown(key.keyPolicy) != "" && Shown(key.keyRule) != ""
    ensures Subscribable(key) && SpillsNoName(key)
    ensures AskedElems(key) == KeyPath(PbrKey(Shown(key.keyPolicy), Shown(key.keyRule))).elem[1..]
  {
    SlashFreeName(key.keyPolicy);
    SlashFreeName(key.keyRule);
  }

  /** In particular, a key that can be written in a path comes back unchanged. */
  lemma NameableKeyComesBack(key: PbrKey, front: seq<PathElem>, back: seq<PathElem>, notification: Notification)
    requires Nameable(key.keyPolicy) && Nameable(key.keyRule)
    requires notification.prefix.Some? && Contains(notification.prefix.value.origin, PATH_ORIGIN)
    requires notification.update != []
    requires Decoder.ChosenPath(notification.update, notification.prefix.value).elem
          == front + KeyPath(key).elem[1..] + back
    requires NamesNothing(back)
    ensures match ResponseOutcome(SubscribeResponse(Some(notification)))
            case Accepted(record) =>
              CountersParse(notification) && PbrKey(record.policyName, record.ruleName) == key
            case Threw(_) => !CountersParse(notification)
            case Rejected(_) => false
  {
    NoBracketShown(key.keyPolicy);
    NoBracketShown(key.keyRule);
    SlashFreeKeyAsks(key);
    RequestKeyComesBack(key, front, back, notification);
  }
}
