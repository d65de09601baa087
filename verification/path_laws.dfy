/** What printing and parsing paths mean for each other. */
module PathLaws {
  import opened Results
  import opened Text
  import opened GnmiTypes
  import opened PathCodec

  // ----- parsing a list of pieces -----

  ghost predicate FirstInvalid(pieces: seq<string>, i: int) {
    && 0 <= i < |pieces| && ParsePiece(pieces[i]).Failure?
    && forall j :: 0 <= j < i ==> ParsePiece(pieces[j]).Success?
  }

  lemma FirstInvalidLater(pieces: seq<string>, i: int)
    requires pieces != [] && ParsePiece(pieces[0]).Success? && FirstInvalid(pieces[1..], i)
    ensures FirstInvalid(pieces, i + 1) && pieces[i + 1] == pieces[1..][i]
  {
    forall j | 0 <= j < i + 1 ensures ParsePiece(pieces[j]).Success? {
      assert j > 0 ==> pieces[j] == pieces[1..][j - 1];
    }
  }

  /**
   * Parsing succeeds exactly when every piece is valid; it then yields one element per
   * piece, in order, and otherwise the error of the first invalid piece.
   */
  lemma {:induction false} ParsePiecesElementwise(pieces: seq<string>)
    ensures var r := ParsePieces(pieces);
            && (r.Success? <==> forall i :: 0 <= i < |pieces| ==> ParsePiece(pieces[i]).Success?)
            && (r.Success? ==> |r.value| == |pieces|)
            && (r.Success? ==> forall i :: 0 <= i < |pieces| ==> ParsePiece(pieces[i]) == Success(r.value[i]))
            && (r.Failure? ==> exists i :: FirstInvalid(pieces, i) && ParsePiece(pieces[i]) == Failure(r.error))
  {
    if pieces != [] {
      var first, rest := ParsePiece(pieces[0]), pieces[1..];
      ParsePiecesElementwise(rest);
      var r := ParsePieces(rest);
      if first.Success? && r.Failure? {
        var i :| FirstInvalid(rest, i) && ParsePiece(rest[i]) == Failure(r.error);
        FirstInvalidLater(pieces, i);
      } else if first.Success? {
        assert ParsePieces(pieces) == Success([first.value] + r.value);
        forall j | 0 <= j < |pieces| ensures ParsePiece(pieces[j]) == Success(([first.value] + r.value)[j]) {
          assert j > 0 ==> pieces[j] == rest[j - 1];
        }
      } else {
        assert FirstInvalid(pieces, 0);
      }
      assert forall j :: 0 <= j < |rest| ==> rest[j] == pieces[j + 1];
    }
  }

  // ----- the grammar of one piece -----

  /** A pair that can be found again behind '[': cut at its first '=' and at the first ']'. */
  predicate PlainPair(pair: KeyValue) {
    && pair.key != "" && '=' !in pair.key && ']' !in pair.key
    && pair.value != "" && ']' !in pair.value
  }

  /** An element whose name and first pair survive printing and parsing. */
  predicate Reparsable(elem: PathElem) {
    && elem.name != "" && '[' !in elem.name
    && (elem.key != [] ==> ']' !in elem.name && PlainPair(elem.key[0]))
  }

  /** Parsing one list of pieces and then another. */
  lemma {:induction false} ParsePiecesConcat(a: seq<string>, b: seq<string>)
    ensures ParsePieces(a + b)
         == match ParsePieces(a)
            case Failure(e) => Failure(e)
            case Success(elems) => Extend(elems, ParsePieces(b))
  {
    if a == [] {
      assert a + b == b;
      ExtendNothing(ParsePieces(b));
    } else {
      ParsePiecesConcat(a[1..], b);
      assert (a + b)[0] == a[0] && (a + b)[1..] == a[1..] + b;
      if ParsePiece(a[0]).Success? && ParsePieces(a[1..]).Success? {
        ExtendTwice([ParsePiece(a[0]).value], ParsePieces(a[1..]).value, ParsePieces(b));
      }
    }
  }

  lemma ParsePlainPiece(name: string)
    requires name != "" && '[' !in name
    ensures ParsePiece(name) == Success(PathElem(name, []))
  {
    IndexOfUnique(name, '[', |name|);
  }

  /** The text of an accepted keyed piece between its brackets. */
  function BracketText(piece: string): string
    requires IndexOf(piece, '[') < |piece|
  {
    var open, close := IndexOf(piece, '['), IndexOf(piece, ']');
    if close <= open then piece[open + 1..] else piece[open + 1..close]
  }

  lemma KeyedPieceText(name: string, body: string, rest: string)
    requires '[' !in name && ']' !in name && ']' !in body
    ensures var piece := name + ("[" + body + ("]" + rest));
            && IndexOf(piece, '[') < IndexOf(piece, ']') < |piece|
            && piece[..IndexOf(piece, '[')] == name && BracketText(piece) == body
  {
    var piece := name + ("[" + body + ("]" + rest));
    IndexOfAfter(name, "[" + body + ("]" + rest), '[');
    assert piece == name + "[" + body + ("]" + rest);
    IndexOfAfter(name + "[" + body, "]" + rest, ']');
    assert piece[..|name|] == name && piece[|name| + 1..|name| + 1 + |body|] == body;
  }

  lemma ParseOrdered(piece: string, name: string, pair: KeyValue, text: string)
    requires IndexOf(piece, '[') < IndexOf(piece, ']') < |piece|
    requires piece[..IndexOf(piece, '[')] == name && BracketText(piece) == text && name != ""
    requires pair.key != "" && pair.value != "" && |text| == |pair.key| + 1 + |pair.value|
    requires IndexOf(text, '=') == |pair.key|
    requires text[..IndexOf(text, '=')] == pair.key && text[IndexOf(text, '=') + 1..] == pair.value
    ensures ParsePiece(piece) == Success(PathElem(name, [pair]))
  {
  }

  lemma PairBody(pair: KeyValue)
    requires PlainPair(pair)
    ensures var body := pair.key + ("=" + pair.value);
            && IndexOf(body, '=') == |pair.key| && ']' !in body
            && body[..|pair.key|] == pair.key && body[|pair.key| + 1..] == pair.value
  {
    IndexOfAfter(pair.key, "=" + pair.value, '=');
  }

  lemma RegroupPiece(name: string, pair: KeyValue, rest: string)
    ensures name + PairText(pair) + rest == name + ("[" + (pair.key + ("=" + pair.value)) + ("]" + rest))
  {
    assert PairText(pair) == "[" + (pair.key + ("=" + pair.value)) + "]";
  }

  /** A well-formed pair behind a name is read back, whatever follows its closing bracket. */
  lemma ParseKeyedPiece(name: string, pair: KeyValue, rest: string)
    requires name != "" && '[' !in name && ']' !in name && PlainPair(pair)
    ensures ParsePiece(name + PairText(pair) + rest) == Success(PathElem(name, [pair]))
  {
    var body := pair.key + ("=" + pair.value);
    RegroupPiece(name, pair, rest);
    PairBody(pair);
    KeyedPieceText(name, body, rest);
    ParseOrdered(name + ("[" + body + ("]" + rest)), name, pair, body);
  }

  /** What an accepted piece looks like, and how much of it the parsed element keeps. */
  function CanonicalPiece(piece: string): string {
    if IndexOf(piece, '[') == |piece| then piece
    else if BracketsReversed(piece) then piece + "]"
    else
      var close := IndexOf(piece, ']');
      if close == |piece| then piece else piece[..close + 1]
  }

  lemma CutAtIndex(s: string, c: char)
    requires IndexOf(s, c) < |s|
    ensures s == s[..IndexOf(s, c)] + [c] + s[IndexOf(s, c) + 1..]
    ensures c !in s[..IndexOf(s, c)]
  {
    IndexOfIsFirst(s, c);
  }

  lemma OnePairText(elem: PathElem)
    requires |elem.key| == 1
    ensures ElemText(elem) == elem.name + "[" + (elem.key[0].key + "=" + elem.key[0].value) + "]"
  {
    var keys: seq<KeyValue> := elem.key;
    assert KeysText(keys[1..]) == "";
    assert KeysText(keys) == PairText(keys[0]) + "";
  }

  lemma KeyedPieceParts(piece: string)
    requires ParsePiece(piece).Success? && IndexOf(piece, '[') < |piece|
    ensures var elem := ParsePiece(piece).value;
            && elem.name == piece[..IndexOf(piece, '[')] && elem.name != "" && '[' !in elem.name
            && |elem.key| == 1
            && elem.key[0].key != "" && '=' !in elem.key[0].key && elem.key[0].value != ""
            && BracketText(piece) == elem.key[0].key + "=" + elem.key[0].value
            && ElemText(elem) == elem.name + "[" + BracketText(piece) + "]"
  {
    var elem := ParsePiece(piece).value;
    IndexOfIsFirst(piece, '[');
    var pair := elem.key[0];
    CutAtIndex(BracketText(piece), '=');
    OnePairText(elem);
  }

  lemma AcceptedReversedPiece(piece: string)
    requires ParsePiece(piece).Success? && BracketsReversed(piece)
    ensures ElemText(ParsePiece(piece).value) == CanonicalPiece(piece)
    ensures !Reparsable(ParsePiece(piece).value)
  {
    KeyedPieceParts(piece);
    CutAtIndex(piece, '[');
    var open, close := IndexOf(piece, '['), IndexOf(piece, ']');
    assert piece[..open][close] == ']';
    assert piece + "]" == piece[..open] + "[" + piece[open + 1..] + "]";
  }

  lemma OrderedPieceParts(piece: string, name: string, text: string)
    requires IndexOf(piece, '[') < IndexOf(piece, ']') < |piece|
    requires name == piece[..IndexOf(piece, '[')] && text == BracketText(piece)
    ensures CanonicalPiece(piece) == name + "[" + text + "]" && ']' !in name && ']' !in text
  {
    OrderedCut(piece);
    IndexOfIsFirst(piece, ']');
    OrderedBrackets(piece, IndexOf(piece, '['), IndexOf(piece, ']'), name, CanonicalPiece(piece), text);
  }

  lemma AcceptedOrderedPiece(piece: string)
    requires ParsePiece(piece).Success? && IndexOf(piece, '[') < |piece| && !BracketsReversed(piece)
    ensures ElemText(ParsePiece(piece).value) == CanonicalPiece(piece)
    ensures Reparsable(ParsePiece(piece).value)
  {
    var elem := ParsePiece(piece).value;
    KeyedPieceParts(piece);
    BracketsInOrder(piece);
    OrderedPieceParts(piece, elem.name, BracketText(piece));
    NoBracketInside(BracketText(piece), elem.key[0]);
  }

  lemma FoundInText(s: string, c: char)
    ensures c in s <==> IndexOf(s, c) < |s|
  {
    IndexOfIsFirst(s, c);
    assert s[..|s|] == s;
  }

  /** Something other than '=', one '=', and something. */
  ghost predicate IsPair(text: string) {
    exists key, value :: text == key + ("=" + value) && key != "" && '=' !in key && value != ""
  }

  lemma CutIsPair(text: string)
    requires 0 < IndexOf(text, '=') < |text| - 1
    ensures IsPair(text)
  {
    var key, value := text[..IndexOf(text, '=')], text[IndexOf(text, '=') + 1..];
    CutAtIndex(text, '=');
    Assoc(key, "=", value);
    assert text == key + ("=" + value);
  }

  lemma PairIsCut(text: string, key: string, value: string)
    requires text == key + ("=" + value) && key != "" && '=' !in key && value != ""
    ensures 0 < IndexOf(text, '=') < |text| - 1
  {
    IndexOfAfter(key, "=" + value, '=');
  }

  lemma PairCut(text: string)
    ensures IsPair(text) <==> 0 < IndexOf(text, '=') < |text| - 1
  {
    if 0 < IndexOf(text, '=') < |text| - 1 {
      CutIsPair(text);
    }
    if key, value :| text == key + ("=" + value) && key != "" && '=' !in key && value != "" {
      PairIsCut(text, key, value);
    }
  }

  /** When a piece is refused, and what for. */
  lemma RefusedPiece(piece: string)
    ensures var parsed := ParsePiece(piece);
            && (parsed == Failure(EmptyElement) <==> piece == "")
            && (parsed == Failure(MissingClosingBracket) <==> '[' in piece && ']' !in piece)
            && (parsed == Failure(EmptyName) <==> piece != "" && piece[0] == '[' && ']' in piece)
    ensures '[' in piece ==>
              && IndexOf(piece, '[') < |piece|
              && (ParsePiece(piece) == Failure(NotKeyEqualsValue)
                  <==> ']' in piece && piece[0] != '[' && !IsPair(BracketText(piece)))
    ensures piece != "" && '[' !in piece ==> ParsePiece(piece).Success?
  {
    FoundInText(piece, '[');
    FoundInText(piece, ']');
    if piece != "" {
      PlainPieces(piece);
    }
    if IndexOf(piece, '[') < |piece| {
      PairCut(BracketText(piece));
      BracketsDecide(piece);
    }
  }

  lemma BracketsDecide(piece: string)
    requires IndexOf(piece, '[') < |piece|
    ensures IndexOf(piece, '[') == 0 <==> piece[0] == '['
    ensures 0 < IndexOf(piece, '[') && IndexOf(piece, ']') < |piece| ==>
              if 0 < IndexOf(BracketText(piece), '=') < |BracketText(piece)| - 1 then ParsePiece(piece).Success?
              else ParsePiece(piece) == Failure(NotKeyEqualsValue)
  {
    DifferentPlaces(piece, '[', ']');
  }

  lemma HasClosingBracket(piece: string)
    requires ParsePiece(piece).Success? && IndexOf(piece, '[') < |piece|
    ensures IndexOf(piece, ']') < |piece|
  {
  }

  lemma BracketsInOrder(piece: string)
    requires ParsePiece(piece).Success? && IndexOf(piece, '[') < |piece| && !BracketsReversed(piece)
    ensures IndexOf(piece, '[') < IndexOf(piece, ']') < |piece|
  {
    HasClosingBracket(piece);
    DifferentPlaces(piece, '[', ']');
  }

  lemma OrderedCut(piece: string)
    requires IndexOf(piece, '[') < IndexOf(piece, ']') < |piece|
    ensures CanonicalPiece(piece) == piece[..IndexOf(piece, ']') + 1]
    ensures BracketText(piece) == piece[IndexOf(piece, '[') + 1..IndexOf(piece, ']')]
  {
  }

  lemma OrderedBrackets(piece: string, open: nat, close: nat, name: string, upTo: string, text: string)
    requires open < close < |piece| && piece[open] == '[' && piece[close] == ']' && ']' !in piece[..close]
    requires name == piece[..open] && upTo == piece[..close + 1] && text == piece[open + 1..close]
    ensures upTo == name + "[" + text + "]"
    ensures ']' !in name && ']' !in text
  {
    var before := piece[..close];
    assert before[..open] == name && before[open + 1..] == text;
  }

  lemma NoBracketInside(keyValue: string, pair: KeyValue)
    requires ']' !in keyValue && keyValue == pair.key + "=" + pair.value
    ensures ']' !in pair.key && ']' !in pair.value
  {
    assert keyValue[..|pair.key|] == pair.key;
    assert keyValue[|pair.key| + 1..] == pair.value;
  }

  /**
   * Accepted pieces: printing the element gives the piece up to its first ']', and the
   * element can be read back exactly when the brackets of the piece are not reversed.
   */
  lemma AcceptedPiece(piece: string)
    requires ParsePiece(piece).Success?
    ensures ElemText(ParsePiece(piece).value) == CanonicalPiece(piece)
    ensures |ParsePiece(piece).value.key| <= 1
    ensures Reparsable(ParsePiece(piece).value) <==> !BracketsReversed(piece)
  {
    if IndexOf(piece, '[') == |piece| {
      IndexOfIsFirst(piece, '[');
      assert piece[..|piece|] == piece;
      assert piece + "" == piece;
    } else if BracketsReversed(piece) {
      KeyedPieceParts(piece);
      AcceptedReversedPiece(piece);
    } else {
      KeyedPieceParts(piece);
      AcceptedOrderedPiece(piece);
    }
  }

  // ----- printing and parsing again -----

  /** The element that is left when only the pair printed first is kept. */
  function FirstPairOnly(elem: PathElem): PathElem {
    if elem.key == [] then elem else PathElem(elem.name, [elem.key[0]])
  }

  function FirstPairsOnly(elems: seq<PathElem>): (r: seq<PathElem>)
    ensures |r| == |elems| && forall i :: 0 <= i < |elems| ==> r[i] == FirstPairOnly(elems[i])
  {
    if elems == [] then [] else [FirstPairOnly(elems[0])] + FirstPairsOnly(elems[1..])
  }

  lemma ElemTextLength(elem: PathElem)
    ensures |ElemText(FirstPairOnly(elem))| <= |ElemText(elem)|
  {
    if elem.key != [] {
      var keys: seq<KeyValue> := elem.key;
      OnePairText(FirstPairOnly(elem));
      assert KeysText(keys) == PairText(keys[0]) + KeysText(keys[1..]);
    }
  }

  lemma ElemReparse(elem: PathElem)
    ensures ParsePiece(ElemText(elem)) == Success(FirstPairOnly(elem)) <==> Reparsable(elem)
  {
    var text := ElemText(elem);
    if Reparsable(elem) {
      if elem.key == [] {
        assert text == elem.name;
        ParsePlainPiece(elem.name);
      } else {
        var keys: seq<KeyValue> := elem.key;
        assert text == elem.name + PairText(keys[0]) + KeysText(keys[1..]);
        ParseKeyedPiece(elem.name, keys[0], KeysText(keys[1..]));
      }
    }
    if ParsePiece(text) == Success(FirstPairOnly(elem)) {
      ElemTextLength(elem);
      AcceptedPiece(text);
    }
  }

  /** Parsing keeps the slashes out of the elements. */
  lemma AcceptedPieceSlashFree(piece: string)
    requires ParsePiece(piece).Success? && '/' !in piece
    ensures '/' !in ElemText(ParsePiece(piece).value)
    ensures '/' !in ParsePiece(piece).value.name && ParsePiece(piece).value.name != ""
  {
    AcceptedPiece(piece);
    var elem := ParsePiece(piece).value;
    assert '/' !in CanonicalPiece(piece);
    assert elem.name == ElemText(elem)[..|elem.name|];
  }

  lemma SplitAt(head: string, tail: string)
    requires '/' !in head
    ensures Split(head + "/" + tail) == [head] + Split(tail)
  {
    var s := head + ("/" + tail);
    IndexOfAfter(head, "/" + tail, '/');
    assert s == head + "/" + tail;
    assert s[..|head|] == head && s[|head| + 1..] == tail;
  }

  lemma SplitAfter(head: string, tail: string, b: string)
    requires '/' !in head && Split(tail + "/" + b) == Split(tail) + Split(b)
    ensures Split(head + "/" + tail + "/" + b) == Split(head + "/" + tail) + Split(b)
  {
    SplitAt(head, tail);
    SplitAt(head, tail + "/" + b);
    Regroup(head, "/", tail, "/", b);
    Prefixed(head, Split(tail), Split(b));
  }

  lemma Regroup<T>(a: seq<T>, b: seq<T>, c: seq<T>, d: seq<T>, e: seq<T>)
    ensures a + b + c + d + e == a + b + (c + d + e)
  {
  }

  lemma Prefixed(head: string, a: seq<string>, b: seq<string>)
    ensures [head] + (a + b) == [head] + a + b
  {
  }

  lemma {:induction false} SplitConcat(a: string, b: string)
    ensures Split(a + "/" + b) == Split(a) + Split(b)
    decreases |a|
  {
    var i := IndexOf(a, '/');
    IndexOfIsFirst(a, '/');
    if i == |a| {
      assert a[..i] == a;
      assert Split(a) == [a];
      SplitAt(a, b);
    } else {
      SplitConcat(a[i + 1..], b);
      SplitAfter(a[..i], a[i + 1..], b);
      assert a == a[..i] + "/" + a[i + 1..];
    }
  }

  function SplitAll(texts: seq<string>): seq<string> {
    if texts == [] then [] else Split(texts[0]) + SplitAll(texts[1..])
  }

  lemma Headed(rest: string)
    requires rest != "" && rest[0] == '/'
    ensures rest == "/" + rest[1..]
  {
  }

  lemma {:induction false} SplitOfSlashed(texts: seq<string>)
    requires texts != []
    ensures Slashed(texts) != "" && Split(Slashed(texts)[1..]) == SplitAll(texts)
  {
    var rest := Slashed(texts[1..]);
    SlashedTail(texts);
    if |texts| == 1 {
      assert texts[0] + rest == texts[0];
      assert SplitAll(texts) == Split(texts[0]) + [];
    } else {
      SplitOfSlashed(texts[1..]);
      SlashedTail(texts[1..]);
      Headed(rest);
      Assoc(texts[0], "/", rest[1..]);
      SplitConcat(texts[0], rest[1..]);
    }
  }

  /** There are at least as many pieces as texts, and more when a text contains a slash. */
  lemma {:induction false} SplitAllCounts(texts: seq<string>)
    ensures |SplitAll(texts)| >= |texts|
    ensures |SplitAll(texts)| == |texts| <==> SlashFree(texts)
    ensures SlashFree(texts) ==> SplitAll(texts) == texts
  {
    if texts != [] {
      var i := IndexOf(texts[0], '/');
      IndexOfIsFirst(texts[0], '/');
      assert texts[0][..|texts[0]|] == texts[0];
      SplitAllCounts(texts[1..]);
      assert SlashFree(texts) <==> '/' !in texts[0] && SlashFree(texts[1..]) by {
        assert forall j :: 0 < j < |texts| ==> texts[j] == texts[1..][j - 1];
      }
      assert SlashFree(texts) ==> SplitAll(texts) == [texts[0]] + texts[1..];
    }
  }

  function LastOf<T>(s: seq<T>): T
    requires s != []
  {
    s[|s| - 1]
  }

  lemma LastOfConcat<T>(a: seq<T>, b: seq<T>)
    requires b != []
    ensures LastOf(a + b) == LastOf(b)
  {
  }

  lemma {:induction false} SplitAllLast(texts: seq<string>)
    requires texts != []
    ensures SplitAll(texts) != []
    ensures LastOf(SplitAll(texts)) == LastOf(Split(LastOf(texts)))
  {
    if |texts| == 1 {
      assert SplitAll(texts) == Split(texts[0]) + [];
    } else {
      SplitAllLast(texts[1..]);
      LastOfConcat(Split(texts[0]), SplitAll(texts[1..]));
      assert LastOf(texts[1..]) == LastOf(texts);
    }
  }

  lemma {:induction false} LastPieceNonEmpty(s: string)
    requires s != "" && s[|s| - 1] != '/'
    ensures LastOf(Split(s)) != ""
    decreases |s|
  {
    var i := IndexOf(s, '/');
    if i < |s| {
      LastPieceNonEmpty(s[i + 1..]);
    }
  }

  lemma PiecesOfSlashed(texts: seq<string>)
    ensures Pieces(Slashed(texts)) == if texts == [] then [] else (SplitAllLast(texts); Trim(SplitAll(texts)))
  {
    if texts == [] {
      TrimmedSplitStep("");
    } else {
      SplitOfSlashed(texts);
    }
  }

  /** Every name and first pair survives, and nothing printed contains a slash. */
  predicate ReparsablePath(path: Path) {
    forall i :: 0 <= i < |path.elem| ==> Reparsable(path.elem[i]) && '/' !in ElemText(path.elem[i])
  }

  lemma PiecesOfReparsable(path: Path)
    requires ReparsablePath(path)
    ensures Pieces(PathText(path)) == ElemTexts(path.elem)
  {
    var texts := ElemTexts(path.elem);
    PiecesOfSlashed(texts);
    SplitAllCounts(texts);
    if texts != [] {
      var last := path.elem[|path.elem| - 1];
      assert texts[|texts| - 1] == ElemText(last) && last.name != "";
    }
  }

  lemma LastTextEnd(path: Path, pieces: seq<string>)
    requires path.elem != [] && |pieces| == |path.elem| && SlashFree(pieces)
    requires ParsePieces(pieces) == Success(FirstPairsOnly(path.elem))
    ensures var last := ElemText(path.elem[|path.elem| - 1]);
            last != "" && last[|last| - 1] != '/'
  {
    ParsePiecesElementwise(pieces);
    AcceptedPieceSlashFree(pieces[|pieces| - 1]);
    ElemTextEnd(path.elem[|path.elem| - 1]);
  }

  lemma NothingTrimmed(texts: seq<string>, last: string)
    requires texts != [] && last == LastOf(texts) && last != "" && last[|last| - 1] != '/'
    ensures Pieces(Slashed(texts)) == SplitAll(texts)
  {
    SplitAllLast(texts);
    LastPieceNonEmpty(last);
    PiecesOfSlashed(texts);
    TrimKeeps(SplitAll(texts));
  }

  lemma TrimKeeps(pieces: seq<string>)
    requires pieces != [] && LastOf(pieces) != ""
    ensures Trim(pieces) == pieces
  {
  }

  lemma AsManyPiecesAsTexts(texts: seq<string>)
    requires texts != [] && texts[|texts| - 1] != "" && texts[|texts| - 1][|texts[|texts| - 1]| - 1] != '/'
    requires |Pieces(Slashed(texts))| == |texts|
    ensures SlashFree(texts) && Pieces(Slashed(texts)) == texts
  {
    NothingTrimmed(texts, LastOf(texts));
    SplitAllCounts(texts);
  }

  /** If all elements come back, no printed element contained a slash. */
  lemma NoSlashWasPrinted(path: Path)
    requires ParsePieces(Pieces(PathText(path))) == Success(FirstPairsOnly(path.elem))
    ensures SlashFree(ElemTexts(path.elem))
    ensures Pieces(PathText(path)) == ElemTexts(path.elem)
  {
    var pieces := Pieces(PathText(path));
    ParsePiecesElementwise(pieces);
    if path.elem != [] {
      PiecesAreSlashFree(PathText(path));
      LastTextEnd(path, pieces);
      AsManyPiecesAsTexts(ElemTexts(path.elem));
    } else {
      TrimmedSplitStep("");
    }
  }

  lemma {:induction false} KeysTextEnd(keys: seq<KeyValue>)
    requires keys != []
    ensures KeysText(keys) != "" && KeysText(keys)[|KeysText(keys)| - 1] == ']'
  {
    if |keys| == 1 {
      assert KeysText(keys) == PairText(keys[0]) + "";
    } else {
      KeysTextEnd(keys[1..]);
    }
  }

  lemma ElemTextEnd(elem: PathElem)
    requires elem.name != "" && '/' !in elem.name
    ensures ElemText(elem) != "" && ElemText(elem)[|ElemText(elem)| - 1] != '/'
  {
    if elem.key != [] {
      KeysTextEnd(elem.key);
    } else {
      assert ElemText(elem) == elem.name;
    }
  }

  lemma ElemsReparse(elems: seq<PathElem>, i: nat)
    requires i < |elems|
    ensures ParsePiece(ElemTexts(elems)[i]) == Success(FirstPairsOnly(elems)[i]) <==> Reparsable(elems[i])
  {
    ElemReparse(elems[i]);
  }

  lemma ReparsableComesBack(path: Path)
    requires ReparsablePath(path)
    ensures ParsePieces(Pieces(PathText(path))) == Success(FirstPairsOnly(path.elem))
  {
    var texts, elems := ElemTexts(path.elem), FirstPairsOnly(path.elem);
    PiecesOfReparsable(path);
    ParsePiecesElementwise(texts);
    forall i | 0 <= i < |path.elem| ensures ParsePiece(texts[i]) == Success(elems[i]) {
      ElemsReparse(path.elem, i);
    }
    assert ParsePieces(texts).value == elems;
  }

  lemma WhatComesBackIsReparsable(path: Path)
    requires ParsePieces(Pieces(PathText(path))) == Success(FirstPairsOnly(path.elem))
    ensures ReparsablePath(path)
  {
    var texts := ElemTexts(path.elem);
    NoSlashWasPrinted(path);
    ParsePiecesElementwise(texts);
    forall i | 0 <= i < |path.elem| ensures Reparsable(path.elem[i]) && '/' !in ElemText(path.elem[i]) {
      assert '/' !in texts[i];
      ElemsReparse(path.elem, i);
    }
  }

  /**
   * Printing and parsing keeps every element and, of its keys, exactly the pair printed
   * first - if and only if the names and first pairs are well formed and no slash is printed.
   */
  lemma ReparseKeepsFirstPairs(path: Path)
    ensures ParsePath(PathText(path)) == Success(Path("", FirstPairsOnly(path.elem))) <==> ReparsablePath(path)
  {
    if ReparsablePath(path) {
      ReparsableComesBack(path);
    } else if ParsePieces(Pieces(PathText(path))) == Success(FirstPairsOnly(path.elem)) {
      WhatComesBackIsReparsable(path);
    }
  }

  /** Well-formed elements come back with a submap of their keys, whatever order the printer picked. */
  lemma ReparsedKeysAreSubmap(path: Path, i: nat, pair: KeyValue)
    requires ReparsablePath(path) && i < |path.elem|
    ensures ParsePath(PathText(path)).Success?
    ensures var back := ParsePath(PathText(path)).value.elem;
            && |back| == |path.elem| && back[i].name == path.elem[i].name
            && |back[i].key| == (if path.elem[i].key == [] then 0 else 1)
            && (pair in back[i].key ==> FindKey(path.elem[i].key, pair.key) == Some(pair.value))
  {
    ReparseKeepsFirstPairs(path);
  }

  /** The paths that come back exactly. */
  predicate RoundTrips(path: Path) {
    && path.origin == ""
    && ReparsablePath(path)
    && forall i :: 0 <= i < |path.elem| ==> |path.elem[i].key| <= 1
  }

  /** Parsing a printed path gives the same path back exactly for those. */
  lemma RoundTrip(path: Path)
    ensures ParsePath(PathText(path)) == Success(path) <==> RoundTrips(path)
  {
    ReparseKeepsFirstPairs(path);
    if ParsePath(PathText(path)) == Success(path) {
      ParsedHaveOneKey(Pieces(PathText(path)));
    }
    if forall i :: 0 <= i < |path.elem| ==> |path.elem[i].key| <= 1 {
      FirstPairsOfSingles(path.elem);
    }
  }

  lemma ParsedHaveOneKey(pieces: seq<string>)
    requires ParsePieces(pieces).Success?
    ensures forall i :: 0 <= i < |ParsePieces(pieces).value| ==> |ParsePieces(pieces).value[i].key| <= 1
  {
    ParsePiecesElementwise(pieces);
    forall i | 0 <= i < |pieces| ensures |ParsePieces(pieces).value[i].key| <= 1 {
      AcceptedPiece(pieces[i]);
    }
  }

  lemma FirstPairsOfSingles(elems: seq<PathElem>)
    requires forall i :: 0 <= i < |elems| ==> |elems[i].key| <= 1
    ensures FirstPairsOnly(elems) == elems
  {
    forall i | 0 <= i < |elems| ensures FirstPairsOnly(elems)[i] == elems[i] {
      assert elems[i].key != [] ==> elems[i].key == [elems[i].key[0]];
    }
  }

  // ----- normal forms -----

  function CanonicalPieces(pieces: seq<string>): (r: seq<string>)
    ensures |r| == |pieces| && forall i :: 0 <= i < |pieces| ==> r[i] == CanonicalPiece(pieces[i])
  {
    if pieces == [] then [] else [CanonicalPiece(pieces[0])] + CanonicalPieces(pieces[1..])
  }

  /** One slash before each piece, none at the end, nothing after the first ']' of a keyed piece. */
  function NormalForm(s: string): string {
    Slashed(CanonicalPieces(Pieces(s)))
  }

  predicate NothingReversed(s: string) {
    forall i :: 0 <= i < |Pieces(s)| ==> !BracketsReversed(Pieces(s)[i])
  }

  lemma PiecesAreSlashFree(s: string)
    ensures SlashFree(Pieces(s))
  {
    SplitIsSlashFree(if s != "" && s[0] == '/' then s[1..] else s);
  }

  /** Printing an accepted string's path gives the normal form of the string. */
  lemma PrintGivesNormalForm(s: string)
    requires ParsePath(s).Success?
    ensures PathText(ParsePath(s).value) == NormalForm(s)
  {
    var pieces, elems := Pieces(s), ParsePath(s).value.elem;
    ParsePiecesElementwise(pieces);
    forall i | 0 <= i < |pieces| ensures ElemText(elems[i]) == CanonicalPiece(pieces[i]) {
      AcceptedPiece(pieces[i]);
    }
    assert ElemTexts(elems) == CanonicalPieces(pieces);
  }

  lemma AcceptedElem(pieces: seq<string>, i: nat)
    requires ParsePieces(pieces).Success? && i < |pieces| && SlashFree(pieces)
    ensures i < |ParsePieces(pieces).value|
    ensures var elem := ParsePieces(pieces).value[i];
            && (Reparsable(elem) <==> !BracketsReversed(pieces[i])) && '/' !in ElemText(elem) && |elem.key| <= 1
  {
    ParsePiecesElementwise(pieces);
    AcceptedPiece(pieces[i]);
    AcceptedPieceSlashFree(pieces[i]);
  }

  lemma AcceptedRoundTrips(s: string)
    requires ParsePath(s).Success?
    ensures RoundTrips(ParsePath(s).value) <==> NothingReversed(s)
  {
    var pieces, elems := Pieces(s), ParsePath(s).value.elem;
    ParsePiecesElementwise(pieces);
    PiecesAreSlashFree(s);
    forall i | 0 <= i < |pieces|
      ensures Reparsable(elems[i]) <==> !BracketsReversed(pieces[i])
      ensures '/' !in ElemText(elems[i]) && |elems[i].key| <= 1
    {
      AcceptedElem(pieces, i);
    }
  }

  /**
   * Parsing normalizes: for an accepted string, parsing the printed path gives the path
   * again if and only if no piece has its first ']' before its first '['.
   */
  lemma ParsingNormalizes(s: string)
    requires ParsePath(s).Success?
    ensures ParsePath(PathText(ParsePath(s).value)) == ParsePath(s) <==> NothingReversed(s)
  {
    AcceptedRoundTrips(s);
    RoundTrip(ParsePath(s).value);
  }

  /** What parsing makes sure of in every element. */
  predicate ParsedElem(elem: PathElem) {
    '[' !in elem.name && |elem.key| <= 1 && (elem.key != [] ==> '=' !in elem.key[0].key)
  }

  lemma ParsedPiece(piece: string)
    requires ParsePiece(piece).Success?
    ensures ParsedElem(ParsePiece(piece).value)
  {
    if IndexOf(piece, '[') < |piece| {
      KeyedPieceParts(piece);
    } else {
      IndexOfIsFirst(piece, '[');
      assert piece[..|piece|] == piece;
    }
  }

  /** A text is cut in one way at the first occurrence of a character. */
  lemma SameCut(a: string, b: string, c: char, x: string, y: string)
    requires c !in a && c !in b && a + ([c] + x) == b + ([c] + y)
    ensures a == b && x == y
  {
    var s := a + ([c] + x);
    IndexOfAfter(a, [c] + x, c);
    IndexOfAfter(b, [c] + y, c);
    assert s[..|a|] == a && s[..|b|] == b;
    assert s[|a| + 1..] == x && s[|b| + 1..] == y;
  }

  lemma SameEnd(x: string, y: string, c: char)
    requires x + [c] == y + [c]
    ensures x == y
  {
    assert (x + [c])[..|x|] == x && (y + [c])[..|y|] == y;
  }

  lemma KeyedElemText(elem: PathElem)
    requires |elem.key| == 1
    ensures ElemText(elem) == elem.name + (['['] + (elem.key[0].key + (['='] + (elem.key[0].value + [']']))))
  {
    OnePairText(elem);
  }

  /** Elements that parsing yields print alike only if they are the same. */
  lemma ElemTextInjective(a: PathElem, b: PathElem)
    requires ParsedElem(a) && ParsedElem(b) && ElemText(a) == ElemText(b)
    ensures a == b
  {
    if |a.key| == 1 {
      KeyedElemText(a);
      assert '[' in ElemText(a);
    } else {
      assert ElemText(a) == a.name;
    }
    if |b.key| == 1 {
      KeyedElemText(b);
      assert '[' in ElemText(b);
    } else {
      assert ElemText(b) == b.name;
    }
    if |a.key| == 1 && |b.key| == 1 {
      var p, q := a.key[0], b.key[0];
      SameCut(a.name, b.name, '[', p.key + (['='] + (p.value + [']'])), q.key + (['='] + (q.value + [']'])));
      SameCut(p.key, q.key, '=', p.value + [']'], q.value + [']']);
      SameEnd(p.value, q.value, ']');
      assert a.key == [p] && b.key == [q];
    }
  }

  lemma ParsedElems(s: string)
    requires ParsePath(s).Success?
    ensures var elems := ParsePath(s).value.elem;
            && (forall i :: 0 <= i < |elems| ==> ParsedElem(elems[i])) && SlashFree(ElemTexts(elems))
  {
    var pieces, elems := Pieces(s), ParsePath(s).value.elem;
    ParsePiecesElementwise(pieces);
    PiecesAreSlashFree(s);
    forall i | 0 <= i < |pieces| ensures ParsedElem(elems[i]) && '/' !in ElemTexts(elems)[i] {
      ParsedPiece(pieces[i]);
      AcceptedElem(pieces, i);
    }
  }

  lemma SlashedInjective(a: seq<string>, b: seq<string>)
    requires SlashFree(a) && SlashFree(b) && Slashed(a) == Slashed(b)
    ensures a == b
  {
    if a != [] {
      SlashedTail(a);
      SplitSlashed(a);
    }
    if b != [] {
      SlashedTail(b);
      SplitSlashed(b);
    }
  }

  lemma ElemTextsInjective(a: seq<PathElem>, b: seq<PathElem>)
    requires ElemTexts(a) == ElemTexts(b)
    requires forall i :: 0 <= i < |a| ==> ParsedElem(a[i])
    requires forall i :: 0 <= i < |b| ==> ParsedElem(b[i])
    ensures a == b
  {
    assert |a| == |ElemTexts(a)| == |ElemTexts(b)| == |b|;
    forall i | 0 <= i < |a| ensures a[i] == b[i] {
      assert ElemTexts(a)[i] == ElemTexts(b)[i];
      ElemTextInjective(a[i], b[i]);
    }
  }

  /** Two accepted strings denote the same path exactly when their normal forms agree. */
  lemma SamePathSameNormalForm(s: string, t: string)
    requires ParsePath(s).Success? && ParsePath(t).Success?
    ensures ParsePath(s) == ParsePath(t) <==> NormalForm(s) == NormalForm(t)
  {
    PrintGivesNormalForm(s);
    PrintGivesNormalForm(t);
    if NormalForm(s) == NormalForm(t) {
      var a, b := ParsePath(s).value.elem, ParsePath(t).value.elem;
      ParsedElems(s);
      ParsedElems(t);
      SlashedInjective(ElemTexts(a), ElemTexts(b));
      ElemTextsInjective(a, b);
    }
  }

  /** A path with reversed brackets is accepted, but printing and parsing changes it. */
  lemma ReversedBracketsDoNotNormalize()
    ensures ParsePath("a]b[k=v").Success?
    ensures ParsePath(PathText(ParsePath("a]b[k=v").value)) != ParsePath("a]b[k=v")
  {
    var s := "a]b[k=v";
    IndexOfUnique(s, '/', |s|);
    IndexOfUnique(s, '[', 3);
    IndexOfUnique(s, ']', 1);
    assert s[4..] == "k=v";
    IndexOfUnique("k=v", '=', 1);
    TrimmedSplitStep(s);
    assert s[..|s|] == s;
    assert Pieces(s) == [s] && BracketsReversed(Pieces(s)[0]);
    ParsePiecesElementwise([s]);
    ParsingNormalizes(s);
  }
}
