/** Printing gNMI paths as strings and parsing them back (mgbl_gnmi_helper.cpp). */
module PathCodec {
  import opened Results
  import opened Text
  import opened GnmiTypes

  // ----- printing -----

  function PairText(pair: KeyValue): string {
    "[" + pair.key + "=" + pair.value + "]"
  }

  function KeysText(keys: seq<KeyValue>): string {
    if keys == [] then "" else PairText(keys[0]) + KeysText(keys[1..])
  }

  function ElemText(elem: PathElem): string {
    elem.name + KeysText(elem.key)
  }

  function ElemTexts(elems: seq<PathElem>): (texts: seq<string>)
    ensures |texts| == |elems|
    ensures forall i :: 0 <= i < |elems| ==> texts[i] == ElemText(elems[i])
  {
    if elems == [] then [] else [ElemText(elems[0])] + ElemTexts(elems[1..])
  }

  /** The printed form of a path: each element behind a slash. The origin is not printed. */
  function PathText(path: Path): string {
    Slashed(ElemTexts(path.elem))
  }

  lemma {:induction false} KeysTextAppend(keys: seq<KeyValue>, pair: KeyValue)
    ensures KeysText(keys + [pair]) == KeysText(keys) + PairText(pair)
  {
    if keys == [] {
      assert keys + [pair] == [pair];
      assert KeysText([pair]) == PairText(pair) + KeysText([]);
    } else {
      KeysTextAppend(keys[1..], pair);
      assert (keys + [pair])[1..] == keys[1..] + [pair];
      Assoc(PairText(keys[0]), KeysText(keys[1..]), PairText(pair));
    }
  }

  /** One more pair behind what is printed. */
  lemma PrintPair(printed: string, keys: seq<KeyValue>, j: nat)
    requires j < |keys|
    ensures printed + KeysText(keys[..j]) + PairText(keys[j]) == printed + KeysText(keys[..j + 1])
  {
    KeysTextAppend(keys[..j], keys[j]);
    assert keys[..j + 1] == keys[..j] + [keys[j]];
    Assoc(printed, KeysText(keys[..j]), PairText(keys[j]));
  }

  /** One more element behind what is printed. */
  lemma PrintElem(elems: seq<PathElem>, i: nat)
    requires i < |elems|
    ensures Slashed(ElemTexts(elems[..i])) + "/" + elems[i].name + KeysText(elems[i].key)
         == Slashed(ElemTexts(elems[..i + 1]))
  {
    var text := ElemText(elems[i]);
    assert ElemTexts(elems[..i + 1]) == ElemTexts(elems[..i]) + [text];
    SlashedAppend(ElemTexts(elems[..i]), [text]);
    SlashedOne(text);
    Assoc(Slashed(ElemTexts(elems[..i])), "/", text);
    Assoc(Slashed(ElemTexts(elems[..i])) + "/", elems[i].name, KeysText(elems[i].key));
  }

  method GnmiPathToString(path: Path) returns (element: string)
    ensures element == PathText(path)
  {
    element := "";
    var i := 0;
    while i < |path.elem|
      invariant 0 <= i <= |path.elem|
      invariant element == Slashed(ElemTexts(path.elem[..i]))
    {
      element := element + "/";
      element := element + path.elem[i].name;
      ghost var named := element;
      var keys := path.elem[i].key;
      var j := 0;
      while j < |keys|
        invariant 0 <= j <= |keys|
        invariant element == named + KeysText(keys[..j])
      {
        PrintPair(named, keys, j);
        element := element + ("[" + keys[j].key + "=" + keys[j].value + "]");
        j := j + 1;
      }
      assert keys[..j] == keys;
      PrintElem(path.elem, i);
      i := i + 1;
    }
    assert path.elem[..i] == path.elem;
  }

  // ----- parsing -----

  /** The four reasons for which std::invalid_argument is thrown. */
  datatype PathError = EmptyElement | MissingClosingBracket | EmptyName | NotKeyEqualsValue

  /** True when a closing bracket comes before the first opening one. */
  predicate BracketsReversed(piece: string) {
    IndexOf(piece, ']') < IndexOf(piece, '[') < |piece|
  }

  /**
   * One path element. When the first ']' precedes the first '[', the length of the
   * key-value text wraps around and the text runs to the end of the piece.
   */
  function ParsePiece(piece: string): Result<PathElem, PathError> {
    var open, close := IndexOf(piece, '['), IndexOf(piece, ']');
    if piece == "" then Failure(EmptyElement)
    else if open == |piece| then Success(PathElem(piece, []))
    else if close == |piece| then Failure(MissingClosingBracket)
    else if open == 0 then Failure(EmptyName)
    else
      var keyValue := if close < open then piece[open + 1..] else piece[open + 1..close];
      var equal := IndexOf(keyValue, '=');
      if equal == |keyValue| || equal == 0 || equal == |keyValue| - 1 then Failure(NotKeyEqualsValue)
      else Success(PathElem(piece[..open], [KeyValue(keyValue[..equal], keyValue[equal + 1..])]))
  }

  /** All pieces, left to right; the first invalid one decides the error. */
  function ParsePieces(pieces: seq<string>): Result<seq<PathElem>, PathError> {
    if pieces == [] then Success([])
    else
      match ParsePiece(pieces[0])
      case Failure(e) => Failure(e)
      case Success(elem) => Extend([elem], ParsePieces(pieces[1..]))
  }

  function Extend(done: seq<PathElem>, rest: Result<seq<PathElem>, PathError>): Result<seq<PathElem>, PathError> {
    match rest
    case Failure(e) => Failure(e)
    case Success(elems) => Success(done + elems)
  }

  /** The pieces of a path: without one leading slash, split on '/', without a final empty piece. */
  function Pieces(path: string): seq<string> {
    TrimmedSplit(if path != "" && path[0] == '/' then path[1..] else path)
  }

  /** The specification of string_to_gnmipath: parse each piece on its own. */
  function ParsePath(path: string): Result<Path, PathError> {
    match ParsePieces(Pieces(path))
    case Failure(e) => Failure(e)
    case Success(elems) => Success(Path("", elems))
  }

  lemma FindIsIndexOf(s: string, c: char)
    requires |s| < NPOS
    ensures Find(s, c, 0) == if IndexOf(s, c) == |s| then NPOS else IndexOf(s, c)
  {
    assert s[0..] == s;
  }

  /** The cut between the brackets; its length wraps around when they are reversed. */
  lemma CutBetweenBrackets(elem: string, open: nat, close: nat)
    requires |elem| < NPOS && open < |elem| && close < |elem| && open != close
    ensures Substr(elem, open + 1, SizeSub(SizeSub(close, open), 1))
         == if close < open then elem[open + 1..] else elem[open + 1..close]
  {
    if close < open {
      assert SizeSub(SizeSub(close, open), 1) == close + NPOS - open;
    }
  }

  /** A piece with both brackets and a name is decided by the text after its '['. */
  lemma BracketedPiece(elem: string, open: nat, close: nat, keyValue: string, pair: Option<KeyValue>)
    requires open == IndexOf(elem, '[') && close == IndexOf(elem, ']') && 0 < open < |elem| && close < |elem|
    requires keyValue == if close < open then elem[open + 1..] else elem[open + 1..close]
    requires var equal := IndexOf(keyValue, '=');
             pair == if equal == |keyValue| || equal == 0 || equal == |keyValue| - 1 then None
                     else Some(KeyValue(keyValue[..equal], keyValue[equal + 1..]))
    ensures ParsePiece(elem)
         == if pair.None? then Failure(NotKeyEqualsValue) else Success(PathElem(elem[..open], [pair.value]))
  {
  }

  lemma PlainPieces(elem: string)
    requires elem != ""
    ensures IndexOf(elem, '[') == |elem| ==> ParsePiece(elem) == Success(PathElem(elem, []))
    ensures IndexOf(elem, '[') < |elem| && IndexOf(elem, ']') == |elem| ==>
              ParsePiece(elem) == Failure(MissingClosingBracket)
    ensures IndexOf(elem, '[') == 0 && IndexOf(elem, ']') < |elem| ==> ParsePiece(elem) == Failure(EmptyName)
  {
  }

  /** The body of the parsing loop: one element of the path, cut with unsigned arithmetic. */
  method ParseElement(elem: string) returns (result: Result<PathElem, PathError>)
    requires |elem| < NPOS
    ensures result == ParsePiece(elem)
  {
    if elem == "" {
      return Failure(EmptyElement);
    }
    FindIsIndexOf(elem, '[');
    FindIsIndexOf(elem, ']');
    PlainPieces(elem);
    var bracketStart := Find(elem, '[', 0);
    if bracketStart != NPOS {
      var bracketEnd := Find(elem, ']', 0);
      if bracketEnd == NPOS {
        return Failure(MissingClosingBracket);
      }
      var name := Substr(elem, 0, bracketStart);
      if name == "" {
        return Failure(EmptyName);
      }
      DifferentPlaces(elem, '[', ']');
      CutBetweenBrackets(elem, bracketStart, bracketEnd);
      var keyValue := Substr(elem, bracketStart + 1, SizeSub(SizeSub(bracketEnd, bracketStart), 1));
      var pair := SplitKeyValue(keyValue);
      BracketedPiece(elem, bracketStart, bracketEnd, keyValue, pair);
      if pair.None? {
        return Failure(NotKeyEqualsValue);
      }
      return Success(PathElem(name, [pair.value]));
    } else {
      return Success(PathElem(elem, []));
    }
  }

  /** The text between the brackets, cut at its first '='; neither side may be empty. */
  method SplitKeyValue(keyValue: string) returns (pair: Option<KeyValue>)
    requires |keyValue| < NPOS
    ensures var equal := IndexOf(keyValue, '=');
            pair == if equal == |keyValue| || equal == 0 || equal == |keyValue| - 1 then None
                    else Some(KeyValue(keyValue[..equal], keyValue[equal + 1..]))
  {
    FindIsIndexOf(keyValue, '=');
    var equalPos := Find(keyValue, '=', 0);
    if equalPos == NPOS || equalPos == 0 || equalPos == SizeSub(|keyValue|, 1) {
      return None;
    }
    var key := Substr(keyValue, 0, equalPos);
    var value := keyValue[equalPos + 1..];
    return Some(KeyValue(key, value));
  }

  /** What is left of the path from `start`, which may be one past the end. */
  function From(path: string, start: nat): string {
    if start <= |path| then path[start..] else ""
  }

  /** Where the piece starting at `start` ends. */
  function EndOfPiece(path: string, start: nat): nat {
    var end := Find(path, '/', start);
    if end == NPOS then |path| else end
  }

  lemma CutPiece(path: string, start: nat)
    requires start < |path| < NPOS
    ensures var end := EndOfPiece(path, start);
            && start <= end <= |path|
            && TrimmedSplit(From(path, start)) == [path[start..end]] + TrimmedSplit(From(path, end + 1))
  {
    var end, tail := EndOfPiece(path, start), path[start..];
    assert end == start + IndexOf(tail, '/');
    assert tail[..end - start] == path[start..end];
    if end < |path| {
      assert tail[end - start + 1..] == path[end + 1..];
    }
    TrimmedSplitStep(tail);
    TrimmedSplitStep("");
    assert end == |path| ==> From(path, end + 1) == "" && [path[start..end]] + [] == [path[start..end]];
  }

  /** What parsing gives, when these elements are done and the path is read up to `start`. */
  ghost function ParsedFrom(done: seq<PathElem>, path: string, start: nat): Result<seq<PathElem>, PathError> {
    Extend(done, ParsePieces(TrimmedSplit(From(path, start))))
  }

  lemma ParseStart(path: string)
    ensures ParsePieces(Pieces(path)) == ParsedFrom([], path, if path != "" && path[0] == '/' then 1 else 0)
  {
    ExtendNothing(ParsePieces(Pieces(path)));
  }

  lemma PieceInRange(path: string, start: nat)
    requires start < |path| < NPOS
    ensures start <= EndOfPiece(path, start) <= |path|
  {
  }

  /** The cut of the loop never runs out of range. */
  lemma CutInRange(path: string, start: nat, end: nat)
    requires start <= end <= |path| < NPOS
    ensures Substr(path, start, SizeSub(end, start)) == path[start..end]
  {
  }

  lemma ParseOnePiece(done: seq<PathElem>, piece: string, left: seq<string>)
    ensures var parsed := ParsePiece(piece);
            Extend(done, ParsePieces([piece] + left))
            == if parsed.Failure? then Failure(parsed.error) else Extend(done + [parsed.value], ParsePieces(left))
  {
    assert ([piece] + left)[1..] == left;
    if ParsePiece(piece).Success? {
      ExtendTwice(done, [ParsePiece(piece).value], ParsePieces(left));
    }
  }

  /** One pass of the parsing loop. */
  lemma ParseStep(all: Result<seq<PathElem>, PathError>, done: seq<PathElem>, path: string, start: nat, end: nat,
                  next: nat, parsed: Result<PathElem, PathError>)
    requires start < |path| < NPOS && end == EndOfPiece(path, start) && all == ParsedFrom(done, path, start)
    requires start <= end <= |path| && next == end + 1 && parsed == ParsePiece(path[start..end])
    ensures parsed.Failure? ==> all == Failure(parsed.error)
    ensures parsed.Success? ==> all == ParsedFrom(done + [parsed.value], path, next)
  {
    CutPiece(path, start);
    ParseOnePiece(done, path[start..end], TrimmedSplit(From(path, end + 1)));
  }

  lemma ParseEnd(all: Result<seq<PathElem>, PathError>, done: seq<PathElem>, path: string, start: nat)
    requires start >= |path| && all == ParsedFrom(done, path, start)
    ensures all == Success(done)
  {
    TrimmedSplitStep("");
    assert From(path, start) == "";
    assert done + [] == done;
  }

  /**
   * The parser: `start` and `end` delimit the current piece. A std::string is always
   * shorter than npos bytes, which is the only thing asked of the caller.
   */
  method StringToGnmiPath(path: string) returns (result: Result<Path, PathError>)
    requires |path| < NPOS
    ensures result == ParsePath(path)
  {
    var temp := [];
    var start := if path != "" && path[0] == '/' then 1 else 0;
    var end := Find(path, '/', start);
    if end == NPOS {
      end := |path|;
    }
    ghost var all := ParsePieces(Pieces(path));
    ParseStart(path);
    while start < |path|
      invariant 0 <= start <= |path| + 1 && end == EndOfPiece(path, start)
      invariant all == ParsedFrom(temp, path, start)
      decreases |path| - start
    {
      PieceInRange(path, start);
      CutInRange(path, start, end);
      var elem := Substr(path, start, SizeSub(end, start));
      var parsed := ParseElement(elem);
      ghost var next := end + 1;
      ParseStep(all, temp, path, start, end, next, parsed);
      if parsed.Failure? {
        return Failure(parsed.error);
      }
      temp := temp + [parsed.value];
      start := end + 1;
      assert start == next;
      end := Find(path, '/', start);
      if end == NPOS {
        end := |path|;
      }
    }
    ParseEnd(all, temp, path, start);
    return Success(Path("", temp));
  }

  lemma ExtendNothing(rest: Result<seq<PathElem>, PathError>)
    ensures Extend([], rest) == rest
  {
    if rest.Success? {
      assert [] + rest.value == rest.value;
    }
  }

  lemma ExtendTwice(a: seq<PathElem>, b: seq<PathElem>, rest: Result<seq<PathElem>, PathError>)
    ensures Extend(a, Extend(b, rest)) == Extend(a + b, rest)
  {
    if rest.Success? {
      assert a + (b + rest.value) == a + b + rest.value;
    }
  }
}
