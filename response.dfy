/** `cleanAiResponse`: the model's free-text reply to the array the form stores. The four
    steps rebind one text: trim, token deletion, array extraction, then `JSON.parse`. */
module AiResponse {
  import opened Wrappers
  import opened TextTrim
  import opened TokenStrip
  import opened ArrayExtract

  /** What `JSON.parse` does with a text: returns a value or throws a SyntaxError. The
      parser itself is a parameter of the model. */
  datatype ParseOutcome<+V> = Parsed(value: V) | SyntaxError(message: string)

  /** The two errors `cleanAiResponse` throws. */
  datatype CleanError = NoJsonArray | InvalidJson(parserMessage: string)

  const NoArrayMessage := "No JSON array found in response"
  const InvalidPrefix := "Invalid JSON format: "

  /** The `message` of the thrown Error. The invalid-JSON message is the fixed prefix
      followed by the parser's message; the first letter alone tells the two apart. */
  function ErrorMessage(e: CleanError): (m: string)
    ensures m != [] && (m[0] == 'N' <==> e.NoJsonArray?)
    ensures e.InvalidJson? ==>
      |InvalidPrefix| <= |m| && m[..|InvalidPrefix|] == InvalidPrefix && m[|InvalidPrefix|..] == e.parserMessage
  {
    match e
    case NoJsonArray => NoArrayMessage
    case InvalidJson(m) => InvalidPrefix + m
  }

  /** Steps 1 and 2: the text the bracket search runs on. */
  function CleanText(responseText: string): (t: string)
    ensures |t| <= |responseText|
    ensures forall k :: 0 <= k < |t| ==> t[k] != '`'
    ensures IsSubsequence(t, Trim(responseText))
  {
    StripIsSubsequence(Trim(responseText));
    StripTokens(Trim(responseText))
  }

  /** Step 4: a parse failure is rethrown under the fixed prefix; a parsed value is
      returned as it is, with no check of its shape. A failure here is never the
      no-array error, and its message is "Invalid JSON format: " and the parser's. */
  function WrapParse<V>(outcome: ParseOutcome<V>): (r: Result<V, CleanError>)
    ensures r.Success? <==> outcome.Parsed?
    ensures r.Success? ==> r.value == outcome.value
    ensures r.Failure? ==> r.error == InvalidJson(outcome.message)
    ensures r != Failure(NoJsonArray)
    ensures r.Failure? ==> ErrorMessage(r.error) == "Invalid JSON format: " + outcome.message
  {
    match outcome
    case Parsed(v) => Success(v)
    case SyntaxError(m) => Failure(InvalidJson(m))
  }

  /** The wrapping loses nothing: the parser's outcome can be read back from the result,
      its message from the thrown error's message alone. */
  lemma WrapParseInjective<V>(o1: ParseOutcome<V>, o2: ParseOutcome<V>)
    requires WrapParse(o1).Success? == WrapParse(o2).Success?
    requires WrapParse(o1).Success? ==> WrapParse(o1).value == WrapParse(o2).value
    requires WrapParse(o1).Failure? ==> ErrorMessage(WrapParse(o1).error) == ErrorMessage(WrapParse(o2).error)
    ensures o1 == o2
  {
    if o1.SyntaxError? {
      ErrorMessageNamesError(WrapParse(o1).error, WrapParse(o2).error);
    }
  }

  function CleanAiResponse<V>(responseText: string, parse: string -> ParseOutcome<V>): (r: Result<V, CleanError>)
    ensures r == Failure(NoJsonArray) <==> !HasBracketPair(CleanText(responseText))
    ensures r.Success? ==> parse(MatchArray(CleanText(responseText)).value) == Parsed(r.value)
    ensures r.Failure? && r.error.InvalidJson? ==>
      parse(MatchArray(CleanText(responseText)).value) == SyntaxError(r.error.parserMessage)
  {
    var c := CleanText(responseText);
    match MatchArray(c)
    case None => Failure(NoJsonArray)
    case Some(p) => WrapParse(parse(p))
  }

  /** The two error messages never coincide, and the second gives back the parser's
      message, so the message names the error. */
  lemma ErrorMessageNamesError(e1: CleanError, e2: CleanError)
    requires ErrorMessage(e1) == ErrorMessage(e2)
    ensures e1 == e2
  {
    if e1.InvalidJson? && e2.InvalidJson? {
      assert e1.parserMessage == ErrorMessage(e1)[|InvalidPrefix|..];
      assert e2.parserMessage == ErrorMessage(e2)[|InvalidPrefix|..];
    }
  }

  /** Without a bracket pair the parser is never consulted: any two parsers give the same
      outcome, the "No JSON array found in response" error. */
  lemma NoArrayNeverParses<V>(responseText: string, parse1: string -> ParseOutcome<V>, parse2: string -> ParseOutcome<V>)
    requires !HasBracketPair(CleanText(responseText))
    ensures CleanAiResponse(responseText, parse1) == CleanAiResponse(responseText, parse2) == Failure(NoJsonArray)
    ensures ErrorMessage(CleanAiResponse(responseText, parse1).error) == "No JSON array found in response"
  {}

  /** With one, the parser is asked about the extracted text only: parsers that agree on
      it give the same outcome. */
  lemma ParserSeesOnlyTheMatch<V>(responseText: string, parse1: string -> ParseOutcome<V>, parse2: string -> ParseOutcome<V>)
    requires MatchArray(CleanText(responseText)).Some?
    requires parse1(MatchArray(CleanText(responseText)).value) == parse2(MatchArray(CleanText(responseText)).value)
    ensures CleanAiResponse(responseText, parse1) == CleanAiResponse(responseText, parse2)
  {}

  /** The text handed to the parser runs from the first `[` of the cleaned text to its
      last `]`; its failure comes back as "Invalid JSON format: " and the parser's message. */
  lemma ParsesFirstOpenToLastClose<V>(responseText: string, parse: string -> ParseOutcome<V>, i: int, j: int)
    requires IsFirstOpen(CleanText(responseText), i) && IsLastClose(CleanText(responseText), j) && i < j
    ensures CleanAiResponse(responseText, parse) == WrapParse(parse(CleanText(responseText)[i..j + 1]))
    ensures forall m :: parse(CleanText(responseText)[i..j + 1]) == SyntaxError(m) ==>
      ErrorMessage(CleanAiResponse(responseText, parse).error) == "Invalid JSON format: " + m
  {
    MatchIsFirstOpenToLastClose(CleanText(responseText), i, j);
  }

  /** A reply with no `[` at all never yields an array. */
  lemma NoOpenBracketNoArray<V>(responseText: string, parse: string -> ParseOutcome<V>)
    requires forall k :: 0 <= k < |responseText| ==> responseText[k] != '['
    ensures CleanAiResponse(responseText, parse) == Failure(NoJsonArray)
  {
    var t := TrimOmits(responseText, '[');
    assert !HasBracketPair(CleanText(responseText)) by {
      StripOmits(t, '[');
    }
  }

  /** Trimming introduces no character. */
  lemma TrimOmits(s: string, c: char) returns (t: string)
    requires forall k :: 0 <= k < |s| ==> s[k] != c
    ensures t == Trim(s) && forall k :: 0 <= k < |t| ==> t[k] != c
  {
    t := Trim(s);
    var o: nat :| WhitespacePadded(s, t, o);
    assert forall k :: 0 <= k < |t| ==> t[k] == s[o + k];
  }

  /** Steps 1 and 2 keep an array whose text holds no token whole, and leave no `[`
      before it and no `]` after it when the surrounding text had none there. */
  lemma CleanTextAroundArray(before: string, body: string, after: string) returns (sa: string, sb: string)
    requires forall k :: 0 <= k < |before| ==> before[k] != '['
    requires forall k :: 0 <= k < |after| ==> after[k] != ']'
    requires !HasToken(body)
    ensures CleanText(before + ("[" + body + "]") + after) == sa + ("[" + body + "]") + sb
    ensures forall k :: 0 <= k < |sa| ==> sa[k] != '['
    ensures forall k :: 0 <= k < |sb| ==> sb[k] != ']'
  {
    var p := "[" + body + "]";
    var i, j := TrimAroundCore(before, p, after);
    var a, b := before[i..], after[..j];
    assert Trim(before + p + after) == a + p + b;
    StripAroundArray(a, body, b);
    sa, sb := StripTokens(a), StripTokens(b);
    assert forall k :: 0 <= k < |a| ==> a[k] == before[i + k];
    assert forall k :: 0 <= k < |b| ==> b[k] == after[k];
    StripOmits(a, '[');
    StripOmits(b, ']');
  }

  /** Noise around the array does not matter: prose and fences before and after an array
      whose text holds no token reach the parser as exactly that array, so long as no `[`
      comes before it and no `]` after it. A `]` before it or a `[` after it is harmless. */
  lemma ArraySurvivesNoise<V>(before: string, body: string, after: string, parse: string -> ParseOutcome<V>)
    requires forall k :: 0 <= k < |before| ==> before[k] != '['
    requires forall k :: 0 <= k < |after| ==> after[k] != ']'
    requires !HasToken(body)
    ensures CleanAiResponse(before + ("[" + body + "]") + after, parse) == WrapParse(parse("[" + body + "]"))
  {
    var sa, sb := CleanTextAroundArray(before, body, after);
    MatchBetweenBracketFree(sa, body, sb);
  }

  /** A typical reply: prose, then the array inside a `json` code fence,
      "Here is the result:\n```json\n[{"question":"Q1","answer":"A1"}]\n```".
      The parser is handed the bare array. */
  lemma FencedReplyParsesArray<V>(before: string, body: string, after: string, parse: string -> ParseOutcome<V>)
    requires before == "Here is the result:\n```json\n"
    requires body == "{\"question\":\"Q1\",\"answer\":\"A1\"}"
    requires after == "\n```"
    ensures CleanAiResponse(before + ("[" + body + "]") + after, parse) == WrapParse(parse("[" + body + "]"))
  {
    forall k: nat | k < |body| ensures !TokenAt(body, k) {
      assert body[k] != '`' && body[k] != 'j';
    }
    ArraySurvivesNoise(before, body, after, parse);
  }

  /** Brackets that cannot widen the match: a `]` in the prose before the array and a `[`
      in the prose after it, as in "Step 1]:[1](see [note". */
  lemma StrayBracketsKeepArray<V>(before: string, body: string, after: string, parse: string -> ParseOutcome<V>)
    requires before == "Step 1]:" && body == "1" && after == "(see [note"
    ensures CleanAiResponse(before + ("[" + body + "]") + after, parse) == WrapParse(parse("[1]"))
  {
    assert !TokenAt(body, 0) by {
      assert body[0] != '`' && body[0] != 'j';
    }
    assert "[" + body + "]" == "[1]";
    ArraySurvivesNoise(before, body, after, parse);
  }

  /** A reply without an array. */
  lemma ReplyWithoutArrayFails<V>(reply: string, parse: string -> ParseOutcome<V>)
    requires reply == "No array here."
    ensures CleanAiResponse(reply, parse) == Failure(NoJsonArray)
  {
    NoOpenBracketNoArray(reply, parse);
  }

  /** An array the parser rejects, "[{question: unquoted}]": the error carries the
      parser's message. */
  lemma UnparsableArrayFails<V>(body: string, parse: string -> ParseOutcome<V>, m: string)
    requires body == "{question: unquoted}"
    requires parse("[" + body + "]") == SyntaxError(m)
    ensures CleanAiResponse("[" + body + "]", parse) == Failure(InvalidJson(m))
    ensures ErrorMessage(CleanAiResponse("[" + body + "]", parse).error) == "Invalid JSON format: " + m
  {
    forall k: nat | k < |body| ensures !TokenAt(body, k) {
      assert body[k] != '`' && body[k] != 'j';
    }
    var p := "[" + body + "]";
    assert [] + p + [] == p;
    ArraySurvivesNoise([], body, [], parse);
  }
}
