/**
  OpenAIClientService: the prompt, the normaliser that cuts the JSON object out of the model's
  reply, the mapping from the decoded object to a CodeAnalysisResult, and the per-file helpers.
  The chat model and Jackson are parameters: `engine` maps a prompt to the reply text (None when
  the call throws), `decode` maps a text to its JSON tree (None when Jackson throws).
*/
module OpenAIClient {
  import opened Wrappers
  import opened JavaStrings
  import opened Json
  import opened Model
  import opened Traversal

  /** The exceptions `analyzeCode` and `analyzeMultipleFiles` let escape. */
  datatype AnalysisError =
    | EngineFailed                          // callOpenAI threw
    | ResponseRejected(cause: ParseError)   // parseAIResponse threw
    | NoFileName(path: string)              // getFileName indexed an empty split

  // ---------------------------------------------------------------------------------------------
  // cleanJsonResponse

  const Fence: string := "```"
  const JsonFence: string := "```json"

  /** `replaceAll("```json", "").replaceAll("```", "")`; neither pattern holds a regex metacharacter. */
  function StripFences(response: string): string {
    RemoveAll(RemoveAll(response, JsonFence), Fence)
  }

  /** Some `{` comes before some `}`. */
  predicate HasBracePair(t: string) {
    exists i, j :: 0 <= i < j < |t| && t[i] == '{' && t[j] == '}'
  }

  lemma BracePairFromIndexes(t: string)
    ensures HasBracePair(t) <==> 0 <= IndexOf(t, '{') < LastIndexOf(t, '}')
  {
    var start, end := IndexOf(t, '{'), LastIndexOf(t, '}');
    if HasBracePair(t) {
      var i, j :| 0 <= i < j < |t| && t[i] == '{' && t[j] == '}';
      assert t[i] in t && t[j] in t;
      BeforeIndexOf(t, '{');
      AfterLastIndexOf(t, '}');
      forall k | 0 <= k < start ensures t[k] != '{' {
        assert t[..start][k] == t[k];
      }
      forall k | end < k < |t| ensures t[k] != '}' {
        assert t[end + 1..][k - end - 1] == t[k];
      }
    }
  }

  /** A brace pair inside a slice is a brace pair of the whole text. */
  lemma BracePairFromSlice(t: string, a: nat, r: string)
    requires SliceAt(t, r, a) && HasBracePair(r)
    ensures HasBracePair(t)
  {
    var i, j :| 0 <= i < j < |r| && r[i] == '{' && r[j] == '}';
    assert t[a + i] == '{' && t[a + j] == '}';
  }

  /**
    The second half of `cleanJsonResponse`, on the text t the fences were deleted from: when some
    `{` precedes some `}`, the slice of t from its first `{` through its last `}`; otherwise t
    trimmed. It adds no triple backtick.
  */
  function ExtractObject(t: string): (r: string)
    ensures HasBracePair(t) ==>
      var start := IndexOf(t, '{');
      && 0 <= start && SliceAt(t, r, start) && |r| >= 2
      && r[0] == '{' && r[|r| - 1] == '}'
      && '{' !in t[..start] && '}' !in t[start + |r|..]
    ensures !HasBracePair(t) ==> r == Trim(t)
    ensures !Contains(t, Fence) ==> !Contains(r, Fence)
  {
    var startIndex := IndexOf(t, '{');
    var endIndex := LastIndexOf(t, '}');
    BracePairFromIndexes(t);
    if startIndex >= 0 && endIndex > startIndex then
      BraceSliceFacts(t);
      t[startIndex..endIndex + 1]
    else
      TrimKeepsAbsent(t, Fence);
      Trim(t)
  }

  /** The slice the two indexes delimit, when the first `{` precedes the last `}`. */
  lemma BraceSliceFacts(t: string)
    requires 0 <= IndexOf(t, '{') < LastIndexOf(t, '}')
    ensures var start, end := IndexOf(t, '{'), LastIndexOf(t, '}');
      var r := t[start..end + 1];
      && SliceAt(t, r, start) && |r| >= 2 && r[0] == '{' && r[|r| - 1] == '}'
      && '{' !in t[..start] && '}' !in t[start + |r|..]
      && (!Contains(t, Fence) ==> !Contains(r, Fence))
  {
    var start, end := IndexOf(t, '{'), LastIndexOf(t, '}');
    BeforeIndexOf(t, '{');
    AfterLastIndexOf(t, '}');
    assert t[start + (end + 1 - start)..] == t[end + 1..];
    SliceKeepsAbsent(t, start, end + 1, Fence);
  }

  /**
    `cleanJsonResponse(response)`: both fence markers are deleted, then the object is cut out of
    what remains. No triple backtick survives.
  */
  function CleanJsonResponse(response: string): (r: string)
    ensures !Contains(r, Fence)
  {
    RemoveAllLeavesNoFence(RemoveAll(response, JsonFence));
    ExtractObject(StripFences(response))
  }

  /** Text with no triple backtick goes through both replaceAll calls unchanged. */
  lemma StripFencesOfFenceless(c: string)
    requires !Contains(c, Fence)
    ensures StripFences(c) == c
  {
    if Contains(c, JsonFence) {
      ContainsPrefixOfPattern(c, JsonFence, Fence);
    }
    RemoveAllAbsent(c, JsonFence);
    RemoveAllAbsent(c, Fence);
  }

  /** Cutting the object out of a cut object changes nothing. */
  lemma ExtractObjectIdempotent(t: string)
    ensures ExtractObject(ExtractObject(t)) == ExtractObject(t)
  {
    var c := ExtractObject(t);
    BracePairFromIndexes(c);
    if HasBracePair(t) {
      IndexOfAt(c, '{', 0);
      LastIndexOfAt(c, '}', |c| - 1);
      assert c[0..|c|] == c;
    } else {
      var a :| SliceAt(t, c, a);
      if HasBracePair(c) {
        BracePairFromSlice(t, a, c);
      }
      TrimIdempotent(t);
    }
  }

  /** Cleaning a cleaned response changes nothing. */
  lemma CleanJsonIdempotent(response: string)
    ensures CleanJsonResponse(CleanJsonResponse(response)) == CleanJsonResponse(response)
  {
    var c := CleanJsonResponse(response);
    StripFencesOfFenceless(c);
    ExtractObjectIdempotent(StripFences(response));
  }

  /** The first replaceAll deletes the opening ```json and keeps what precedes and follows it. */
  lemma RemoveOpeningFence(prose: string, middle: string, tail: string)
    requires '`' !in prose && '`' !in middle
    ensures RemoveAll(prose + JsonFence + middle + tail, JsonFence) == prose + middle + RemoveAll(tail, JsonFence)
  {
    assert prose + JsonFence + middle + tail == prose + (JsonFence + (middle + tail));
    RemoveAllSkipsPrefix(prose, JsonFence + (middle + tail), JsonFence);
    RemoveAllAtMatch(middle + tail, JsonFence);
    RemoveAllSkipsPrefix(middle, tail, JsonFence);
  }

  /** Deleting the fences of a fenced reply leaves the prose, the object and what followed the fence. */
  lemma StripFencedReply(prose: string, obj: string, trailer: string) returns (z: string)
    requires '`' !in prose && '`' !in obj
    ensures StripFences(prose + "```json\n" + obj + "\n```" + trailer) == prose + "\n" + obj + "\n" + z
    ensures '}' in z ==> '}' in trailer
  {
    var tail := Fence + trailer;
    var middle := "\n" + obj + "\n";
    assert prose + "```json\n" + obj + "\n```" + trailer == prose + JsonFence + middle + tail;
    RemoveOpeningFence(prose, middle, tail);
    var w := RemoveAll(tail, JsonFence);
    RemoveAllSkipsPrefix(prose + middle, w, Fence);
    z := RemoveAll(w, Fence);
    assert prose + middle + z == prose + "\n" + obj + "\n" + z;
    if '}' in z {
      RemoveAllKeepsChars(w, Fence, '}');
      RemoveAllKeepsChars(tail, JsonFence, '}');
      var k :| 0 <= k < |tail| && tail[k] == '}';
      assert trailer[k - |Fence|] == '}';
    }
  }

  /** An object framed by text without braces on the wrong side is what the brace slice picks. */
  lemma BraceSliceOfFramed(before: string, obj: string, after: string)
    requires '{' !in before && '}' !in after
    requires |obj| >= 2 && obj[0] == '{' && obj[|obj| - 1] == '}'
    ensures var t := before + obj + after;
      && HasBracePair(t) && IndexOf(t, '{') == |before| && LastIndexOf(t, '}') == |before| + |obj| - 1
      && t[IndexOf(t, '{')..LastIndexOf(t, '}') + 1] == obj
  {
    var t := before + obj + after;
    var start, end := |before|, |before| + |obj| - 1;
    assert t[start] == '{' && t[..start] == before;
    IndexOfAt(t, '{', start);
    assert t[end] == '}' && t[end + 1..] == after;
    LastIndexOfAt(t, '}', end);
    BracePairFromIndexes(t);
    assert t[start..end + 1] == obj;
  }

  /** A bare object without backticks cleans to itself. */
  lemma CleanKeepsBareObject(obj: string)
    requires '`' !in obj
    requires |obj| >= 2 && obj[0] == '{' && obj[|obj| - 1] == '}'
    ensures CleanJsonResponse(obj) == obj
  {
    RemoveAllSkipsPrefix(obj, "", JsonFence);
    RemoveAllSkipsPrefix(obj, "", Fence);
    assert obj + "" == obj;
    BraceSliceOfFramed("", obj, "");
    assert "" + obj + "" == obj;
  }

  /**
    A reply that wraps the object in a ```json fence with prose around it cleans to the bare
    object, as the bare object itself does.
  */
  lemma FencedReplyCleansToObject(prose: string, obj: string, trailer: string)
    requires '`' !in prose && '`' !in obj && '`' !in trailer
    requires '{' !in prose && '}' !in trailer
    requires |obj| >= 2 && obj[0] == '{' && obj[|obj| - 1] == '}'
    ensures CleanJsonResponse(prose + "```json\n" + obj + "\n```" + trailer) == obj
    ensures CleanJsonResponse(obj) == obj
  {
    var z := StripFencedReply(prose, obj, trailer);
    assert prose + "\n" + obj + "\n" + z == (prose + "\n") + obj + ("\n" + z);
    BraceSliceOfFramed(prose + "\n", obj, "\n" + z);
    CleanKeepsBareObject(obj);
  }

  // ---------------------------------------------------------------------------------------------
  // getDouble and calculateOverallScore

  /** `getDouble(value)`: the value of a number, 0.0 for null and for anything that is not a number. */
  function GetDouble(value: Json): (r: real)
    ensures value.JInt? ==> r == value.i as real
    ensures value.JFloat? ==> r == value.x
    ensures !IsNumber(value) ==> r == 0.0
  {
    match value
    case JInt(i) => i as real
    case JFloat(x) => x
    case _ => 0.0
  }

  predicate AllScored(result: CodeAnalysisResult) {
    result.securityScore.Some? && result.performanceScore.Some? && result.bestPracticesScore.Some?
  }

  /**
    `calculateOverallScore(result)`: with all three category scores present, their mean, which lies
    between the smallest and the largest of them; with any one missing, the sentinel 0.0.
  */
  function CalculateOverallScore(result: CodeAnalysisResult): (r: real)
    ensures AllScored(result) ==>
      var s, p, b := result.securityScore.value, result.performanceScore.value, result.bestPracticesScore.value;
      && 3.0 * r == s + p + b
      && (r <= s || r <= p || r <= b) && (r >= s || r >= p || r >= b)
      && (0.0 <= s <= 100.0 && 0.0 <= p <= 100.0 && 0.0 <= b <= 100.0 ==> 0.0 <= r <= 100.0)
    ensures !AllScored(result) ==> r == 0.0
  {
    if result.securityScore.Some? && result.performanceScore.Some? && result.bestPracticesScore.Some? then
      (result.securityScore.value + result.performanceScore.value + result.bestPracticesScore.value) / 3.0
    else
      0.0
  }

  /** Scores 80, 70 and 90 average to 80. */
  lemma OverallScoreExample(result: CodeAnalysisResult)
    requires result.securityScore == Some(80.0) && result.performanceScore == Some(70.0)
    requires result.bestPracticesScore == Some(90.0)
    ensures CalculateOverallScore(result) == 80.0
  {
  }

  // ---------------------------------------------------------------------------------------------
  // parseIssue, parseSuggestion and the two loops of parseAIResponse

  /** The value a `(String)` cast of a well-typed field yields. */
  function StringOf(v: Json): Option<string> {
    if v.JString? then Some(v.s) else None
  }

  predicate StringOrNull(v: Json) {
    v.JNull? || v.JString?
  }

  predicate NumberOrNull(v: Json) {
    v.JNull? || IsNumber(v)
  }

  /** The fields `parseIssue` casts all have the type it casts them to. */
  predicate IssueTyped(m: map<string, Json>) {
    && StringOrNull(Get(m, "category")) && StringOrNull(Get(m, "severity"))
    && StringOrNull(Get(m, "title")) && StringOrNull(Get(m, "description"))
    && NumberOrNull(Get(m, "lineNumber"))
    && StringOrNull(Get(m, "codeSnippet")) && StringOrNull(Get(m, "recommendation"))
  }

  /** The line number of a well-typed object: null stays null (not 0), a number becomes its `intValue()`. */
  function LineOf(v: Json): Option<int> {
    if IsNumber(v) then Some(IntValue(v)) else None
  }

  /**
    `parseIssue(issueMap)` applied to one element of the `issues` list: it succeeds exactly when the
    element is an object whose fields have the cast types, and then copies each field.
  */
  function ParseIssue(v: Json): (r: Result<AnalysisIssue, ParseError>)
    ensures r.Ok? <==> v.JObject? && IssueTyped(v.fields)
    ensures r.Ok? ==>
      var m := v.fields;
      && r.value.category == StringOf(Get(m, "category"))
      && r.value.severity == StringOf(Get(m, "severity"))
      && r.value.title == StringOf(Get(m, "title"))
      && r.value.description == StringOf(Get(m, "description"))
      && r.value.lineNumber == LineOf(Get(m, "lineNumber"))
      && r.value.codeSnippet == StringOf(Get(m, "codeSnippet"))
      && r.value.recommendation == StringOf(Get(m, "recommendation"))
    ensures !v.JObject? ==> r == Err(NotAnObject("issues"))
  {
    if !v.JObject? then Err(NotAnObject("issues"))
    else
      var m := v.fields;
      var category :- AsString(Get(m, "category"), "category");
      var severity :- AsString(Get(m, "severity"), "severity");
      var title :- AsString(Get(m, "title"), "title");
      var description :- AsString(Get(m, "description"), "description");
      var lineNumber :- AsLineNumber(Get(m, "lineNumber"), "lineNumber");
      var codeSnippet :- AsString(Get(m, "codeSnippet"), "codeSnippet");
      var recommendation :- AsString(Get(m, "recommendation"), "recommendation");
      Ok(AnalysisIssue(category, severity, title, description, lineNumber, codeSnippet, recommendation))
  }

  predicate SuggestionTyped(m: map<string, Json>) {
    && StringOrNull(Get(m, "type")) && StringOrNull(Get(m, "title"))
    && StringOrNull(Get(m, "description")) && NumberOrNull(Get(m, "lineNumber"))
    && StringOrNull(Get(m, "codeSnippet")) && StringOrNull(Get(m, "suggestedCode"))
    && StringOrNull(Get(m, "benefits")) && StringOrNull(Get(m, "effort"))
  }

  /** `parseSuggestion(suggestionMap)`, the same pattern over the suggestion fields. */
  function ParseSuggestion(v: Json): (r: Result<AnalysisSuggestion, ParseError>)
    ensures r.Ok? <==> v.JObject? && SuggestionTyped(v.fields)
    ensures r.Ok? ==>
      var m := v.fields;
      && r.value.kind == StringOf(Get(m, "type"))
      && r.value.title == StringOf(Get(m, "title"))
      && r.value.description == StringOf(Get(m, "description"))
      && r.value.lineNumber == LineOf(Get(m, "lineNumber"))
      && r.value.codeSnippet == StringOf(Get(m, "codeSnippet"))
      && r.value.suggestedCode == StringOf(Get(m, "suggestedCode"))
      && r.value.benefits == StringOf(Get(m, "benefits"))
      && r.value.effort == StringOf(Get(m, "effort"))
    ensures !v.JObject? ==> r == Err(NotAnObject("suggestions"))
  {
    if !v.JObject? then Err(NotAnObject("suggestions"))
    else
      var m := v.fields;
      var kind :- AsString(Get(m, "type"), "type");
      var title :- AsString(Get(m, "title"), "title");
      var description :- AsString(Get(m, "description"), "description");
      var lineNumber :- AsLineNumber(Get(m, "lineNumber"), "lineNumber");
      var codeSnippet :- AsString(Get(m, "codeSnippet"), "codeSnippet");
      var suggestedCode :- AsString(Get(m, "suggestedCode"), "suggestedCode");
      var benefits :- AsString(Get(m, "benefits"), "benefits");
      var effort :- AsString(Get(m, "effort"), "effort");
      Ok(AnalysisSuggestion(kind, title, description, lineNumber, codeSnippet, suggestedCode, benefits, effort))
  }

  /** The list under `key`: missing or null gives no elements; anything but a list throws. */
  function ParseList<T>(v: Json, key: string, parse: Json -> Result<T, ParseError>): (r: Result<seq<T>, ParseError>)
    ensures v.JNull? ==> r == Ok([])
    ensures !v.JNull? && !v.JArray? ==> r == Err(WrongType(key))
    ensures v.JArray? ==> r == MapAll(v.items, parse)
  {
    var items :- AsList(v, key);
    if items.None? then Ok([]) else MapAll(items.value, parse)
  }

  // ---------------------------------------------------------------------------------------------
  // parseAIResponse

  /** The decoded reply, when Jackson reads the cleaned text as an object. */
  function DecodedObject(aiResponse: string, decode: string -> Option<Json>): Option<map<string, Json>> {
    var doc := decode(CleanJsonResponse(aiResponse));
    if doc.Some? && doc.value.JObject? then Some(doc.value.fields) else None
  }

  /**
    The body of `parseAIResponse` once the reply decoded to the map m. The scores are always
    present (non-numbers read as 0.0), so the overall score is always their mean; the issue and
    suggestion lists follow the decoded arrays one for one, a missing array giving an empty list;
    any wrongly typed field rejects the whole reply.
  */
  function ResultFromMap(filePath: string, fileName: string, language: string, code: string,
                         m: map<string, Json>): (r: Result<CodeAnalysisResult, ParseError>)
    ensures r.Ok? ==>
      && r.value.filePath == filePath && r.value.fileName == fileName
      && r.value.language == language && r.value.changedCode == code
      && r.value.analysisType == Modified
      && r.value.summary == StringOf(Get(m, "summary"))
      && r.value.securityScore == Some(GetDouble(Get(m, "securityScore")))
      && r.value.performanceScore == Some(GetDouble(Get(m, "performanceScore")))
      && r.value.bestPracticesScore == Some(GetDouble(Get(m, "bestPracticesScore")))
      && AllScored(r.value)
      && r.value.overallScore == Some((r.value.securityScore.value + r.value.performanceScore.value
                                       + r.value.bestPracticesScore.value) / 3.0)
    ensures r.Ok? <==> && StringOrNull(Get(m, "summary"))
                       && ParseList(Get(m, "issues"), "issues", ParseIssue).Ok?
                       && ParseList(Get(m, "suggestions"), "suggestions", ParseSuggestion).Ok?
    ensures r.Ok? ==>
      && r.value.issues == ParseList(Get(m, "issues"), "issues", ParseIssue).value
      && r.value.suggestions == ParseList(Get(m, "suggestions"), "suggestions", ParseSuggestion).value
  {
    var summary :- AsString(Get(m, "summary"), "summary");
    var scored := CodeAnalysisResult(filePath, fileName, Modified, language, code, summary,
                                     Some(GetDouble(Get(m, "securityScore"))),
                                     Some(GetDouble(Get(m, "performanceScore"))),
                                     Some(GetDouble(Get(m, "bestPracticesScore"))),
                                     None, [], []);
    var result := scored.(overallScore := Some(CalculateOverallScore(scored)));
    var issues :- ParseList(Get(m, "issues"), "issues", ParseIssue);
    var suggestions :- ParseList(Get(m, "suggestions"), "suggestions", ParseSuggestion);
    Ok(result.(issues := issues, suggestions := suggestions))
  }

  /**
    `parseAIResponse(...)`: cleans the reply and decodes it; a text Jackson rejects, or one that is
    not an object, fails the parse; an object is mapped to the result.
  */
  function ParseAIResponse(filePath: string, fileName: string, language: string, code: string,
                           aiResponse: string, decode: string -> Option<Json>): (r: Result<CodeAnalysisResult, ParseError>)
    ensures decode(CleanJsonResponse(aiResponse)).None? ==> r == Err(InvalidJson)
    ensures DecodedObject(aiResponse, decode).None? ==> r.Err?
    ensures DecodedObject(aiResponse, decode).Some? ==>
      r == ResultFromMap(filePath, fileName, language, code, DecodedObject(aiResponse, decode).value)
  {
    var cleanResponse := CleanJsonResponse(aiResponse);
    match decode(cleanResponse)
    case None => Err(InvalidJson)
    case Some(doc) =>
      if !doc.JObject? then Err(NotAnObject("response"))
      else ResultFromMap(filePath, fileName, language, code, doc.fields)
  }

  /**
    `parseAIResponse` as it runs: the result is assembled field by field, then the two `for` loops
    append one parsed element at a time to its issue and suggestion lists; the first failing cast
    throws out of the whole parse.
  */
  method ParseAIResponseLoops(filePath: string, fileName: string, language: string, code: string,
                              aiResponse: string, decode: string -> Option<Json>)
    returns (r: Result<CodeAnalysisResult, ParseError>)
    ensures r == ParseAIResponse(filePath, fileName, language, code, aiResponse, decode)
  {
    var cleanResponse := CleanJsonResponse(aiResponse);
    var doc := decode(cleanResponse);
    if doc.None? {
      return Err(InvalidJson);
    }
    if !doc.value.JObject? {
      return Err(NotAnObject("response"));
    }
    var responseMap := doc.value.fields;
    var summary := AsString(Get(responseMap, "summary"), "summary");
    if summary.Err? {
      return Err(summary.error);
    }
    var result := CodeAnalysisResult(filePath, fileName, Modified, language, code, summary.value,
                                     Some(GetDouble(Get(responseMap, "securityScore"))),
                                     Some(GetDouble(Get(responseMap, "performanceScore"))),
                                     Some(GetDouble(Get(responseMap, "bestPracticesScore"))),
                                     None, [], []);
    result := result.(overallScore := Some(CalculateOverallScore(result)));
    var issuesList := AsList(Get(responseMap, "issues"), "issues");
    if issuesList.Err? {
      return Err(issuesList.error);
    }
    if issuesList.value.Some? {
      var issues := CollectAll(issuesList.value.value, ParseIssue);
      if issues.Err? {
        return Err(issues.error);
      }
      result := result.(issues := issues.value);
    }
    var suggestionsList := AsList(Get(responseMap, "suggestions"), "suggestions");
    if suggestionsList.Err? {
      return Err(suggestionsList.error);
    }
    if suggestionsList.value.Some? {
      var suggestions := CollectAll(suggestionsList.value.value, ParseSuggestion);
      if suggestions.Err? {
        return Err(suggestions.error);
      }
      result := result.(suggestions := suggestions.value);
    }
    r := Ok(result);
  }

  /**
    The parsed issues: one per decoded element, in order; none when the array is missing; a
    missing `lineNumber` is null, not 0; a wrongly typed element or `issues` value rejects the reply.
  */
  lemma ParsedIssues(filePath: string, fileName: string, language: string, code: string,
                     aiResponse: string, decode: string -> Option<Json>, m: map<string, Json>)
    requires DecodedObject(aiResponse, decode) == Some(m)
    ensures var r := ParseAIResponse(filePath, fileName, language, code, aiResponse, decode);
      && (Get(m, "issues").JNull? && r.Ok? ==> r.value.issues == [])
      && (!Get(m, "issues").JNull? && !Get(m, "issues").JArray? ==> r.Err?)
      && (Get(m, "issues").JArray? && r.Ok? ==>
            var items := Get(m, "issues").items;
            && |r.value.issues| == |items|
            && forall k :: 0 <= k < |items| ==>
                 && items[k].JObject?
                 && r.value.issues[k] == ParseIssue(items[k]).value
                 && (Get(items[k].fields, "lineNumber").JNull? ==> r.value.issues[k].lineNumber == None))
      && (Get(m, "issues").JArray? && (exists k :: 0 <= k < |Get(m, "issues").items| && ParseIssue(Get(m, "issues").items[k]).Err?) ==> r.Err?)
  {
  }
  /** The parsed suggestions follow the decoded `suggestions` array in the same way. */
  lemma ParsedSuggestions(filePath: string, fileName: string, language: string, code: string,
                          aiResponse: string, decode: string -> Option<Json>, m: map<string, Json>)
    requires DecodedObject(aiResponse, decode) == Some(m)
    ensures var r := ParseAIResponse(filePath, fileName, language, code, aiResponse, decode);
      && (Get(m, "suggestions").JNull? && r.Ok? ==> r.value.suggestions == [])
      && (!Get(m, "suggestions").JNull? && !Get(m, "suggestions").JArray? ==> r.Err?)
      && (Get(m, "suggestions").JArray? && r.Ok? ==>
            var items := Get(m, "suggestions").items;
            && |r.value.suggestions| == |items|
            && forall k :: 0 <= k < |items| ==>
                 && items[k].JObject?
                 && r.value.suggestions[k] == ParseSuggestion(items[k]).value
                 && (Get(items[k].fields, "lineNumber").JNull? ==> r.value.suggestions[k].lineNumber == None))
      && (Get(m, "suggestions").JArray? && (exists k :: 0 <= k < |Get(m, "suggestions").items| && ParseSuggestion(Get(m, "suggestions").items[k]).Err?) ==> r.Err?)
  {
  }


  // ---------------------------------------------------------------------------------------------
  // getFileName and getLanguageFromFileName

  /**
    `getFileName(filePath)`: a blank path comes back as it is; otherwise the last element of
    `split("/")`, which has dropped the trailing empty strings. That element is the last non-empty
    segment; an all-slash path splits into nothing and the indexing throws.
  */
  function GetFileName(filePath: string): (r: Result<string, AnalysisError>)
    ensures r.Err? <==> |filePath| > 0 && AllChar(filePath, '/')
    ensures r.Err? ==> r.error == NoFileName(filePath)
    ensures !HasText(filePath) || '/' !in filePath ==> r == Ok(filePath)
    ensures HasText(filePath) && filePath[|filePath| - 1] != '/' ==>
              r == Ok(filePath[LastIndexOf(filePath, '/') + 1..])
    ensures r.Ok? ==> '/' !in r.value
    ensures r.Ok? && HasText(filePath) ==> r.value != ""
  {
    if HasText(filePath) then
      var parts := Split(filePath, '/');
      FileNameFacts(filePath);
      if |parts| == 0 then Err(NoFileName(filePath)) else Ok(parts[|parts| - 1])
    else
      BlankHasNoSlash(filePath);
      Ok(filePath)
  }

  /** A blank path holds only whitespace, so no slash. */
  lemma BlankHasNoSlash(filePath: string)
    requires !HasText(filePath)
    ensures '/' !in filePath && !(|filePath| > 0 && AllChar(filePath, '/'))
  {
    forall i | 0 <= i < |filePath| ensures filePath[i] != '/' {
      assert IsWhitespace(filePath[i]);
    }
    if |filePath| > 0 {
      assert filePath[0] != '/';
    }
  }

  /** What `split("/")` gives a path with text, in the terms GetFileName states. */
  lemma FileNameFacts(filePath: string)
    requires HasText(filePath)
    ensures var parts := Split(filePath, '/');
      && (|parts| == 0 <==> AllChar(filePath, '/'))
      && ('/' !in filePath ==> parts == [filePath])
      && (|parts| > 0 ==> '/' !in parts[|parts| - 1] && parts[|parts| - 1] != "")
      && (filePath[|filePath| - 1] != '/' ==> |parts| > 0 && parts[|parts| - 1] == filePath[LastIndexOf(filePath, '/') + 1..])
  {
    if '/' in filePath {
      SplitEmptyIffAllSeparators(filePath, '/');
      if |Split(filePath, '/')| > 0 {
        SplitLastElement(filePath, '/');
      }
      if filePath[|filePath| - 1] != '/' {
        SplitLastAfterSeparator(filePath, '/');
      }
    } else {
      UnslashedFileName(filePath);
    }
  }

  /** A path with text and no slash is its own single element, and nothing strips it. */
  lemma UnslashedFileName(filePath: string)
    requires HasText(filePath) && '/' !in filePath
    ensures Split(filePath, '/') == [filePath] && filePath != "" && !AllChar(filePath, '/')
    ensures LastIndexOf(filePath, '/') == -1
  {
    assert filePath[0] in filePath;
  }

  /** The suffix table `getLanguageFromFileName` tests, in its order. */
  const LanguageTable: seq<(string, string)> := [
    (".java", "java"), (".js", "javascript"), (".jsx", "javascript"),
    (".ts", "typescript"), (".tsx", "typescript"), (".py", "python"), (".go", "go"),
    (".rb", "ruby"), (".php", "php"), (".cpp", "cpp"), (".cc", "cpp"), (".c", "c"),
    (".cs", "csharp")
  ]

  /** The language of the first entry whose suffix ends the name, or "unknown". */
  function FirstSuffixMatch(table: seq<(string, string)>, name: string): string
    decreases |table|
  {
    if |table| == 0 then "unknown"
    else if EndsWith(name, table[0].0) then table[0].1
    else FirstSuffixMatch(table[1..], name)
  }

  /**
    The lookup answers with the language of the first matching row, and "unknown" exactly when no
    row matches.
  */
  lemma {:induction false} FirstSuffixMatchIsFirst(table: seq<(string, string)>, name: string, k: nat)
    requires k < |table| && EndsWith(name, table[k].0)
    requires forall j :: 0 <= j < k ==> !EndsWith(name, table[j].0)
    ensures FirstSuffixMatch(table, name) == table[k].1
    decreases k
  {
    if k > 0 {
      assert forall j :: 0 <= j < k - 1 ==> table[1..][j] == table[j + 1];
      FirstSuffixMatchIsFirst(table[1..], name, k - 1);
    }
  }

  lemma {:induction false} FirstSuffixMatchNone(table: seq<(string, string)>, name: string)
    requires forall j :: 0 <= j < |table| ==> !EndsWith(name, table[j].0)
    ensures FirstSuffixMatch(table, name) == "unknown"
    decreases |table|
  {
    if |table| > 0 {
      assert forall j :: 0 <= j < |table| - 1 ==> table[1..][j] == table[j + 1];
      FirstSuffixMatchNone(table[1..], name);
    }
  }

  /**
    `getLanguageFromFileName(fileName)`: the language of the first suffix that matches, else
    "unknown"; always one of eleven values.
  */
  function GetLanguageFromFileName(fileName: string): (r: string)
    ensures r in {"java", "javascript", "typescript", "python", "go", "ruby", "php", "cpp", "c", "csharp", "unknown"}
  {
    if EndsWith(fileName, ".java") then "java"
    else if EndsWith(fileName, ".js") || EndsWith(fileName, ".jsx") then "javascript"
    else if EndsWith(fileName, ".ts") || EndsWith(fileName, ".tsx") then "typescript"
    else if EndsWith(fileName, ".py") then "python"
    else if EndsWith(fileName, ".go") then "go"
    else if EndsWith(fileName, ".rb") then "ruby"
    else if EndsWith(fileName, ".php") then "php"
    else if EndsWith(fileName, ".cpp") || EndsWith(fileName, ".cc") then "cpp"
    else if EndsWith(fileName, ".c") then "c"
    else if EndsWith(fileName, ".cs") then "csharp"
    else "unknown"
  }

  /** One step of the lookup, at a row i holding the given suffix and language. */
  lemma FirstSuffixMatchFrom(table: seq<(string, string)>, name: string, i: nat, suffix: string, language: string)
    requires i < |table| && table[i] == (suffix, language)
    ensures FirstSuffixMatch(table[i..], name)
         == if EndsWith(name, suffix) then language else FirstSuffixMatch(table[i + 1..], name)
  {
    assert table[i..][0] == table[i];
    assert table[i..][1..] == table[i + 1..];
  }

  /** The table's rows, one by one. */
  predicate HasLanguageRows(table: seq<(string, string)>) {
    && |table| == 13
    && table[0] == (".java", "java")
    && table[1] == (".js", "javascript")
    && table[2] == (".jsx", "javascript")
    && table[3] == (".ts", "typescript")
    && table[4] == (".tsx", "typescript")
    && table[5] == (".py", "python")
    && table[6] == (".go", "go")
    && table[7] == (".rb", "ruby")
    && table[8] == (".php", "php")
    && table[9] == (".cpp", "cpp")
    && table[10] == (".cc", "cpp")
    && table[11] == (".c", "c")
    && table[12] == (".cs", "csharp")
  }

  lemma LanguageRows()
    ensures HasLanguageRows(LanguageTable)
  {
  }

  /** The if-chain walks any table with those rows in order. */
  lemma LanguageChainWalksRows(table: seq<(string, string)>, fileName: string)
    requires HasLanguageRows(table)
    ensures GetLanguageFromFileName(fileName) == FirstSuffixMatch(table, fileName)
  {
    assert table[0..] == table;
    FirstSuffixMatchFrom(table, fileName, 0, ".java", "java");
    FirstSuffixMatchFrom(table, fileName, 1, ".js", "javascript");
    FirstSuffixMatchFrom(table, fileName, 2, ".jsx", "javascript");
    FirstSuffixMatchFrom(table, fileName, 3, ".ts", "typescript");
    FirstSuffixMatchFrom(table, fileName, 4, ".tsx", "typescript");
    FirstSuffixMatchFrom(table, fileName, 5, ".py", "python");
    FirstSuffixMatchFrom(table, fileName, 6, ".go", "go");
    FirstSuffixMatchFrom(table, fileName, 7, ".rb", "ruby");
    FirstSuffixMatchFrom(table, fileName, 8, ".php", "php");
    FirstSuffixMatchFrom(table, fileName, 9, ".cpp", "cpp");
    FirstSuffixMatchFrom(table, fileName, 10, ".cc", "cpp");
    FirstSuffixMatchFrom(table, fileName, 11, ".c", "c");
    FirstSuffixMatchFrom(table, fileName, 12, ".cs", "csharp");
  }

  /** The if-chain is the first-match lookup in the suffix table, in the table's order. */
  lemma LanguageIsFirstMatch(fileName: string)
    ensures GetLanguageFromFileName(fileName) == FirstSuffixMatch(LanguageTable, fileName)
  {
    LanguageRows();
    LanguageChainWalksRows(LanguageTable, fileName);
  }

  // ---------------------------------------------------------------------------------------------
  // buildAnalysisPrompt, analyzeCode, analyzeMultipleFiles

  /**
    The fixed wording of the prompt: the opening instructions, the reply schema and the list of
    areas to focus on. Nothing proved about the prompt depends on the wording, so the analysis
    functions take it as a value and `ServiceTexts` holds the service's own.
  */
  datatype PromptTexts = PromptTexts(intro: string, schema: string, focus: string)

  const ServiceTexts: PromptTexts := PromptTexts(
    "You are an expert code reviewer with deep knowledge of software security, performance optimization, and best practices. "
      + "Analyze the following code and provide detailed feedback.\n\n",
    "Please analyze this code and provide your response in JSON format with the following structure:\n\n"
      + "{\n"
      + "  \"summary\": \"Brief summary of the analysis\",\n"
      + "  \"securityScore\": 0-100,\n"
      + "  \"performanceScore\": 0-100,\n"
      + "  \"bestPracticesScore\": 0-100,\n"
      + "  \"issues\": [\n"
      + "    {\n"
      + "      \"category\": \"SECURITY|PERFORMANCE|BEST_PRACTICE\",\n"
      + "      \"severity\": \"HIGH|MEDIUM|LOW\",\n"
      + "      \"title\": \"Issue title\",\n"
      + "      \"description\": \"Detailed description\",\n"
      + "      \"lineNumber\": 123,\n"
      + "      \"codeSnippet\": \"Problematic code snippet\",\n"
      + "      \"recommendation\": \"How to fix the issue\"\n"
      + "    }\n"
      + "  ],\n"
      + "  \"suggestions\": [\n"
      + "    {\n"
      + "      \"type\": \"REFACTORING|OPTIMIZATION|CONVENTION|ENHANCEMENT\",\n"
      + "      \"title\": \"Suggestion title\",\n"
      + "      \"description\": \"Detailed suggestion\",\n"
      + "      \"suggestedCode\": \"Improved code\",\n"
      + "      \"benefits\": \"Benefits of the change\",\n"
      + "      \"effort\": \"LOW|MEDIUM|HIGH\"\n"
      + "    }\n"
      + "  ]\n"
      + "}\n\n",
    "Focus on the following areas:\n"
      + "- Security vulnerabilities\n"
      + "- Performance issues\n"
      + "- Best practices violations\n"
      + "- Code maintainability\n"
      + "- Potential bugs\n"
  )

  /** The fenced block that carries the code, tagged with its language. */
  function CodeBlock(language: string, code: string): string {
    "```" + language + "\n" + code + "\n" + "```\n\n"
  }

  /** The closing section that carries the custom rules. */
  function RulesSection(rules: string): string {
    "\nCustom analysis rules:\n" + rules
  }

  /** The layout over arbitrary pieces: a fixed head, the code block after it, a fixed end. */
  lemma PromptLayout(head: string, info: string, block: string, after: string, tail: string)
    ensures var r := head + info + block + after + tail;
      && StartsWith(r, head) && Contains(r, block) && EndsWith(r, tail)
  {
    var r := head + info + block + after + tail;
    assert r[..|head|] == head;
    assert r[|head| + |info|..|head| + |info| + |block|] == block;
    ContainsAt(r, |head| + |info|, block);
    assert r[|r| - |tail|..] == tail;
  }

  /**
    `buildAnalysisPrompt(...)`: the instructions, then a head naming the path, then the language
    and the name, the code verbatim in a fence tagged with the language, the schema, the focus list
    and, when there are custom rules, those rules at the very end.
  */
  function BuildAnalysisPrompt(texts: PromptTexts, filePath: string, fileName: string, language: string,
                               code: string, rules: Option<string>): (r: string)
    ensures StartsWith(r, texts.intro + "File Information:\n" + "- Path: " + filePath + "\n")
    ensures Contains(r, CodeBlock(language, code))
    ensures rules.Some? ==> EndsWith(r, RulesSection(rules.value))
    ensures rules.None? ==> EndsWith(r, texts.focus)
  {
    var head := texts.intro + "File Information:\n" + "- Path: " + filePath + "\n";
    var info := "- Language: " + language + "\n" + "- Name: " + fileName + "\n\n" + "Code to analyze:\n";
    var block := CodeBlock(language, code);
    if rules.Some? then
      PromptLayout(head, info, block, texts.schema + texts.focus, RulesSection(rules.value));
      head + info + block + (texts.schema + texts.focus) + RulesSection(rules.value)
    else
      PromptLayout(head, info, block, texts.schema, texts.focus);
      head + info + block + texts.schema + texts.focus
  }

  /** The StringBuilder of `buildAnalysisPrompt`, appended to piece by piece; it ends holding the prompt. */
  method AppendPrompt(texts: PromptTexts, filePath: string, fileName: string, language: string,
                      code: string, rules: Option<string>) returns (prompt: string)
    ensures prompt == BuildAnalysisPrompt(texts, filePath, fileName, language, code, rules)
  {
    prompt := texts.intro;
    prompt := prompt + "File Information:\n";
    prompt := prompt + "- Path: " + filePath + "\n";
    var head := prompt;
    prompt := prompt + "- Language: " + language + "\n";
    prompt := prompt + "- Name: " + fileName + "\n\n";
    prompt := prompt + "Code to analyze:\n";
    assert prompt == head + ("- Language: " + language + "\n" + "- Name: " + fileName + "\n\n" + "Code to analyze:\n");
    var info := prompt;
    prompt := prompt + "```" + language + "\n";
    prompt := prompt + code + "\n";
    prompt := prompt + "```\n\n";
    assert prompt == info + CodeBlock(language, code);
    var block := prompt;
    prompt := prompt + texts.schema;
    prompt := prompt + texts.focus;
    if rules.Some? {
      assert prompt == block + (texts.schema + texts.focus);
      var body := prompt;
      prompt := prompt + "\nCustom analysis rules:\n";
      prompt := prompt + rules.value;
      assert prompt == body + RulesSection(rules.value);
    }
  }

  /** `loadAnalysisRules()`: the one fixed rule every prompt carries. */
  const DefaultRules: string := "Focus on Spring Boot best practices for Java files."

  function LoadAnalysisRules(): Option<string> {
    Some(DefaultRules)
  }

  /**
    `analyzeCode(...)`: one engine call on the prompt built with the loaded rules; its failure, or the parser's, is the call's
    failure; otherwise the parsed result.
  */
  function AnalyzeCode(texts: PromptTexts, filePath: string, fileName: string, language: string, code: string,
                       engine: string -> Option<string>, decode: string -> Option<Json>): (r: Result<CodeAnalysisResult, AnalysisError>)
    ensures var reply := engine(BuildAnalysisPrompt(texts, filePath, fileName, language, code, LoadAnalysisRules()));
      && (reply.None? ==> r == Err(EngineFailed))
      && (reply.Some? ==> var parsed := ParseAIResponse(filePath, fileName, language, code, reply.value, decode);
            && (r.Ok? <==> parsed.Ok?)
            && (r.Ok? ==> r.value == parsed.value)
            && (r.Err? ==> r.error == ResponseRejected(parsed.error)))
  {
    var prompt := BuildAnalysisPrompt(texts, filePath, fileName, language, code, LoadAnalysisRules());
    match engine(prompt)
    case None => Err(EngineFailed)
    case Some(aiResponse) =>
      match ParseAIResponse(filePath, fileName, language, code, aiResponse, decode)
      case Err(e) => Err(ResponseRejected(e))
      case Ok(result) => Ok(result)
  }

  /** The lambda of `analyzeMultipleFiles` for one entry: name and language come from the key. */
  function AnalyzeEntry(texts: PromptTexts, filePath: string, code: string,
                        engine: string -> Option<string>, decode: string -> Option<Json>): Result<CodeAnalysisResult, AnalysisError>
  {
    var fileName :- GetFileName(filePath);
    var language := GetLanguageFromFileName(fileName);
    AnalyzeCode(texts, filePath, fileName, language, code, engine, decode)
  }

  /**
    One entry's outcome: a path without a file name fails; a result carries the key as its path,
    the key's file name, that name's language and the entry's code.
  */
  lemma AnalyzeEntryResult(texts: PromptTexts, filePath: string, code: string,
                           engine: string -> Option<string>, decode: string -> Option<Json>)
    ensures var r := AnalyzeEntry(texts, filePath, code, engine, decode);
      && (GetFileName(filePath).Err? ==> r == Err(NoFileName(filePath)))
      && (r.Ok? ==>
            && r.value.filePath == filePath
            && GetFileName(filePath) == Ok(r.value.fileName)
            && r.value.language == GetLanguageFromFileName(r.value.fileName)
            && r.value.changedCode == code)
  {
  }

  /** The stream's `map` step, on one (key, value) entry. */
  function AnalyzeStep(texts: PromptTexts, engine: string -> Option<string>, decode: string -> Option<Json>)
    : ((string, string)) -> Result<CodeAnalysisResult, AnalysisError>
  {
    (e: (string, string)) => AnalyzeEntry(texts, e.0, e.1, engine, decode)
  }

  /** The entries of `codeFiles` in the order `order` visits their keys. */
  function EntriesInOrder(codeFiles: map<string, string>, order: seq<string>): (r: seq<(string, string)>)
    requires forall k :: 0 <= k < |order| ==> order[k] in codeFiles
    ensures |r| == |order| && forall k :: 0 <= k < |order| ==> r[k] == (order[k], codeFiles[order[k]])
  {
    seq(|order|, k requires 0 <= k < |order| => (order[k], codeFiles[order[k]]))
  }

  /**
    `analyzeMultipleFiles(codeFiles)`, entries taken in the map's iteration order `order`: one result
    per entry, in that order, or the failure of the first entry that fails. One failing file fails
    the whole call: there is no per-file isolation.
  */
  function AnalyzeMultipleFiles(texts: PromptTexts, codeFiles: map<string, string>, order: seq<string>,
                                engine: string -> Option<string>, decode: string -> Option<Json>)
    : (r: Result<seq<CodeAnalysisResult>, AnalysisError>)
    requires forall k :: 0 <= k < |order| ==> order[k] in codeFiles
    ensures r.Ok? <==> forall k :: 0 <= k < |order| ==> AnalyzeEntry(texts, order[k], codeFiles[order[k]], engine, decode).Ok?
    ensures r.Ok? ==> |r.value| == |order| && forall k :: 0 <= k < |order| ==>
                        r.value[k] == AnalyzeEntry(texts, order[k], codeFiles[order[k]], engine, decode).value
    ensures r.Err? ==> exists k :: 0 <= k < |order| && AnalyzeEntry(texts, order[k], codeFiles[order[k]], engine, decode) == Err(r.error)
                                 && forall m :: 0 <= m < k ==> AnalyzeEntry(texts, order[m], codeFiles[order[m]], engine, decode).Ok?
  {
    var entries := EntriesInOrder(codeFiles, order);
    var r := MapAll(entries, AnalyzeStep(texts, engine, decode));
    assert forall k :: 0 <= k < |order| ==>
      AnalyzeStep(texts, engine, decode)(entries[k]) == AnalyzeEntry(texts, order[k], codeFiles[order[k]], engine, decode);
    r
  }

  /** `order` lists every key of the map exactly once, as an iteration of its entry set does. */
  ghost predicate Enumerates(order: seq<string>, codeFiles: map<string, string>) {
    && (forall p :: p in codeFiles <==> p in order)
    && (forall i, j :: 0 <= i < j < |order| ==> order[i] != order[j])
  }

  lemma {:induction false} DistinctCardinality(order: seq<string>)
    requires forall i, j :: 0 <= i < j < |order| ==> order[i] != order[j]
    ensures |set p | p in order| == |order|
    decreases |order|
  {
    if |order| > 0 {
      var rest := order[1..];
      DistinctCardinality(rest);
      assert (set p | p in order) == (set p | p in rest) + {order[0]};
      assert order[0] !in rest;
    }
  }

  /** An enumeration has as many elements as the map has keys. */
  lemma EnumerationSize(order: seq<string>, codeFiles: map<string, string>)
    requires Enumerates(order, codeFiles)
    ensures |order| == |codeFiles|
  {
    DistinctCardinality(order);
    assert (set p | p in order) == codeFiles.Keys;
  }

  /** A successful call returns, at each position, the result for the key visited there. */
  lemma ResultPathsInOrder(texts: PromptTexts, codeFiles: map<string, string>, order: seq<string>,
                           engine: string -> Option<string>, decode: string -> Option<Json>)
    requires forall k :: 0 <= k < |order| ==> order[k] in codeFiles
    ensures var r := AnalyzeMultipleFiles(texts, codeFiles, order, engine, decode);
      r.Ok? ==> |r.value| == |order| && forall k :: 0 <= k < |order| ==> r.value[k].filePath == order[k]
  {
    var r := AnalyzeMultipleFiles(texts, codeFiles, order, engine, decode);
    if r.Ok? {
      forall k | 0 <= k < |order| ensures r.value[k].filePath == order[k] {
        var e := AnalyzeEntry(texts, order[k], codeFiles[order[k]], engine, decode);
        assert e.Ok? && r.value[k] == e.value;
        AnalyzeEntryResult(texts, order[k], codeFiles[order[k]], engine, decode);
      }
    }
  }

  /** Results whose paths follow an enumeration of the keys are one per key. */
  lemma PathsCoverKeys(codeFiles: map<string, string>, order: seq<string>, results: seq<CodeAnalysisResult>)
    requires Enumerates(order, codeFiles)
    requires |results| == |order| && forall k :: 0 <= k < |order| ==> results[k].filePath == order[k]
    ensures |results| == |codeFiles|
    ensures forall p :: p in codeFiles <==> exists k :: 0 <= k < |results| && results[k].filePath == p
  {
    EnumerationSize(order, codeFiles);
    forall p | p in codeFiles ensures exists k :: 0 <= k < |results| && results[k].filePath == p {
      var k :| 0 <= k < |order| && order[k] == p;
      assert results[k].filePath == p;
    }
  }

  /**
    When every entry succeeds, the results are one per map entry: as many as the map has keys,
    and their paths are exactly the keys.
  */
  lemma OneResultPerEntry(texts: PromptTexts, codeFiles: map<string, string>, order: seq<string>,
                          engine: string -> Option<string>, decode: string -> Option<Json>)
    requires Enumerates(order, codeFiles)
    ensures var r := AnalyzeMultipleFiles(texts, codeFiles, order, engine, decode);
      r.Ok? ==> && |r.value| == |codeFiles|
                && (forall p :: p in codeFiles <==> exists k :: 0 <= k < |r.value| && r.value[k].filePath == p)
  {
    assert forall k :: 0 <= k < |order| ==> order[k] in codeFiles;
    var r := AnalyzeMultipleFiles(texts, codeFiles, order, engine, decode);
    ResultPathsInOrder(texts, codeFiles, order, engine, decode);
    if r.Ok? {
      PathsCoverKeys(codeFiles, order, r.value);
    }
  }
}
