/** The deterministic parts of the agents around the language-model calls:
    what each returns when the reply does not parse, the keyword filter of
    `SampleRequestAgent.generate_sample_requests`, and the yes/no reading of
    `MiddlewareAgent.verify_improvements`. Every reply is a parameter:
    its text, or the outcome of `json.loads` on it (`None` for a
    `JSONDecodeError`). */
module Agents {
  import opened Wrappers
  import opened Text
  import opened JsonValue
  import opened Sequences

  // ---------------------------------------------------------------------
  // ParsingAgent.parse_natural_language

  /** `parse_natural_language`: the parsed reply, or `{}` when it is not JSON. */
  function ParseNaturalLanguage(decoded: Option<Json>): (r: Json)
    ensures decoded.Some? ==> r == decoded.value
    ensures decoded.None? ==> r == EmptyObject
  {
    decoded.GetOr(EmptyObject)
  }

  // ---------------------------------------------------------------------
  // MiddlewareAgent._analyze_feedback

  /** The five areas the feedback analysis sorts issues into. */
  const FeedbackCategories: seq<string> :=
    ["security_issues", "performance_issues", "error_handling", "code_structure", "functionality_issues"]

  /** The analysis returned when the reply is not JSON: every area, no issue. */
  const EmptyAnalysis: Json := JObject(map[
    "security_issues" := JArray([]),
    "performance_issues" := JArray([]),
    "error_handling" := JArray([]),
    "code_structure" := JArray([]),
    "functionality_issues" := JArray([])])

  /** An analysis with exactly the five areas as keys and an empty list in each. */
  predicate IsEmptyAnalysis(j: Json)
  {
    && j.JObject?
    && (forall key :: key in j.fields ==> key in FeedbackCategories)
    && (forall key :: key in FeedbackCategories ==> key in j.fields)
    && (forall key :: key in j.fields ==> j.fields[key] == JArray([]))
  }

  /** `_analyze_feedback`: the parsed reply, or the empty analysis when it is
      not JSON. */
  function AnalyzeFeedback(decoded: Option<Json>): (r: Json)
    ensures decoded.Some? ==> r == decoded.value
    ensures decoded.None? ==> IsEmptyAnalysis(r)
  {
    EmptyAnalysisShape();
    decoded.GetOr(EmptyAnalysis)
  }

  /** The fallback analysis names each of the five areas and no other key,
      and lists no issue in any of them. */
  lemma EmptyAnalysisShape()
    ensures IsEmptyAnalysis(EmptyAnalysis)
    ensures |EmptyAnalysis.fields| == |FeedbackCategories| == 5
  {
  }

  // ---------------------------------------------------------------------
  // MiddlewareAgent.verify_improvements

  /** `verify_improvements`: the answer counts as a yes when its lower-cased
      text contains `"true"` anywhere. */
  function VerifyImprovements(answer: string): (ok: bool)
  {
    Contains(Lower(answer), "true")
  }

  /** The four characters of `answer` from `i` on spell "true" in any mix of
      upper and lower case. */
  predicate SpellsTrueAt(answer: string, i: nat)
  {
    && i + 4 <= |answer|
    && LowerChar(answer[i]) == 't'
    && LowerChar(answer[i + 1]) == 'r'
    && LowerChar(answer[i + 2]) == 'u'
    && LowerChar(answer[i + 3]) == 'e'
  }

  /** The answer is a yes exactly when "true", in any case, occurs in it. */
  lemma VerifyImprovementsIff(answer: string)
    ensures VerifyImprovements(answer) <==> exists i: nat :: SpellsTrueAt(answer, i)
  {
    var low := Lower(answer);
    ContainsIff(low, "true");
    forall i: nat
      ensures OccursAt(low, "true", i) <==> SpellsTrueAt(answer, i)
    {
      if i + 4 <= |answer| {
        assert low[i..i + 4] == [low[i], low[i + 1], low[i + 2], low[i + 3]];
      }
    }
  }

  /** Extra text around a yes keeps it a yes: the test accepts "not true" or
      "True, but ..." alike. */
  lemma VerifyImprovementsExtends(before: string, answer: string, after: string)
    requires VerifyImprovements(answer)
    ensures VerifyImprovements(before + answer + after)
  {
    VerifyImprovementsIff(answer);
    var i: nat :| SpellsTrueAt(answer, i);
    var whole := before + answer + after;
    assert whole[|before| + i..|before| + i + 4] == answer[i..i + 4];
    assert SpellsTrueAt(whole, |before| + i);
    VerifyImprovementsIff(whole);
  }

  /** The test reads letters case-blind: lower-casing the answer first does
      not change it. */
  lemma VerifyImprovementsCaseBlind(answer: string)
    ensures VerifyImprovements(Lower(answer)) == VerifyImprovements(answer)
  {
    LowerTwice(answer);
  }

  /** An answer that agrees in words but never writes "true" is read as a
      no. */
  lemma AgreementInWordsIsNo()
    ensures !VerifyImprovements("Yes, it satisfies all requirements.")
  {
    var yes := "Yes, it satisfies all requirements.";
    VerifyImprovementsIff(yes);
    assert !exists i: nat :: SpellsTrueAt(yes, i);
  }

  /** "False" is read as a no. */
  lemma FalseIsNo()
    ensures !VerifyImprovements("False")
  {
    VerifyImprovementsIff("False");
    assert !SpellsTrueAt("False", 0) && !SpellsTrueAt("False", 1);
  }

  /** A "not true" is read as a yes, as is a bare "TRUE". */
  lemma NegatedTrueIsYes()
    ensures VerifyImprovements("That is not true.")
    ensures VerifyImprovements("TRUE")
  {
    assert SpellsTrueAt("That is not true.", 12);
    VerifyImprovementsIff("That is not true.");
    assert SpellsTrueAt("TRUE", 0);
    VerifyImprovementsIff("TRUE");
  }

  /** An answer shorter than four characters is never a yes. */
  lemma ShortAnswerIsNo(answer: string)
    requires |answer| < 4
    ensures !VerifyImprovements(answer)
  {
  }

  /** Lower-casing is idempotent. */
  lemma LowerTwice(s: string)
    ensures Lower(Lower(s)) == Lower(s)
  {
  }

  // ---------------------------------------------------------------------
  // SampleRequestAgent.generate_sample_requests

  /** The keywords a sample must mention to count as an HTTP request task. */
  const HttpKeywords: seq<string> :=
    ["http", "request", "header", "body", "payload", "content-type",
     "authorization", "token", "jwt", "cors", "method", "get", "post",
     "put", "delete", "url", "query", "parameter"]

  /** Some keyword occurs in the lower-cased sample. */
  predicate IsHttpRelated(sample: string)
  {
    ContainsAny(Lower(sample), HttpKeywords)
  }

  /** `generate_sample_requests` given the parsed reply (`None` when it is
      not JSON): the samples that mention an HTTP keyword, in their order. */
  method GenerateSampleRequests(decoded: Option<seq<string>>) returns (validated: seq<string>)
    ensures decoded.None? ==> validated == []
    ensures decoded.Some? ==> validated == Filter(decoded.value, IsHttpRelated)
    ensures decoded.Some? ==> IsSubsequence(validated, decoded.value)
    ensures decoded.Some? ==> forall x :: x in validated <==> x in decoded.value && IsHttpRelated(x)
  {
    validated := [];
    if decoded.None? {
      return;
    }
    var samples := decoded.value;
    var i := 0;
    while i < |samples|
      invariant 0 <= i <= |samples|
      invariant validated == Filter(samples[..i], IsHttpRelated)
    {
      assert samples[..i + 1] == samples[..i] + [samples[i]];
      FilterAppend(samples[..i], [samples[i]], IsHttpRelated);
      if IsHttpRelated(samples[i]) {
        validated := validated + [samples[i]];
      }
      i := i + 1;
    }
    assert samples[..i] == samples;
    FilterIsSubsequence(samples, IsHttpRelated);
    forall x
      ensures x in validated <==> x in samples && IsHttpRelated(x)
    {
      FilterMembers(samples, IsHttpRelated, x);
    }
  }

  /** The keyword test is case-blind. */
  lemma HttpRelatedCaseBlind(sample: string)
    ensures IsHttpRelated(Lower(sample)) == IsHttpRelated(sample)
  {
    LowerTwice(sample);
  }

  // ---------------------------------------------------------------------
  // RetrievalManager.generate_enhanced_requirements

  /** What the model call gives back: an exception with its message, or the
      text of each content block of the response. */
  datatype Reply = Failed(message: string) | Delivered(texts: seq<string>)

  /** `{"error": message}`. */
  function ErrorObject(message: string): Json
  {
    JObject(map["error" := JString(message)])
  }

  /** The requirements returned when the reply is not JSON. */
  const DefaultRequirements: Json := JObject(map[
    "intent" := JString("unknown"),
    "entities" := JArray([]),
    "requirements" := JArray([]),
    "constraints" := JArray([]),
    "parameters" := EmptyObject])

  /** `generate_enhanced_requirements`, with `decode` for `json.loads`. */
  function GenerateEnhancedRequirements(reply: Reply, decode: string -> Option<Json>): (r: Json)
  {
    match reply
    case Failed(message) => ErrorObject("Failed to generate requirements: " + message)
    case Delivered(texts) =>
      if texts == [] || IsBlank(texts[0]) then ErrorObject("Empty response received")
      else decode(texts[0]).GetOr(DefaultRequirements)
  }

  /** An error report: an object whose only key is `"error"`, holding text. */
  predicate IsErrorReport(j: Json)
  {
    j.JObject? && j.fields.Keys == {"error"} && j.fields["error"].JString?
  }

  /** The four outcomes: a failed call and an empty or blank reply are
      reported as errors, a reply that is not JSON gives the default
      requirements (intent "unknown", nothing else), and any other reply is
      returned as parsed. */
  lemma EnhancedRequirementsOutcomes(reply: Reply, decode: string -> Option<Json>)
    ensures var r := GenerateEnhancedRequirements(reply, decode);
      && (reply.Failed? ==>
            IsErrorReport(r) && r.fields["error"].s == "Failed to generate requirements: " + reply.message)
      && (reply.Delivered? && (reply.texts == [] || IsBlank(reply.texts[0])) ==>
            IsErrorReport(r) && r.fields["error"].s == "Empty response received")
      && (reply.Delivered? && reply.texts != [] && !IsBlank(reply.texts[0]) ==>
            && (decode(reply.texts[0]).None? ==>
                  && r.fields.Keys == {"intent", "entities", "requirements", "constraints", "parameters"}
                  && r.fields["intent"] == JString("unknown")
                  && r.fields["entities"] == r.fields["requirements"] == r.fields["constraints"] == JArray([])
                  && r.fields["parameters"] == EmptyObject)
            && (decode(reply.texts[0]).Some? ==> r == decode(reply.texts[0]).value))
  {
  }

  /** The result is always a JSON object, as the `Dict` return type says,
      provided every reply that parses parses to an object. */
  lemma EnhancedRequirementsIsObject(reply: Reply, decode: string -> Option<Json>)
    requires forall t :: decode(t).Some? ==> decode(t).value.JObject?
    ensures GenerateEnhancedRequirements(reply, decode).JObject?
  {
  }

  /** With a JSON codec that round-trips, a reply whose first block is the
      encoding of `j` yields `j` itself, whatever blocks follow. */
  lemma EnhancedRequirementsRoundTrip(j: Json, more: seq<string>,
                                      encode: Json -> string, decode: string -> Option<Json>)
    requires RoundTrips(encode, decode)
    requires !IsBlank(encode(j))
    ensures GenerateEnhancedRequirements(Delivered([encode(j)] + more), decode) == j
  {
  }
}
