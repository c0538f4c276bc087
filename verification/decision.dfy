/** `parse_llm_decision`: extract the JSON object from a language-model
    reply, null out empty nested objects, validate, and fall back to a fixed
    "complete" decision on any failure. `json.loads` and the schema
    validation are parameters, since neither is modelled. */
module Decision {
  import opened Wrappers
  import opened Json
  import opened JsonUtils

  /** The fields of an `LLMDecision` the parser itself sets. The nested
      `user_question` and `phase_transition` records are kept as the JSON
      they were validated from. */
  datatype LLMDecision = LLMDecision(
    thought: string,
    reasoning: string,
    action: string,
    completionReason: Option<string>,
    updatedTodoList: seq<string>,
    userQuestion: Option<JsonValue>,
    phaseTransition: Option<JsonValue>)

  /** The decision returned when the reply cannot be used */
  function FallbackDecision(text: string): (r: LLMDecision)
    ensures r.action == "complete" && r.thought == text && r.updatedTodoList == []
    ensures r.userQuestion.None? && r.phaseTransition.None?
  {
    LLMDecision(
      text,
      "Failed to parse structured response",
      "complete",
      Some("Unable to continue due to response parsing error"),
      [],
      None,
      None)
  }

  /** The keys whose empty values would fail validation */
  const NullableKeys: set<string> := {"user_question", "phase_transition"}

  /** Replace a present but falsy `data[key]` by null. (`== {}` adds
      nothing to the falsiness test: an empty object is falsy.) */
  function NullIfFalsy(data: JsonObject, key: string): JsonObject {
    if key in data && !Truthy(data[key]) then data[key := JNull] else data
  }

  /** The pre-validation clean-up. Keys stay the same; a nullable key with
      a falsy value becomes null; every other entry is left alone. */
  function NormalizeDecisionData(data: JsonObject): (r: JsonObject)
    ensures r.Keys == data.Keys
    ensures forall k | k in data && k !in NullableKeys :: r[k] == data[k]
    ensures forall k | k in data && Truthy(data[k]) :: r[k] == data[k]
    ensures forall k | k in NullableKeys && k in data && !Truthy(data[k]) :: r[k] == JNull
  {
    NullIfFalsy(NullIfFalsy(data, "user_question"), "phase_transition")
  }

  /** After normalisation a nullable key holds null or a truthy value. */
  lemma NormalizedNullables(data: JsonObject)
    ensures var r := NormalizeDecisionData(data);
      forall k | k in NullableKeys && k in r :: r[k] == JNull || Truthy(r[k])
  {
  }

  /** Normalising twice is normalising once. */
  lemma NormalizeIdempotent(data: JsonObject)
    ensures NormalizeDecisionData(NormalizeDecisionData(data)) == NormalizeDecisionData(data)
  {
    var r := NormalizeDecisionData(data);
    var rr := NormalizeDecisionData(r);
    assert forall k | k in r :: rr[k] == r[k];
  }

  /** Every stage succeeds on `text`: extraction finds an object, it
      parses, and the normalised data validates to `d`. */
  ghost predicate DecodesTo(
    text: string,
    parse: string -> Option<JsonObject>,
    validate: JsonObject -> Option<LLMDecision>,
    d: LLMDecision)
  {
    && ExtractJson(text).Some?
    && parse(ExtractJson(text).value).Some?
    && validate(NormalizeDecisionData(parse(ExtractJson(text).value).value)) == Some(d)
  }

  /** `parse_llm_decision`. Total: either every stage succeeded and the
      validated decision comes back, or the fallback built from the raw
      text does. */
  function ParseLlmDecision(
    text: string,
    parse: string -> Option<JsonObject>,
    validate: JsonObject -> Option<LLMDecision>): (r: LLMDecision)
    ensures (exists d :: DecodesTo(text, parse, validate, d)) ==> DecodesTo(text, parse, validate, r)
    ensures (forall d :: !DecodesTo(text, parse, validate, d)) ==> r == FallbackDecision(text)
  {
    match ExtractJson(text)
    case None => FallbackDecision(text)
    case Some(js) =>
      match parse(js)
      case None => FallbackDecision(text)
      case Some(data) =>
        match validate(NormalizeDecisionData(data))
        case None => FallbackDecision(text)
        case Some(d) =>
          assert DecodesTo(text, parse, validate, d);
          d
  }

  /** Text without a `{` before a `}` always lands on the fallback, which
      completes the run and keeps the raw text as its thought. */
  lemma NoJsonFallsBack(
    text: string,
    parse: string -> Option<JsonObject>,
    validate: JsonObject -> Option<LLMDecision>)
    requires !HasBracePair(text)
    ensures var r := ParseLlmDecision(text, parse, validate);
      r.action == "complete" && r.thought == text && r.updatedTodoList == []
      && r.reasoning == "Failed to parse structured response"
      && r.completionReason == Some("Unable to continue due to response parsing error")
  {
  }

  /** A decision object wrapped in prose that holds no braces of its own
      decodes exactly as validating the object's normalised data directly. */
  lemma WrappedDecisionRoundTrip(
    before: string, obj: string, after: string,
    parse: string -> Option<JsonObject>,
    validate: JsonObject -> Option<LLMDecision>,
    data: JsonObject, d: LLMDecision)
    requires |obj| >= 2 && obj[0] == '{' && obj[|obj| - 1] == '}'
    requires forall k | 0 <= k < |before| :: before[k] != '{'
    requires forall k | 0 <= k < |after| :: after[k] != '}'
    requires parse(obj) == Some(data)
    requires validate(NormalizeDecisionData(data)) == Some(d)
    ensures ParseLlmDecision(before + obj + after, parse, validate) == d
  {
    ExtractJsonFromWrapped(before, obj, after);
  }
}
