/** `parse_analysis_response`: extract and parse the JSON object of an
    analysis reply, coerce `extracted_info.sessions` to integers, validate,
    and otherwise fall back in two tiers: copy what fields can be copied
    from the parsed object, or, when the extracted text would not parse,
    clean markdown fences off the raw reply. `json.loads` and the schema
    validation are parameters, since neither is modelled. */
module Analysis {
  import opened Wrappers
  import opened Chars
  import opened Json
  import opened JsonUtils
  import opened PyInt
  import opened Patterns
  import opened Fences

  /** What the parser returns: the validated analysis, or an analysis built
      by a fallback with default `extracted_info` */
  datatype AnalysisOutcome<A> =
    | Validated(analysis: A)
    | Fallback(interpretation: JsonValue, findings: seq<JsonValue>, nextSteps: seq<JsonValue>)

  // ---------------------------------------------------------------------
  // Session coercion

  /** `[Ss]ession\s+(\d+)` first matches `s` at `i` with group `g` */
  ghost predicate LeftmostSessionNumber(s: string, i: nat, g: Span) {
    && SessionNumberShape(s, i, g)
    && forall k: nat, h | k < i :: !SessionNumberShape(s, k, h)
  }

  /** The integer a string in `sessions` stands for: the id after its
      first `session`/`Session` and whitespace, or else its own value when
      it is an integer literal */
  function SessionIdOf(s: string): (r: Option<int>)
    ensures forall i: nat, g | LeftmostSessionNumber(s, i, g) :: r == Some(DigitsValue(s[g.lo..g.hi]))
    ensures (forall i: nat, g :: !SessionNumberShape(s, i, g)) ==> r == PyIntOf(s)
  {
    match FindSessionNumber(s, 0)
    case Some((i, g)) =>
      assert SessionNumberShape(s, i, g);
      assert forall i': nat, g' | LeftmostSessionNumber(s, i', g') :: i' == i && g' == g by {
        forall i': nat, g' | LeftmostSessionNumber(s, i', g') ensures i' == i && g' == g {
          assert SessionNumberAt(s, i') == Some(g');
        }
      }
      Some(DigitsValue(s[g.lo..g.hi]))
    case None =>
      assert forall i: nat, g | SessionNumberShape(s, i, g) :: SessionNumberAt(s, i) == Some(g);
      PyIntOf(s)
  }

  /** One element of `sessions`: an int (bool included) is kept, a string
      becomes the id it stands for or is dropped, anything else is
      dropped. */
  function CoerceSessionItem(item: JsonValue): (r: Option<JsonValue>)
    ensures IsPyInt(item) ==> r == Some(item)
    ensures !IsPyInt(item) && !item.JString? ==> r.None?
    ensures item.JString? ==> r == (match SessionIdOf(item.s) case Some(v) => Some(JInt(v)) case None => None)
    ensures r.Some? ==> IsPyInt(r.value)
  {
    if IsPyInt(item) then Some(item)
    else if !item.JString? then None
    else
      match SessionIdOf(item.s)
      case Some(v) => Some(JInt(v))
      case None => None
  }

  /** The loop over `sessions`: coerce each element, keep what survives,
      in order. */
  function CoerceSessions(items: seq<JsonValue>): (r: seq<JsonValue>)
    ensures |r| <= |items|
    ensures forall k | 0 <= k < |r| :: IsPyInt(r[k])
    ensures |items| == 1 ==>
      r == (match CoerceSessionItem(items[0]) case Some(v) => [v] case None => [])
  {
    if items == [] then []
    else
      var rest := CoerceSessions(items[1..]);
      match CoerceSessionItem(items[0])
      case Some(v) => [v] + rest
      case None => rest
  }

  /** Coercion works element by element: it distributes over
      concatenation. */
  lemma {:induction false} CoerceSessionsAppend(a: seq<JsonValue>, b: seq<JsonValue>)
    ensures CoerceSessions(a + b) == CoerceSessions(a) + CoerceSessions(b)
    decreases |a|
  {
    if a == [] {
      assert a + b == b;
    } else {
      assert (a + b)[0] == a[0];
      assert (a + b)[1..] == a[1..] + b;
      CoerceSessionsAppend(a[1..], b);
    }
  }

  /** A list of ints comes through unchanged. */
  lemma {:induction false} CoerceSessionsOfInts(items: seq<JsonValue>)
    requires forall k | 0 <= k < |items| :: IsPyInt(items[k])
    ensures CoerceSessions(items) == items
  {
    if items != [] {
      CoerceSessionsOfInts(items[1..]);
    }
  }

  /** Coercion is idempotent: its output is a list of ints. */
  lemma CoerceSessionsIdempotent(items: seq<JsonValue>)
    ensures CoerceSessions(CoerceSessions(items)) == CoerceSessions(items)
  {
    CoerceSessionsOfInts(CoerceSessions(items));
  }

  /** A list of ids stays as it is. */
  lemma IntSessionsExample()
    ensures CoerceSessions([JInt(1), JInt(2)]) == [JInt(1), JInt(2)]
  {
    CoerceSessionsOfInts([JInt(1), JInt(2)]);
  }

  const Described: string := "Meterpreter " + "session 7 opened a shell"

  lemma DescribedShape()
    ensures SessionNumberShape(Described, 12, Span(20, 21))
  {
    assert forall k | 0 <= k < 7 :: Described[12 + k] == "session"[k];
    assert Described[12..19] == "session";
    assert AllIn(Described, 19, 20, IsSpace);
    assert AllIn(Described, 20, 21, IsDigit);
  }

  lemma DescribedNoEarlierKeyword()
    ensures forall k: nat | k < 12 :: !KeywordAt(Described, k)
  {
    var pre := "Meterpreter ";
    assert Described == pre + "session 7 opened a shell";
    assert forall k | 0 <= k < |pre| :: pre[k] != 's' && pre[k] != 'S';
    forall k: nat | k < 12 ensures !KeywordAt(Described, k) {
      assert Described[k] == pre[k];
      if KeywordAt(Described, k) {
        KeywordInitial(Described, k);
      }
    }
  }

  /** A string whose first session-number match is known coerces to that
      match's id. */
  lemma CoerceLeftmost(s: string, i: nat, g: Span)
    requires LeftmostSessionNumber(s, i, g)
    ensures CoerceSessionItem(JString(s)) == Some(JInt(DigitsValue(s[g.lo..g.hi])))
  {
  }

  /** A Metasploit description gives the id after "session". */
  lemma DescribedSessionExample()
    ensures CoerceSessionItem(JString(Described)) == Some(JInt(7))
  {
    DescribedShape();
    DescribedNoEarlierKeyword();
    assert Described[20..21] == "7";
    assert DigitsValue("7") == 7;
    CoerceLeftmost(Described, 12, Span(20, 21));
  }

  /** A bare number gives its value. */
  lemma NumericSessionExample()
    ensures CoerceSessionItem(JString("12")) == Some(JInt(12))
  {
    PyIntOfDigits("12");
    assert forall i: nat, g :: !SessionNumberShape("12", i, g);
  }

  /** Anything else is dropped. */
  lemma UnknownSessionExample()
    ensures CoerceSessionItem(JString("unknown")) == None
  {
    assert !IsIntSpace('u') && !IsIntSpace('n');
    IntBodyUnpadded("unknown");
    assert forall i: nat, g :: !SessionNumberShape("unknown", i, g) by {
      forall i: nat | i <= 7 ensures !KeywordAt("unknown", i) { }
    }
  }

  // ---------------------------------------------------------------------
  // The sessions pre-processing

  /** `"sessions" in info`: a key test on an object, list membership on a
      list, a substring test on a string; `None` for the scalars, where
      Python raises `TypeError` */
  function HasSessionsKey(info: JsonValue): (r: Option<bool>)
    ensures r.None? <==> !(info.JObject? || info.JArray? || info.JString?)
    ensures info.JObject? ==> r == Some("sessions" in info.fields)
    ensures info.JArray? ==> r == Some(JString("sessions") in info.items)
    ensures info.JString? ==> r == Some(Contains(info.s, "sessions"))
  {
    match info
    case JObject(m) => Some("sessions" in m)
    case JArray(a) => Some(JString("sessions") in a)
    case JString(s) => Some(Contains(s, "sessions"))
    case _ => None
  }

  /** `for item in sessions`: a list yields its elements and a string its
      one-character strings; `None` where iteration is not modelled or
      raises */
  function SessionItems(v: JsonValue): (r: Option<seq<JsonValue>>)
    ensures v.JArray? ==> r == Some(v.items)
    ensures v.JString? ==>
      (r.Some? && |r.value| == |v.s| && forall k | 0 <= k < |v.s| :: r.value[k] == JString([v.s[k]]))
    ensures !(v.JArray? || v.JString?) ==> r.None?
  {
    match v
    case JArray(a) => Some(a)
    case JString(s) => Some(seq(|s|, k requires 0 <= k < |s| => JString([s[k]])))
    case _ => None
  }

  /** The first `try` block up to validation: rewrite
      `extracted_info.sessions` to its coerced list; `None` when Python
      raises on the way */
  function PreprocessSessions(data: JsonObject): (r: Option<JsonObject>)
    ensures r.Some? ==> r.value.Keys == data.Keys
    ensures r.Some? ==> forall k | k in data && k != "extracted_info" :: r.value[k] == data[k]
    ensures "extracted_info" !in data ==> r == Some(data)
    ensures r.Some? && r.value != data ==>
      && data["extracted_info"].JObject?
      && "sessions" in data["extracted_info"].fields
      && r.value["extracted_info"].JObject?
      && var before := data["extracted_info"].fields;
         var after := r.value["extracted_info"].fields;
         && after.Keys == before.Keys
         && (forall k | k in before && k != "sessions" :: after[k] == before[k])
         && after["sessions"].JArray?
         && forall k | 0 <= k < |after["sessions"].items| :: IsPyInt(after["sessions"].items[k])
    ensures ("extracted_info" in data && data["extracted_info"].JObject?
             && "sessions" in data["extracted_info"].fields
             && SessionItems(data["extracted_info"].fields["sessions"]).Some?) ==>
      && r.Some? && r.value["extracted_info"].JObject?
      && r.value["extracted_info"].fields["sessions"]
         == JArray(CoerceSessions(SessionItems(data["extracted_info"].fields["sessions"]).value))
    ensures r.None? <==>
      && "extracted_info" in data
      && var info := data["extracted_info"];
         || HasSessionsKey(info).None?
         || (HasSessionsKey(info) == Some(true)
             && (!info.JObject? || SessionItems(info.fields["sessions"]).None?))
  {
    if "extracted_info" !in data then Some(data)
    else
      var info := data["extracted_info"];
      match HasSessionsKey(info)
      case None => None
      case Some(false) => Some(data)
      case Some(true) =>
        if !info.JObject? then None
        else
          match SessionItems(info.fields["sessions"])
          case None => None
          case Some(items) =>
            var fields := info.fields["sessions" := JArray(CoerceSessions(items))];
            Some(data["extracted_info" := JObject(fields)])
  }

  /** Pre-processing an already processed object changes nothing more. */
  lemma PreprocessIdempotent(data: JsonObject)
    requires PreprocessSessions(data).Some?
    ensures PreprocessSessions(PreprocessSessions(data).value) == PreprocessSessions(data)
  {
    var d := PreprocessSessions(data).value;
    if "extracted_info" in data && d != data {
      var items := d["extracted_info"].fields["sessions"].items;
      CoerceSessionsIdempotent(SessionItems(data["extracted_info"].fields["sessions"]).value);
      var fields := d["extracted_info"].fields["sessions" := JArray(CoerceSessions(items))];
      assert fields == d["extracted_info"].fields;
      assert d["extracted_info" := JObject(fields)] == d;
    }
  }

  // ---------------------------------------------------------------------
  // The parser

  /** `data[key]` when it is a list, else empty */
  function ListField(data: JsonObject, key: string): (r: seq<JsonValue>)
    ensures key in data && data[key].JArray? ==> r == data[key].items
    ensures !(key in data && data[key].JArray?) ==> r == []
  {
    if key in data && data[key].JArray? then data[key].items else []
  }

  /** The structural fallback, from the object the reply parsed to */
  function StructuralFallback<A>(text: string, data: JsonObject): (r: AnalysisOutcome<A>)
    ensures r.Fallback?
    ensures "interpretation" in data ==> r.interpretation == data["interpretation"]
    ensures "interpretation" !in data ==> r.interpretation == JString(text)
    ensures r.findings == ListField(data, "actionable_findings")
    ensures r.nextSteps == ListField(data, "recommended_next_steps")
  {
    Fallback(
      if "interpretation" in data then data["interpretation"] else JString(text),
      ListField(data, "actionable_findings"),
      ListField(data, "recommended_next_steps"))
  }

  /** Every stage succeeds on `text`: the extracted object parses, its
      sessions are pre-processed, and the result validates to `a`. */
  ghost predicate AnalysisDecodesTo<A>(
    text: string,
    parse: string -> Option<JsonObject>,
    validate: JsonObject -> Option<A>,
    a: A)
  {
    && ExtractJson(text).Some?
    && parse(ExtractJson(text).value).Some?
    && PreprocessSessions(parse(ExtractJson(text).value).value).Some?
    && validate(PreprocessSessions(parse(ExtractJson(text).value).value).value) == Some(a)
  }

  /** `parse_analysis_response`. Total. It validates exactly when every
      stage succeeds. Otherwise: with no object in the text the raw text is
      the interpretation; with an object that will not parse the text is
      cleaned of fences first; with a parsed object its fields are copied,
      lists only when they are lists. */
  function ParseAnalysisResponse<A(!new)>(
    text: string,
    parse: string -> Option<JsonObject>,
    validate: JsonObject -> Option<A>): (r: AnalysisOutcome<A>)
    ensures r.Validated? <==> exists a :: AnalysisDecodesTo(text, parse, validate, a)
    ensures r.Validated? ==> AnalysisDecodesTo(text, parse, validate, r.analysis)
    ensures ExtractJson(text).None? ==> r == Fallback(JString(text), [], [])
    ensures ExtractJson(text).Some? && parse(ExtractJson(text).value).None? ==>
      r == Fallback(JString(StripFences(text)), [], [])
    ensures r.Fallback? && ExtractJson(text).Some? && parse(ExtractJson(text).value).Some? ==>
      var data := parse(ExtractJson(text).value).value;
      && r.interpretation == (if "interpretation" in data then data["interpretation"] else JString(text))
      && (r.findings != [] ==> "actionable_findings" in data && data["actionable_findings"] == JArray(r.findings))
      && ("actionable_findings" in data && data["actionable_findings"].JArray? ==>
           r.findings == data["actionable_findings"].items)
      && (r.nextSteps != [] ==> "recommended_next_steps" in data && data["recommended_next_steps"] == JArray(r.nextSteps))
      && ("recommended_next_steps" in data && data["recommended_next_steps"].JArray? ==>
           r.nextSteps == data["recommended_next_steps"].items)
  {
    match ExtractJson(text)
    case None => Fallback(JString(text), [], [])
    case Some(js) =>
      match parse(js)
      case None => Fallback(JString(StripFences(text)), [], [])
      case Some(data) =>
        match PreprocessSessions(data)
        case None => StructuralFallback(text, data)
        case Some(d) =>
          match validate(d)
          case None => StructuralFallback(text, data)
          case Some(a) =>
            assert AnalysisDecodesTo(text, parse, validate, a);
            Validated(a)
  }
}
