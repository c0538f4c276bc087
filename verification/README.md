# The interpretation layer of the redamon orchestrator, in Dafny

This project models the part of the orchestrator that turns free text into
typed state. It has three pieces.

- **`extract_json`** cuts the text from the first `{` to the last `}` out of a
  language model's reply (`JsonUtils`).
- **The reply parsers.**
  - `parse_llm_decision` nulls out empty `user_question` / `phase_transition`
    values, validates, and on any failure returns a fixed "complete" decision
    (`Decision`).
  - `parse_analysis_response` coerces `extracted_info.sessions` to integers and
    validates (`Analysis`). When that fails it falls back in two tiers: a
    structural copy of the parsed fields, or a markdown-fence cleanup of the raw
    text (`Fences`).
- **The detectors and the merge** (`Detection`).
  - The session-opened scanner and the "sending stage" flag.
  - The brute-force credential scanner, with de-duplication.
  - The gated, copy-on-write update of the target record.

`json.loads` and the two Pydantic `model_validate` calls are function-typed
parameters. Every parser result is stated in terms of them.

Python's regular expressions are modelled by hand:

- **Scanners.** Each pattern tried at one index is a deterministic scanner.
  A declarative "shape" predicate describes what a match looks like, and the
  scanner is proved to return exactly the matches the shape describes
  (`Patterns`).
- **`re.search`.** The leftmost index where the scanner succeeds.
- **`re.findall`.** A generic scan that resumes after each match. It is proved
  to report only matches, and to report or overlap every index where the
  pattern matches.
- **Character classes** (`Chars`, `PyInt`).
  - `\s` is Python's whitespace set.
  - `\d` and `\w` are ASCII only.
  - `str.lower` and `str.strip` act on the same classes.
  - Python's `int()` on a `str` is modelled with its sign, underscores and
    surrounding whitespace.

`DetectionExamples` proves what the detectors and the merge return on the
lines Metasploit prints.

Some behaviours of the code are easy to misread, and the model keeps them as
written:

- The credential pattern accepts only the ASCII quotes `'` and `"`, and the
  opening and closing quotes need not match.
- The session pattern accepts exactly `session` and `Session`.
- The session gate compares against the literal `"statefull"`, with two l's.
  `Detection.StatefulSpellingKeepsSessions` proves that `"stateful"` leaves
  the sessions alone.
- The analysis fallback strips markdown fences only when the extracted
  substring fails to parse. When no `{ … }` can be extracted at all, the raw
  text becomes the interpretation unchanged.

## Model

| member | source | states |
|---|---|---|
| JsonUtils.Find | agentic/orchestrator_helpers/json_utils.py:24 | `str.find` for one character: -1 exactly when the character is absent, otherwise the index of its first occurrence |
| JsonUtils.RFind | agentic/orchestrator_helpers/json_utils.py:25 | `str.rfind` for one character: -1 when absent, otherwise the index of its last occurrence |
| JsonUtils.ExtractJson | agentic/orchestrator_helpers/json_utils.py:22-29 | Total on every string. `None` exactly when no `{` comes before a `}`. Otherwise the result starts with `{`, ends with `}`, has length at least 2, and is `text[i..j+1]` for `i` the first `{` and `j` the last `}` |
| JsonUtils.ExtractionBoundsDetermine | agentic/orchestrator_helpers/json_utils.py:24-28 | Whenever `i` is the first `{`, `j` the last `}` and `i < j`, the extraction is exactly `text[i..j+1]` |
| JsonUtils.ExtractJsonIdempotent | agentic/orchestrator_helpers/json_utils.py:22-29 | Extracting from an extraction returns it unchanged |
| JsonUtils.ExtractJsonFromWrapped | agentic/orchestrator_helpers/json_utils.py:24-28 | An object wrapped in text with no `{` before it and no `}` after it is extracted exactly |
| Json.Truthy | agentic/orchestrator_helpers/parsing.py:23-27 | Python's `not x` fails exactly on null, `False`, `0`, `0.0`, `""`, `[]` and `{}`; every other value is truthy |
| Decision.FallbackDecision | agentic/orchestrator_helpers/parsing.py:35-41 | The fallback completes the run, keeps the raw text as its thought, has an empty todo list, and asks no question and proposes no phase change |
| Decision.NormalizeDecisionData | agentic/orchestrator_helpers/parsing.py:22-28 | The keys stay the same. A present but falsy `user_question` or `phase_transition` becomes null. Truthy values and every other key are untouched |
| Decision.NormalizedNullables | agentic/orchestrator_helpers/parsing.py:22-28 | After normalisation each nullable key that is present holds null or a truthy value |
| Decision.NormalizeIdempotent | agentic/orchestrator_helpers/parsing.py:22-28 | Normalising twice is normalising once |
| Decision.ParseLlmDecision | agentic/orchestrator_helpers/parsing.py:13-41 | Total. If extraction, parsing and validation of the normalised data succeed, the validated decision is returned. If any stage fails, the fixed fallback built from the raw text is returned |
| Decision.NoJsonFallsBack | agentic/orchestrator_helpers/parsing.py:16-41 | Text with no `{` before a `}` gives the fallback: action `complete`, the raw text as thought, the fixed reasoning and completion reason, an empty todo list |
| Decision.WrappedDecisionRoundTrip | agentic/orchestrator_helpers/parsing.py:15-30 | A decision object wrapped in brace-free prose decodes to what validating its normalised data gives |
| PyInt.PyIntOf | agentic/orchestrator_helpers/parsing.py:65-68 | `int(s)` succeeds exactly on integer literals: optional surrounding whitespace, one optional sign, and digits with single underscores between them. The value is stated by `PyInt.PyIntOfLiteral` |
| PyInt.PyIntOfLiteral | agentic/orchestrator_helpers/parsing.py:66 | Whitespace, an optional `+` or `-`, digits with single underscores, and whitespace parse to the signed value of the digits |
| PyInt.PaddedLiteralExample | agentic/orchestrator_helpers/parsing.py:66 | `int(" +1_2 ") == 12` |
| PyInt.PyIntOfDigits | agentic/orchestrator_helpers/parsing.py:66 | A run of ASCII digits parses to its decimal value |
| PyInt.PyIntOfNegative | agentic/orchestrator_helpers/parsing.py:66 | A minus sign before digits negates their value |
| PyInt.PyIntRoundTrip | agentic/orchestrator_helpers/parsing.py:66 | `int(str(n)) == n` and `int("-" + str(n)) == -n` |
| Patterns.SessionNumberAt | agentic/orchestrator_helpers/parsing.py:61 | `[Ss]ession\s+(\d+)` tried at one index returns a group exactly when the pattern matches there, and then that match's group |
| Patterns.FindSessionNumber | agentic/orchestrator_helpers/parsing.py:61 | `re.search`: the first index at or after the start where the pattern matches, or none where it matches nowhere |
| Analysis.SessionIdOf | agentic/orchestrator_helpers/parsing.py:60-68 | A string stands for the digits of its leftmost `[Ss]ession\s+(\d+)` match. When there is no match it stands for `int()` of the whole string |
| Analysis.CoerceSessionItem | agentic/orchestrator_helpers/parsing.py:56-68 | Ints (bools included) are kept. A string becomes the id it stands for or is dropped. Any other value is dropped. Whatever survives is an int |
| Analysis.CoerceSessions | agentic/orchestrator_helpers/parsing.py:55-69 | The coerced list is no longer than the input and holds only ints. A one-element list maps to the coerced item, or to nothing when the item is dropped |
| Analysis.CoerceSessionsAppend | agentic/orchestrator_helpers/parsing.py:56-68 | Coercion distributes over concatenation. With the one-element case of `CoerceSessions`, this makes the list coercion the item coercion applied element by element, in order |
| Analysis.CoerceSessionsOfInts | agentic/orchestrator_helpers/parsing.py:56-58 | A list of ints comes through unchanged |
| Analysis.CoerceSessionsIdempotent | agentic/orchestrator_helpers/parsing.py:55-69 | Coercing twice is coercing once |
| Analysis.CoerceLeftmost | agentic/orchestrator_helpers/parsing.py:61-63 | A string whose leftmost session match is known coerces to that match's digits |
| Analysis.IntSessionsExample | agentic/orchestrator_helpers/parsing.py:56-58 | `[1, 2]` stays `[1, 2]` |
| Analysis.DescribedSessionExample | agentic/orchestrator_helpers/parsing.py:61-63 | `"Meterpreter session 7 opened a shell"` coerces to 7 |
| Analysis.NumericSessionExample | agentic/orchestrator_helpers/parsing.py:65-66 | `"12"` coerces to 12 |
| Analysis.UnknownSessionExample | agentic/orchestrator_helpers/parsing.py:65-68 | `"unknown"` is dropped |
| Analysis.HasSessionsKey | agentic/orchestrator_helpers/parsing.py:53 | `"sessions" in info` is a key test on an object, list membership on a list, a substring test on a string, and raises on any other value |
| Analysis.SessionItems | agentic/orchestrator_helpers/parsing.py:54-56 | Iterating `sessions` yields a list's elements and a string's one-character strings. Any other value is not iterated |
| Analysis.PreprocessSessions | agentic/orchestrator_helpers/parsing.py:53-69 | Without `extracted_info` the data passes unchanged. When `extracted_info` is an object whose `sessions` can be iterated, `sessions` becomes `CoerceSessions` of its items and every other key at both levels is kept. It raises exactly when `extracted_info` is a scalar, or holds `"sessions"` but is not an object, or its `sessions` cannot be iterated |
| Analysis.PreprocessIdempotent | agentic/orchestrator_helpers/parsing.py:53-69 | Pre-processing already processed data changes nothing |
| Analysis.ParseAnalysisResponse | agentic/orchestrator_helpers/parsing.py:44-102 | It validates exactly when every stage succeeds. With no extractable object the raw text is the interpretation and both lists are empty. With an object that fails to parse, the fence-cleaned text is the interpretation. With a parsed object, `interpretation` is copied if present (else the raw text), and each list is copied exactly when it is a list |
| Analysis.ListField | agentic/orchestrator_helpers/parsing.py:86-89 | A field that is a list is copied as it is; a missing field, or one that is not a list, gives the empty list |
| Analysis.StructuralFallback | agentic/orchestrator_helpers/parsing.py:80-89 | The structural fallback copies `interpretation` when present (else keeps the raw text), and takes each of the two lists exactly when it is a list |
| Fences.LeadingFenceEnd | agentic/orchestrator_helpers/parsing.py:93 | `^```(?:json)?\s*` ends after the fence, after `json` whenever it follows, and after the whole whitespace run. With no fence, nothing matches |
| Fences.RemoveLeadingFence | agentic/orchestrator_helpers/parsing.py:93 | Text not starting with a fence is unchanged |
| Fences.ClosingFence | agentic/orchestrator_helpers/parsing.py:94 | Finds a fence that ends where `$` holds: at the end, or just before a final newline. None exactly when there is no such fence |
| Fences.TrailingFence | agentic/orchestrator_helpers/parsing.py:94 | The leftmost match of `\s*```$`: it is a match, and no match starts earlier |
| Fences.RemoveTrailingFence | agentic/orchestrator_helpers/parsing.py:94 | Text the pattern does not match is unchanged |
| Fences.StripFences | agentic/orchestrator_helpers/parsing.py:93-95 | The cleaned text has no whitespace at either end |
| Fences.LeadingFenceRemoved | agentic/orchestrator_helpers/parsing.py:93 | An opening fence, tagged `json` or not, and the whitespace after it are removed, and nothing else |
| Fences.TrailingFenceRemoved | agentic/orchestrator_helpers/parsing.py:94 | A closing fence and the whitespace before it are removed. A final newline stays |
| Fences.FenceRoundTrip | agentic/orchestrator_helpers/parsing.py:91-95 | A fenced, unpadded body, with any inner whitespace and an optional final newline, cleans back to the body |
| Chars.Strip | agentic/orchestrator_helpers/parsing.py:95 | `str.strip()` removes whitespace runs from both ends and leaves unpadded text |
| Chars.StripPadded | agentic/orchestrator_helpers/parsing.py:95 | Whitespace around an unpadded body is exactly what `strip` removes |
| Chars.StripIdempotent | agentic/orchestrator_helpers/parsing.py:95 | Stripping twice is stripping once |
| Chars.Lower | agentic/orchestrator_helpers/detection.py:37 | Same length; each ASCII capital becomes its lower-case letter, no capital is left, and every other character is unchanged |
| Chars.Contains | agentic/orchestrator_helpers/detection.py:53 | `pat in s` for strings: true when `pat` occurs at some index, so never when `pat` is longer than `s` |
| Chars.ContainsConcat | agentic/orchestrator_helpers/detection.py:53 | A string built around `pat` contains it |
| Detection.AppendNew | agentic/orchestrator_helpers/detection.py:89-99 | Appending found items that are not yet present keeps the old list as a prefix. It appends nothing twice, includes every found item, and invents nothing |
| Detection.AppendedFromFound | agentic/orchestrator_helpers/detection.py:89-99 | Every appended item is one of the found items |
| Detection.AppendNewPresent | agentic/orchestrator_helpers/detection.py:97-99 | Items already present change nothing |
| Detection.AppendNewIdempotent | agentic/orchestrator_helpers/detection.py:97-99 | Appending the same items again changes nothing |
| Detection.AppendNewConcat | agentic/orchestrator_helpers/detection.py:89-99 | Items are taken left to right: appending `a + b` is appending `a` and then `b` |
| Detection.AppendNewSingle | agentic/orchestrator_helpers/detection.py:48-49 | One item is appended exactly when it is new |
| Patterns.SessionOpenedAt | agentic/orchestrator_helpers/detection.py:42-45 | `(?:session\|Session)\s+(\d+)\s+opened` tried at one index returns exactly the match there, if any |
| Patterns.FindSessionOpened | agentic/orchestrator_helpers/detection.py:42-45 | `re.search` for the session-opened pattern: the first matching index, or none |
| Detection.DetectSession | agentic/orchestrator_helpers/detection.py:34-57 | Empty output gives the sessions unchanged and no flag. The leftmost match's id is appended if new, and the flag is off. With no match the sessions are unchanged and the flag says whether the lower-cased output contains `sending stage` |
| Detection.LeftmostUnique | agentic/orchestrator_helpers/detection.py:42-45 | The pattern has at most one leftmost match |
| Detection.FirstOpened | agentic/orchestrator_helpers/detection.py:42-46 | The search finds the leftmost match, and finds none only where nothing matches |
| Detection.DetectSessionLeftmost | agentic/orchestrator_helpers/detection.py:46-49 | When the leftmost match is known, the result is its id appended if new |
| Detection.DetectSessionShape | agentic/orchestrator_helpers/detection.py:46-54 | At most one new id is added. A raised stage flag means no id was added |
| Detection.DetectSessionIdempotent | agentic/orchestrator_helpers/detection.py:48-49 | Detecting again on the same output with the returned sessions adds nothing |
| Patterns.CredentialAt | agentic/orchestrator_helpers/detection.py:86 | The credential pattern tried at one index returns only real matches, with the greedy password running to the last reachable quote |
| Patterns.CredentialAtComplete | agentic/orchestrator_helpers/detection.py:86 | Wherever the credential pattern matches, `CredentialAt` returns that very match |
| Patterns.FindAll | agentic/orchestrator_helpers/detection.py:87 | `re.findall` as a scan: matches come in order, do not overlap, and each lies inside the text |
| Patterns.FindAllSound | agentic/orchestrator_helpers/detection.py:87 | Every reported match is a match of the pattern at its start |
| Patterns.FindAllComplete | agentic/orchestrator_helpers/detection.py:87 | Every index where the pattern matches is the start of, or lies inside, a reported match |
| Patterns.FindAllCredentials | agentic/orchestrator_helpers/detection.py:86-87 | The credential matches come left to right, do not overlap and lie inside the output |
| Patterns.FindAllCredentialsSpec | agentic/orchestrator_helpers/detection.py:86-87 | Every reported credential match is a match. Every index where the pattern matches is reported or covered by a reported match |
| Detection.CredentialOf | agentic/orchestrator_helpers/detection.py:90-96 | The record built from a match holds its user and password groups, `host:port` as service, and `brute_force` as source |
| Detection.FoundCredentials | agentic/orchestrator_helpers/detection.py:87-96 | One record per match, in match order, each with source `brute_force` |
| Detection.DetectCredentials | agentic/orchestrator_helpers/detection.py:80-102 | Empty output returns the list unchanged. The old list is a prefix of the result. Appended records are new, come from the matches and have source `brute_force`, and every matched record ends up in the result |
| Detection.DetectCredentialsIdempotent | agentic/orchestrator_helpers/detection.py:89-99 | Detecting again on the same output with the returned list adds nothing |
| Detection.UpdateTargetWithDetections | agentic/orchestrator_helpers/detection.py:131-151 | The other fields are untouched. Sessions change only behind `statefull`+`exploitation`, and then to the detector's list. Credentials change only behind `brute_force_credential_guess`+`exploitation`, and then to the detector's list |
| Detection.UpdateClosedGates | agentic/orchestrator_helpers/detection.py:132-149 | With neither gate open the record comes back as it was |
| Detection.UpdateNoChange | agentic/orchestrator_helpers/detection.py:138-151 | When no detection changes a list, the record comes back as it was |
| Detection.UpdateIdempotent | agentic/orchestrator_helpers/detection.py:131-151 | Merging twice with the same output is merging once |
| Detection.StatefulSpellingKeepsSessions | agentic/orchestrator_helpers/detection.py:132 | The mode `"stateful"` (one l) never opens the session gate |
| DetectionExamples.SessionLineDetected | agentic/orchestrator_helpers/detection.py:42-49 | In a line with no `s`/`S` before `session N opened`, N is detected and appended if new, and the flag is off |
| DetectionExamples.OpenedLineDetected | agentic/orchestrator_helpers/detection.py:42-49 | `[*] Meterpreter session 3 opened (…)` with no sessions known gives `[3]` and no flag |
| DetectionExamples.StageLineDetected | agentic/orchestrator_helpers/detection.py:52-54 | `[*] Sending stage (175174 bytes) to 10.0.0.5` leaves the sessions and raises the flag |
| DetectionExamples.SuccessLineHits | agentic/orchestrator_helpers/detection.py:85-87 | The scan over a success line finds exactly its one match |
| DetectionExamples.SuccessLineDetected | agentic/orchestrator_helpers/detection.py:85-99 | A success line yields exactly its own credential, with service `host:port` |
| DetectionExamples.RootLineDetected | agentic/orchestrator_helpers/detection.py:85 | `[+] 10.0.0.5:22 - Success: 'root:toor'` yields root/toor on `10.0.0.5:22` |
| DetectionExamples.CredentialShapeExtends | agentic/orchestrator_helpers/detection.py:86 | A match that runs to the end of the text stays a match when whitespace and more text follow |
| DetectionExamples.SuccessLineThenMore | agentic/orchestrator_helpers/detection.py:86-99 | A success line followed by whitespace and anything else still yields its credential |
| DetectionExamples.MergeGatesExample | agentic/orchestrator_helpers/detection.py:131-149 | With `stateless` post-exploitation in a brute-force exploitation step, the credential of a leading success line is merged. The sessions stay as they were, whatever follows, a `session N opened` line included |

## Left out

- Logging, and the `user_id` / `project_id` / `session_id` arguments that only feed it.
- `DateTimeEncoder` and `json_dumps_safe`: thin wrappers over the `json` library and `datetime.isoformat`.
- `debug.py`: graph rendering and PNG file output.
- The prompt constants.
- The package `__init__.py`: it only re-exports. The `phase` and `config` modules are not part of this model.
- `json.loads`, `LLMDecision.model_validate` and `OutputAnalysis.model_validate`. They are uninterpreted function parameters, because the schemas live in `state.py`, which is not part of this model.
- Decision.ParseLlmDecision: the validated decision's nested `user_question` / `phase_transition` records are kept as JSON values, because their schemas are not part of this model.
- Floats: `JFloat` is a real, so NaN and the infinities that `json.loads` accepts are not modelled.
- Object key order: JSON objects are maps.
- Analysis.SessionItems: iterating a `sessions` object (Python yields its keys) is treated as a failure, because a map has no key order.
- Analysis.ParseAnalysisResponse: the fallback constructor is assumed not to raise when `interpretation` is not a string, or when `actionable_findings` or `recommended_next_steps` is a list holding non-strings. That constructor runs outside any `try`, and whether it raises depends on the schema, which is not part of this model.
- Patterns.SessionNumberAt, Patterns.SessionOpenedAt and Patterns.CredentialAt: `\d` and `\w` are ASCII only. Python's `str` patterns also accept other Unicode digits and letters.
- Analysis.SessionIdOf: the digits of a session match are converted without Python's 4300-digit limit. At parsing.py line 63 that conversion is outside the inner `try`, so over the limit the source raises and takes the structural fallback, where the model returns the number.
- Detection.DetectSession: the matched id is converted without Python's 4300-digit limit. Over the limit the source raises out of `detect_session_from_output`, and so out of `update_target_with_detections`, where the model returns the number.
- PyInt.PyIntOf: only ASCII digits. Python's `int()` also accepts other Unicode decimal digits, and refuses strings of more than 4300 digits.
- Chars.Lower: ASCII letters only. This decides no `sending stage` test: no non-ASCII character lower-cases into that phrase.
- Detection.DetectCredentials: the current credentials are four-field records. In the source they are arbitrary dictionaries, compared by full equality.
- Detection.UpdateTargetWithDetections: `TargetInfo` holds only the sessions, the credentials and an opaque map of everything else. Returning the same object, rather than an equal copy, is not observable in a value model.
