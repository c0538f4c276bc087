/** `extract_json`: the first-`{`-to-last-`}` heuristic that cuts a JSON
    object candidate out of a language model's reply. It does not balance
    braces; downstream parsing may still reject what it returns. */
module JsonUtils {

  import opened Wrappers

  /** Python's `str.find` for one character: first index, or -1 */
  function Find(s: string, c: char): (r: int)
    ensures -1 <= r < |s|
    ensures r >= 0 ==> s[r] == c
    ensures forall k | 0 <= k < |s| && (r < 0 || k < r) :: s[k] != c
  {
    if |s| == 0 then -1
    else if s[0] == c then 0
    else
      var k := Find(s[1..], c);
      if k < 0 then -1 else k + 1
  }

  /** Python's `str.rfind` for one character: last index, or -1 */
  function RFind(s: string, c: char): (r: int)
    ensures -1 <= r < |s|
    ensures r >= 0 ==> s[r] == c
    ensures forall k | r < k < |s| :: s[k] != c
  {
    if |s| == 0 then -1
    else if s[|s| - 1] == c then |s| - 1
    else RFind(s[..|s| - 1], c)
  }

  /** Some `{` comes before some `}` */
  predicate HasBracePair(text: string) {
    exists i, j | 0 <= i < j < |text| :: text[i] == '{' && text[j] == '}'
  }

  /** `i` is the first `{` and `j` the last `}` of `text`, with `i < j` */
  predicate ExtractionBounds(text: string, i: nat, j: nat) {
    && i < j < |text|
    && text[i] == '{' && text[j] == '}'
    && (forall k | 0 <= k < i :: text[k] != '{')
    && (forall k | j < k < |text| :: text[k] != '}')
  }

  /** json_utils.py `extract_json`. Total on every string, the empty one
      included. */
  function ExtractJson(text: string): (r: Option<string>)
    ensures r.None? <==> !HasBracePair(text)
    ensures r.Some? ==> |r.value| >= 2 && r.value[0] == '{' && r.value[|r.value| - 1] == '}'
    ensures r.Some? ==> exists i: nat, j: nat | ExtractionBounds(text, i, j) :: r.value == text[i..j + 1]
  {
    var jsonStart := Find(text, '{');
    var jsonEnd := RFind(text, '}') + 1;
    if jsonStart >= 0 && jsonEnd > jsonStart then
      assert ExtractionBounds(text, jsonStart, jsonEnd - 1);
      Some(text[jsonStart..jsonEnd])
    else
      None
  }

  /** Extracting from an extraction gives it back unchanged. */
  lemma ExtractJsonIdempotent(text: string)
    requires ExtractJson(text).Some?
    ensures ExtractJson(ExtractJson(text).value) == ExtractJson(text)
  {
    var s := ExtractJson(text).value;
    var i: nat, j: nat :| ExtractionBounds(text, i, j) && s == text[i..j + 1];
    assert ExtractionBounds(s, 0, |s| - 1);
    ExtractionBoundsDetermine(s, 0, |s| - 1);
    assert s[0..|s|] == s;
  }

  /** The bounds predicate pins the extraction down completely. */
  lemma ExtractionBoundsDetermine(text: string, i: nat, j: nat)
    requires ExtractionBounds(text, i, j)
    ensures ExtractJson(text) == Some(text[i..j + 1])
  {
    var s := ExtractJson(text).value;
    var i': nat, j': nat :| ExtractionBounds(text, i', j') && s == text[i'..j' + 1];
    assert i' == i && j' == j;
  }

  /** A JSON object wrapped in prose with no `{` before it and no `}` after
      it (a markdown fence, say) is extracted exactly. */
  lemma ExtractJsonFromWrapped(before: string, obj: string, after: string)
    requires |obj| >= 2 && obj[0] == '{' && obj[|obj| - 1] == '}'
    requires forall k | 0 <= k < |before| :: before[k] != '{'
    requires forall k | 0 <= k < |after| :: after[k] != '}'
    ensures ExtractJson(before + obj + after) == Some(obj)
  {
    var text := before + obj + after;
    var i, j := |before|, |before| + |obj| - 1;
    assert text[i] == obj[0] && text[j] == obj[|obj| - 1];
    assert forall k | 0 <= k < i :: text[k] == before[k];
    assert forall k | j < k < |text| :: text[k] == after[k - |before| - |obj|];
    ExtractionBoundsDetermine(text, i, j);
    assert text[i..j + 1] == obj;
  }
}
