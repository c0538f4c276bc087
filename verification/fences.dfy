/** The text-cleanup fallback of the analysis parser: the two `re.sub`
    calls that peel a markdown code fence off a response, followed by
    `str.strip()`. */
module Fences {
  import opened Wrappers
  import opened Chars

  const Fence: string := "```"
  const JsonFence: string := "```json"

  // ---------------------------------------------------------------------
  // re.sub(r'^```(?:json)?\s*', '', s)

  /** Where the leading fence match ends, 0 when there is none. The
      optional `json` is greedy, so it is taken whenever it is there, and
      `\s*` then swallows the whole run of whitespace after it. */
  function LeadingFenceEnd(s: string): (e: nat)
    ensures e <= |s|
    ensures !OccursAt(s, Fence, 0) ==> e == 0
    ensures OccursAt(s, Fence, 0) ==> 3 <= e
    ensures OccursAt(s, JsonFence, 0) ==> 7 <= e && AllIn(s, 7, e, IsSpace)
    ensures OccursAt(s, Fence, 0) && !OccursAt(s, JsonFence, 0) ==> AllIn(s, 3, e, IsSpace)
    ensures OccursAt(s, Fence, 0) ==> e == |s| || !IsSpace(s[e])
  {
    if OccursAt(s, JsonFence, 0) then SpanEnd(s, 7, IsSpace)
    else if OccursAt(s, Fence, 0) then SpanEnd(s, 3, IsSpace)
    else 0
  }

  function RemoveLeadingFence(s: string): (r: string)
    ensures !OccursAt(s, Fence, 0) ==> r == s
  {
    s[LeadingFenceEnd(s)..]
  }

  // ---------------------------------------------------------------------
  // re.sub(r'\s*```$', '', s)

  /** Without MULTILINE, `$` matches at the end of the text and just before
      a final newline. */
  predicate EndAnchor(s: string, k: nat) {
    k == |s| || (k + 1 == |s| && s[k] == '\n')
  }

  /** The trailing pattern matches `s[i..p + 3]`: whitespace from `i` up to
      a fence at `p`, which ends where `$` holds. */
  predicate TrailingFenceMatch(s: string, i: nat, p: nat) {
    i <= p && OccursAt(s, Fence, p) && AllIn(s, i, p, IsSpace) && EndAnchor(s, p + 3)
  }

  /** Where the fence closing the text starts, if there is one */
  function ClosingFence(s: string): (r: Option<nat>)
    ensures r.Some? ==> r.value + 3 <= |s| && OccursAt(s, Fence, r.value) && EndAnchor(s, r.value + 3)
    ensures r.None? ==> forall p: nat :: !(OccursAt(s, Fence, p) && EndAnchor(s, p + 3))
  {
    if |s| >= 3 && OccursAt(s, Fence, |s| - 3) then Some(|s| - 3)
    else if |s| >= 4 && s[|s| - 1] == '\n' && OccursAt(s, Fence, |s| - 4) then Some(|s| - 4)
    else None
  }

  /** The leftmost match of the trailing pattern: `re.sub` scans from the
      left, so it starts at the beginning of the whitespace run before the
      closing fence. */
  function TrailingFence(s: string): (r: Option<(nat, nat)>)
    ensures r.Some? ==> TrailingFenceMatch(s, r.value.0, r.value.1)
    ensures r.Some? ==> forall i: nat, p: nat | TrailingFenceMatch(s, i, p) :: r.value.0 <= i && r.value.1 == p
    ensures r.None? ==> forall i: nat, p: nat :: !TrailingFenceMatch(s, i, p)
  {
    match ClosingFence(s)
    case None => None
    case Some(p) =>
      match LastIndexIn(s, 0, p, c => !IsSpace(c))
      case Some(q) => Some((q + 1, p))
      case None => Some((0, p))
  }

  function RemoveTrailingFence(s: string): (r: string)
    ensures TrailingFence(s).None? ==> r == s
  {
    match TrailingFence(s)
    case None => s
    case Some((i, p)) => s[..i] + s[p + 3..]
  }

  // ---------------------------------------------------------------------
  // The whole cleanup

  /** parsing.py's cleanup of a response whose JSON would not parse */
  function StripFences(s: string): (r: string)
    ensures |r| == 0 || (!IsSpace(r[0]) && !IsSpace(r[|r| - 1]))
  {
    Strip(RemoveTrailingFence(RemoveLeadingFence(s)))
  }

  // ---------------------------------------------------------------------
  // Round trip

  /** The whitespace-only strings */
  predicate IsBlank(w: string) {
    AllIn(w, 0, |w|, IsSpace)
  }

  /** Text with no whitespace at either end */
  predicate Unpadded(body: string) {
    |body| > 0 && !IsSpace(body[0]) && !IsSpace(body[|body| - 1])
  }

  /** An opening fence, tagged `json` or untagged, and the whitespace after
      it are removed, and nothing more. Untagged, the text must not go on
      with `json` right away, since the optional tag would take it. */
  lemma LeadingFenceRemoved(tag: string, ws: string, rest: string)
    requires tag == "json" || (tag == "" && !OccursAt(ws + rest, "json", 0))
    requires IsBlank(ws) && |rest| > 0 && !IsSpace(rest[0])
    ensures RemoveLeadingFence(Fence + tag + ws + rest) == rest
  {
    var s := Fence + tag + ws + rest;
    var b := 3 + |tag|;
    var e := b + |ws|;
    assert s[e] == rest[0];
    assert AllIn(s, b, e, IsSpace) by {
      forall k | b <= k < e ensures IsSpace(s[k]) { assert s[k] == ws[k - b]; }
    }
    assert OccursAt(s, Fence, 0) by { assert s[..3] == Fence; }
    if tag == "json" {
      assert OccursAt(s, JsonFence, 0) by { assert s[..7] == JsonFence; }
    } else {
      assert s[3..] == ws + rest;
      assert !OccursAt(s, JsonFence, 0);
    }
    SpanEndUnique(s, b, e, IsSpace);
    assert s[e..] == rest;
  }

  /** A closing fence, possibly followed by one newline, is removed with
      the whitespace before it; the newline stays. */
  lemma TrailingFenceRemoved(pre: string, ws: string, nl: string)
    requires |pre| > 0 && !IsSpace(pre[|pre| - 1]) && IsBlank(ws)
    requires nl == "" || nl == "\n"
    ensures RemoveTrailingFence(pre + ws + Fence + nl) == pre + nl
  {
    var s := pre + ws + Fence + nl;
    var p := |pre| + |ws|;
    assert s[p..p + 3] == Fence;
    if nl == "" {
      assert ClosingFence(s) == Some(p);
    } else {
      assert s[|s| - 3..] != Fence by { assert s[|s| - 1] == '\n'; }
      assert ClosingFence(s) == Some(p);
    }
    assert AllIn(s, |pre|, p, IsSpace) by {
      forall k | |pre| <= k < p ensures IsSpace(s[k]) { assert s[k] == ws[k - |pre|]; }
    }
    assert TrailingFenceMatch(s, |pre|, p);
    var r := TrailingFence(s);
    assert s[|pre| - 1] == pre[|pre| - 1];
    assert !IsSpace(s[|pre| - 1]);
    assert r.value.0 == |pre|;
    assert s[..|pre|] == pre && s[p + 3..] == nl;
  }

  /** Wrapping an unpadded body in a fence, with any whitespace inside it
      and an optional final newline, and then cleaning it up gives back
      the body. */
  lemma FenceRoundTrip(tag: string, ws1: string, body: string, ws2: string, nl: string)
    requires tag == "json" || (tag == "" && !OccursAt(ws1 + body, "json", 0))
    requires IsBlank(ws1) && IsBlank(ws2) && Unpadded(body)
    requires nl == "" || nl == "\n"
    ensures StripFences(Fence + tag + ws1 + body + ws2 + Fence + nl) == body
  {
    var rest := body + ws2 + Fence + nl;
    assert Fence + tag + ws1 + body + ws2 + Fence + nl == Fence + tag + ws1 + rest;
    assert (ws1 + rest)[..|ws1| + |body|] == ws1 + body;
    if tag == "" {
      var t := ws1 + rest;
      if |ws1| > 0 {
        assert t[0] == ws1[0] && IsSpace(t[0]);
      } else if |body| >= 4 {
        assert t[..4] == body[..4] == (ws1 + body)[..4];
      } else {
        assert t[|body|] == (ws2 + Fence + nl)[0];
        assert t[|body|] == '`' || IsSpace(t[|body|]);
      }
      assert !OccursAt(t, "json", 0);
    }
    LeadingFenceRemoved(tag, ws1, rest);
    TrailingFenceRemoved(body, ws2, nl);
    StripPadded("", body, nl);
    assert "" + body + nl == body + nl;
  }
}
