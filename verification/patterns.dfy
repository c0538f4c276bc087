/** The three regular expressions of the core, each as a deterministic
    scanner anchored at one index plus a declarative "shape" predicate that
    reads the pattern as a decomposition of the text. Every scanner returns
    exactly the decomposition its shape describes, so a search that tries the
    indices left to right finds Python's leftmost match.

    - `[Ss]ession\s+(\d+)`                (session ids inside analysis JSON)
    - `(?:session|Session)\s+(\d+)\s+opened`      (session detection)
    - `\[\+\]\s+(\S+):(\d+)\s+-\s+Success:\s+['"](\w+):(\S+)['"]`
                                                  (credential detection)

    The character classes are those of the Chars module; `\d` and `\w` are
    ASCII only. */
module Patterns {

  import opened Wrappers
  import opened Chars

  /** Index range `[lo, hi)` of a captured group */
  datatype Span = Span(lo: nat, hi: nat)

  function Slice(s: string, g: Span): string
    requires g.lo <= g.hi <= |s|
  {
    s[g.lo..g.hi]
  }

  /** `[Ss]ession`, which is also `(?:session|Session)`: only these two
      casings */
  predicate KeywordAt(s: string, i: nat) {
    OccursAt(s, "session", i) || OccursAt(s, "Session", i)
  }

  /** Every keyword match begins with `s` or `S`. */
  lemma KeywordInitial(s: string, i: nat)
    requires KeywordAt(s, i)
    ensures s[i] == 's' || s[i] == 'S'
  {
    assert s[i..i + 7][0] == s[i];
  }

  // ---------------------------------------------------------------------
  // [Ss]ession\s+(\d+)

  /** `[Ss]ession\s+(\d+)` matches at `i` with group `g`. `\s+` ends where
      the digits begin; the greedy `\d+` takes the whole digit run. */
  ghost predicate SessionNumberShape(s: string, i: nat, g: Span) {
    && KeywordAt(s, i)
    && i + 7 < g.lo < g.hi <= |s|
    && AllIn(s, i + 7, g.lo, IsSpace)
    && AllIn(s, g.lo, g.hi, IsDigit)
    && (g.hi == |s| || !IsDigit(s[g.hi]))
  }

  function SessionNumberAt(s: string, i: nat): (r: Option<Span>)
    requires i <= |s|
    ensures r.Some? ==> SessionNumberShape(s, i, r.value)
    ensures forall g | SessionNumberShape(s, i, g) :: r == Some(g)
  {
    if !KeywordAt(s, i) then None
    else
      var b := SpanEnd(s, i + 7, IsSpace);
      var c := SpanEnd(s, b, IsDigit);
      assert forall g | SessionNumberShape(s, i, g) :: g == Span(b, c) by {
        forall g | SessionNumberShape(s, i, g) ensures g == Span(b, c) {
          SpanEndUnique(s, i + 7, g.lo, IsSpace);
          SpanEndUnique(s, g.lo, g.hi, IsDigit);
        }
      }
      if b == i + 7 || c == b then None else Some(Span(b, c))
  }

  /** `re.search`: the leftmost index at or after `from` where the pattern
      matches, with its group */
  function FindSessionNumber(s: string, from: nat): (r: Option<(nat, Span)>)
    requires from <= |s|
    ensures r.Some? ==> from <= r.value.0 <= |s| && SessionNumberAt(s, r.value.0) == Some(r.value.1)
    ensures r.Some? ==> forall k | from <= k < r.value.0 :: SessionNumberAt(s, k).None?
    ensures r.None? ==> forall k | from <= k <= |s| :: SessionNumberAt(s, k).None?
    decreases |s| - from
  {
    match SessionNumberAt(s, from)
    case Some(g) => Some((from, g))
    case None => if from == |s| then None else FindSessionNumber(s, from + 1)
  }

  // ---------------------------------------------------------------------
  // (?:session|Session)\s+(\d+)\s+opened

  /** A match of the session-opened pattern: the id group and the index
      where `opened` starts */
  datatype OpenedHit = OpenedHit(group: Span, word: nat)

  ghost predicate SessionOpenedShape(s: string, i: nat, h: OpenedHit) {
    && KeywordAt(s, i)
    && i + 7 < h.group.lo < h.group.hi < h.word
    && OccursAt(s, "opened", h.word)
    && AllIn(s, i + 7, h.group.lo, IsSpace)
    && AllIn(s, h.group.lo, h.group.hi, IsDigit)
    && AllIn(s, h.group.hi, h.word, IsSpace)
  }

  /** A session-opened match is a session-number match followed by the
      whole whitespace run after the digits. */
  lemma OpenedDetermined(s: string, i: nat, h: OpenedHit)
    requires SessionOpenedShape(s, i, h)
    ensures SessionNumberShape(s, i, h.group)
    ensures SpanEnd(s, h.group.hi, IsSpace) == h.word
  {
    assert s[h.word..h.word + 6][0] == s[h.word];
    SpanEndUnique(s, h.group.hi, h.word, IsSpace);
  }

  function SessionOpenedAt(s: string, i: nat): (r: Option<OpenedHit>)
    requires i <= |s|
    ensures r.Some? ==> SessionOpenedShape(s, i, r.value)
    ensures forall h | SessionOpenedShape(s, i, h) :: r == Some(h)
  {
    var g := SessionNumberAt(s, i);
    forall h | SessionOpenedShape(s, i, h)
      ensures g == Some(h.group) && SpanEnd(s, h.group.hi, IsSpace) == h.word
    {
      OpenedDetermined(s, i, h);
    }
    match g
    case None => None
    case Some(g) =>
      var d := SpanEnd(s, g.hi, IsSpace);
      if d == g.hi || !OccursAt(s, "opened", d) then None
      else Some(OpenedHit(g, d))
  }

  function FindSessionOpened(s: string, from: nat): (r: Option<(nat, OpenedHit)>)
    requires from <= |s|
    ensures r.Some? ==> from <= r.value.0 <= |s| && SessionOpenedAt(s, r.value.0) == Some(r.value.1)
    ensures r.Some? ==> forall k | from <= k < r.value.0 :: SessionOpenedAt(s, k).None?
    ensures r.None? ==> forall k | from <= k <= |s| :: SessionOpenedAt(s, k).None?
    decreases |s| - from
  {
    match SessionOpenedAt(s, from)
    case Some(h) => Some((from, h))
    case None => if from == |s| then None else FindSessionOpened(s, from + 1)
  }

  // ---------------------------------------------------------------------
  // \[\+\]\s+(\S+):(\d+)\s+-\s+Success:\s+['"](\w+):(\S+)['"]

  /** A match of the credential pattern: its four groups (host, port,
      username, password), the index of `-` and the index where `Success:`
      starts. The opening quote sits just before `user`, the closing quote
      at `pass.hi`. */
  datatype CredHit = CredHit(host: Span, port: Span, dash: nat, success: nat, user: Span, pass: Span)

  /** Index just past the closing quote */
  function MatchEnd(m: CredHit): nat {
    m.pass.hi + 1
  }

  predicate IsColon(c: char) {
    c == ':'
  }

  /** `\s+(\S+):(\d+)` from `a`, followed by whitespace. The host run may
      itself hold colons; the port is the digit run after the last one, up to
      the end of the non-space token. */
  ghost predicate EndpointShape(s: string, a: nat, host: Span, port: Span) {
    && a < host.lo < host.hi
    && port.lo == host.hi + 1 && port.lo < port.hi < |s|
    && AllIn(s, a, host.lo, IsSpace)
    && AllIn(s, host.lo, host.hi, IsNonSpace)
    && s[host.hi] == ':'
    && AllIn(s, port.lo, port.hi, IsDigit)
    && IsSpace(s[port.hi])
  }

  /** An endpoint match is pinned down by the runs that start at `a`. */
  lemma EndpointDetermined(s: string, a: nat, host: Span, port: Span)
    requires EndpointShape(s, a, host, port)
    ensures SpanEnd(s, a, IsSpace) == host.lo
    ensures SpanEnd(s, host.lo, IsNonSpace) == port.hi
    ensures LastIndexIn(s, host.lo, port.hi, IsColon) == Some(host.hi)
  {
    SpanEndUnique(s, a, host.lo, IsSpace);
    assert AllIn(s, host.lo, port.hi, IsNonSpace) by {
      forall k | host.lo <= k < port.hi ensures IsNonSpace(s[k]) {
        if k > host.hi { assert IsDigit(s[k]); }
      }
    }
    SpanEndUnique(s, host.lo, port.hi, IsNonSpace);
    assert IsColon(s[host.hi]);
  }

  function EndpointAt(s: string, a: nat): (r: Option<(Span, Span)>)
    requires a <= |s|
    ensures r.Some? ==> EndpointShape(s, a, r.value.0, r.value.1)
    ensures forall host, port | EndpointShape(s, a, host, port) :: r == Some((host, port))
  {
    var h := SpanEnd(s, a, IsSpace);
    var q := SpanEnd(s, h, IsNonSpace);
    var colon := LastIndexIn(s, h, q, IsColon);
    forall host, port | EndpointShape(s, a, host, port)
      ensures h == host.lo && q == port.hi && colon == Some(host.hi)
    {
      EndpointDetermined(s, a, host, port);
    }
    match colon
    case None => None
    case Some(p) =>
      if h == a || p == h || p + 1 == q || q == |s| || !AllIn(s, p + 1, q, IsDigit) then None
      else Some((Span(h, p), Span(p + 1, q)))
  }

  /** `\s+-\s+Success:\s+['"]` from `q`: the index of `-`, where `Success:`
      starts, and the index of the opening quote */
  ghost predicate SeparatorShape(s: string, q: nat, dash: nat, success: nat, quote: nat) {
    && q < dash && dash + 1 < success && success + 8 < quote < |s|
    && AllIn(s, q, dash, IsSpace)
    && s[dash] == '-'
    && AllIn(s, dash + 1, success, IsSpace)
    && OccursAt(s, "Success:", success)
    && AllIn(s, success + 8, quote, IsSpace)
    && IsQuote(s[quote])
  }

  /** A separator match is pinned down by the runs that start at `q`. */
  lemma SeparatorDetermined(s: string, q: nat, dash: nat, success: nat, quote: nat)
    requires SeparatorShape(s, q, dash, success, quote)
    ensures SpanEnd(s, q, IsSpace) == dash
    ensures SpanEnd(s, dash + 1, IsSpace) == success
    ensures SpanEnd(s, success + 8, IsSpace) == quote
  {
    SpanEndUnique(s, q, dash, IsSpace);
    assert s[success..success + 8][0] == s[success];
    SpanEndUnique(s, dash + 1, success, IsSpace);
    SpanEndUnique(s, success + 8, quote, IsSpace);
  }

  function SeparatorAt(s: string, q: nat): (r: Option<(nat, nat, nat)>)
    requires q <= |s|
    ensures r.Some? ==> SeparatorShape(s, q, r.value.0, r.value.1, r.value.2)
    ensures forall dash: nat, success: nat, quote: nat | SeparatorShape(s, q, dash, success, quote) ::
      r == Some((dash, success, quote))
  {
    var dash := SpanEnd(s, q, IsSpace);
    forall d: nat, t: nat, u: nat | SeparatorShape(s, q, d, t, u)
      ensures d == dash && q < dash < |s| && s[dash] == '-'
      ensures t == SpanEnd(s, dash + 1, IsSpace) && u == SpanEnd(s, t + 8, IsSpace)
    {
      SeparatorDetermined(s, q, d, t, u);
    }
    if dash == q || dash == |s| || s[dash] != '-' then None
    else
      var t := SpanEnd(s, dash + 1, IsSpace);
      if t == dash + 1 || !OccursAt(s, "Success:", t) then None
      else
        var u := SpanEnd(s, t + 8, IsSpace);
        if u == t + 8 || u == |s| || !IsQuote(s[u]) then None
        else Some((dash, t, u))
  }

  /** `(\w+):(\S+)['"]` from `b`: the username run, a colon, and the greedy
      password, which runs up to the LAST quote it can reach through
      non-space characters. The closing quote need not match the opening
      one. */
  ghost predicate SecretShape(s: string, b: nat, user: Span, pass: Span) {
    && user.lo == b < user.hi
    && pass.lo == user.hi + 1 && pass.lo < pass.hi < |s|
    && AllIn(s, user.lo, user.hi, IsWord)
    && s[user.hi] == ':'
    && AllIn(s, pass.lo, pass.hi, IsNonSpace)
    && IsQuote(s[pass.hi])
    && (forall k {:trigger AllIn(s, pass.lo, k, IsNonSpace)} | pass.hi < k < |s| && AllIn(s, pass.lo, k, IsNonSpace) :: !IsQuote(s[k]))
  }

  /** A secret match is pinned down by the runs that start at `b`. */
  lemma SecretDetermined(s: string, b: nat, user: Span, pass: Span)
    requires SecretShape(s, b, user, pass)
    ensures SpanEnd(s, b, IsWord) == user.hi
    ensures pass.hi < SpanEnd(s, user.hi + 1, IsNonSpace)
    ensures LastIndexIn(s, user.hi + 2, SpanEnd(s, user.hi + 1, IsNonSpace), IsQuote) == Some(pass.hi)
  {
    SpanEndUnique(s, b, user.hi, IsWord);
    var e := SpanEnd(s, user.hi + 1, IsNonSpace);
    assert pass.hi < e;
    var w := LastIndexIn(s, user.hi + 2, e, IsQuote);
    if w.Some? && w.value > pass.hi {
      assert AllIn(s, pass.lo, w.value, IsNonSpace);
    }
  }

  /** The runs the scanner finds from `b` form a secret match. */
  lemma SecretFound(s: string, b: nat, v: nat, e: nat, w: nat)
    requires b < v < |s| && s[v] == ':' && v + 2 <= e
    requires v == SpanEnd(s, b, IsWord) && e == SpanEnd(s, v + 1, IsNonSpace)
    requires LastIndexIn(s, v + 2, e, IsQuote) == Some(w)
    ensures SecretShape(s, b, Span(b, v), Span(v + 1, w))
  {
    forall k | w < k < |s| && AllIn(s, v + 1, k, IsNonSpace) ensures !IsQuote(s[k]) {
      if k >= e {
        assert !IsNonSpace(s[e]);
      }
    }
  }

  function SecretAt(s: string, b: nat): (r: Option<(Span, Span)>)
    requires b <= |s|
    ensures r.Some? ==> SecretShape(s, b, r.value.0, r.value.1)
    ensures forall user, pass | SecretShape(s, b, user, pass) :: r == Some((user, pass))
  {
    var v := SpanEnd(s, b, IsWord);
    forall user, pass | SecretShape(s, b, user, pass)
      ensures b < v < |s| && s[v] == ':' && user == Span(b, v) && v + 2 <= SpanEnd(s, v + 1, IsNonSpace)
      ensures LastIndexIn(s, v + 2, SpanEnd(s, v + 1, IsNonSpace), IsQuote) == Some(pass.hi)
      ensures pass == Span(v + 1, pass.hi)
    {
      SecretDetermined(s, b, user, pass);
    }
    if v == b || v == |s| || s[v] != ':' then None
    else
      var e := SpanEnd(s, v + 1, IsNonSpace);
      if e < v + 2 then None
      else
        match LastIndexIn(s, v + 2, e, IsQuote)
        case None => None
        case Some(w) =>
          SecretFound(s, b, v, e, w);
          Some((Span(b, v), Span(v + 1, w)))
  }

  /** The whole credential pattern matches at `i` as `m` describes */
  ghost predicate CredentialShape(s: string, i: nat, m: CredHit) {
    && OccursAt(s, "[+]", i)
    && EndpointShape(s, i + 3, m.host, m.port)
    && m.user.lo >= 1
    && SeparatorShape(s, m.port.hi, m.dash, m.success, m.user.lo - 1)
    && SecretShape(s, m.user.lo, m.user, m.pass)
  }

  /** The credential pattern tried at index `i` */
  function CredentialAt(s: string, i: nat): (r: Option<CredHit>)
    requires i <= |s|
    ensures r.Some? ==> CredentialShape(s, i, r.value)
  {
    if !OccursAt(s, "[+]", i) then None
    else
      match EndpointAt(s, i + 3)
      case None => None
      case Some((host, port)) =>
        match SeparatorAt(s, port.hi)
        case None => None
        case Some((dash, success, quote)) =>
          match SecretAt(s, quote + 1)
          case None => None
          case Some((user, pass)) => Some(CredHit(host, port, dash, success, user, pass))
  }

  /** The scanner misses no match: whenever the pattern matches at `i`,
      `CredentialAt` returns that match (which is therefore unique). */
  lemma CredentialAtComplete(s: string, i: nat, m: CredHit)
    requires i <= |s|
    requires CredentialShape(s, i, m)
    ensures CredentialAt(s, i) == Some(m)
  {
    SegmentsOfShape(s, i, m);
    SegmentsCompose(s, i, m);
  }

  lemma SegmentsOfShape(s: string, i: nat, m: CredHit)
    requires i <= |s|
    requires CredentialShape(s, i, m)
    ensures OccursAt(s, "[+]", i) && m.user.lo >= 1 && m.port.hi <= |s| && m.user.lo <= |s|
    ensures EndpointAt(s, i + 3) == Some((m.host, m.port))
    ensures SeparatorAt(s, m.port.hi) == Some((m.dash, m.success, m.user.lo - 1))
    ensures SecretAt(s, m.user.lo) == Some((m.user, m.pass))
  {
    assert EndpointShape(s, i + 3, m.host, m.port);
    assert SeparatorShape(s, m.port.hi, m.dash, m.success, m.user.lo - 1);
    assert SecretShape(s, m.user.lo, m.user, m.pass);
  }

  lemma SegmentsCompose(s: string, i: nat, m: CredHit)
    requires i <= |s| && OccursAt(s, "[+]", i) && m.user.lo >= 1 && m.port.hi <= |s| && m.user.lo <= |s|
    requires EndpointAt(s, i + 3) == Some((m.host, m.port))
    requires SeparatorAt(s, m.port.hi) == Some((m.dash, m.success, m.user.lo - 1))
    requires SecretAt(s, m.user.lo) == Some((m.user, m.pass))
    ensures CredentialAt(s, i) == Some(m)
  {
  }

  // ---------------------------------------------------------------------
  // re.findall

  /** `re.findall` driven by an anchored matcher: `at(i)` is the match that
      starts at index `i`, if any, and `end` says where a match stops. The
      scan tries indices left to right and resumes just past each match, so
      matches never overlap. */
  function FindAll<T>(n: nat, from: nat, at: nat -> Option<T>, end: T -> nat): (r: seq<(nat, T)>)
    requires from <= n
    requires forall i | from <= i <= n && at(i).Some? :: i < end(at(i).value) <= n
    ensures forall k | 0 <= k < |r| :: from <= r[k].0 < end(r[k].1) <= n
    ensures forall k, l | 0 <= k < l < |r| :: end(r[k].1) <= r[l].0
    decreases n - from
  {
    if from == n then []
    else
      match at(from)
      case Some(m) =>
        var rest := FindAll(n, end(m), at, end);
        var r := [(from, m)] + rest;
        assert forall k | 0 < k < |r| :: r[k] == rest[k - 1];
        r
      case None => FindAll(n, from + 1, at, end)
  }

  /** Every entry of `r` is what the matcher returns at its start. */
  ghost predicate AllMatches<T>(r: seq<(nat, T)>, at: nat -> Option<T>) {
    forall k | 0 <= k < |r| :: at(r[k].0) == Some(r[k].1)
  }

  /** Some entry of `r` starts at or before `j` and ends after it. */
  ghost predicate Covers<T>(r: seq<(nat, T)>, end: T -> nat, j: nat) {
    exists k: nat | k < |r| :: r[k].0 <= j < end(r[k].1)
  }

  /** Every reported match is what the matcher returns at its start. */
  lemma {:induction false} FindAllSound<T>(n: nat, from: nat, at: nat -> Option<T>, end: T -> nat)
    requires from <= n
    requires forall i | from <= i <= n && at(i).Some? :: i < end(at(i).value) <= n
    ensures AllMatches(FindAll(n, from, at, end), at)
    decreases n - from
  {
    if from < n {
      match at(from)
      case Some(m) =>
        FindAllSound(n, end(m), at, end);
        var rest := FindAll(n, end(m), at, end);
        var r := FindAll(n, from, at, end);
        assert r == [(from, m)] + rest;
        forall k | 0 <= k < |r| ensures at(r[k].0) == Some(r[k].1) {
          if k > 0 {
            assert r[k] == rest[k - 1];
          }
        }
      case None =>
        FindAllSound(n, from + 1, at, end);
    }
  }

  /** Nothing is skipped: every index from `from` on where the matcher
      succeeds is the start of a reported match or lies inside one. */
  lemma {:induction false} FindAllComplete<T>(n: nat, from: nat, at: nat -> Option<T>, end: T -> nat, j: nat)
    requires from <= j < n
    requires forall i | from <= i <= n && at(i).Some? :: i < end(at(i).value) <= n
    requires at(j).Some?
    ensures Covers(FindAll(n, from, at, end), end, j)
    decreases n - from
  {
    var r := FindAll(n, from, at, end);
    match at(from)
    case Some(m) =>
      var rest := FindAll(n, end(m), at, end);
      assert r == [(from, m)] + rest;
      if j >= end(m) {
        FindAllComplete(n, end(m), at, end, j);
        var k: nat :| k < |rest| && rest[k].0 <= j < end(rest[k].1);
        assert r[k + 1] == rest[k];
      } else {
        assert r[0].0 <= j < end(r[0].1);
      }
    case None =>
      FindAllComplete(n, from + 1, at, end, j);
  }

  /** The credential matcher at every index of `s` (none past the end) */
  function CredentialMatcher(s: string): nat -> Option<CredHit> {
    (i: nat) => if i <= |s| then CredentialAt(s, i) else None
  }

  /** `re.findall` of the credential pattern over `s`: each match with the
      index where it starts, left to right */
  function FindAllCredentials(s: string): (r: seq<(nat, CredHit)>)
    ensures forall k | 0 <= k < |r| :: r[k].0 < MatchEnd(r[k].1) <= |s|
    ensures forall k, l | 0 <= k < l < |r| :: MatchEnd(r[k].1) <= r[l].0
  {
    FindAll(|s|, 0, CredentialMatcher(s), MatchEnd)
  }

  /** Every entry of `r` is a credential match at the index it records. */
  ghost predicate AllCredentialShapes(s: string, r: seq<(nat, CredHit)>) {
    forall k | 0 <= k < |r| :: CredentialShape(s, r[k].0, r[k].1)
  }

  /** What `FindAllCredentials` reports is exactly the credential matches
      that a left-to-right scan resuming after each match meets: each one
      matches the pattern at its start, and every index where the pattern
      matches is reported or lies inside a reported match. */
  lemma FindAllCredentialsSpec(s: string)
    ensures AllCredentialShapes(s, FindAllCredentials(s))
    ensures forall j: nat, m | CredentialShape(s, j, m) :: Covers(FindAllCredentials(s), MatchEnd, j)
  {
    var at := CredentialMatcher(s);
    var r := FindAllCredentials(s);
    FindAllSound(|s|, 0, at, MatchEnd);
    forall k | 0 <= k < |r| ensures CredentialShape(s, r[k].0, r[k].1) {
      assert at(r[k].0) == Some(r[k].1);
    }
    forall j: nat, m | CredentialShape(s, j, m) ensures Covers(r, MatchEnd, j) {
      CredentialAtComplete(s, j, m);
      FindAllComplete(|s|, 0, at, MatchEnd, j);
    }
  }
}
