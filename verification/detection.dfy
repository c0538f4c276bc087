/** detection.py: the session and credential detectors that scan raw tool
    output, and the gated, copy-on-write merge of what they find into the
    target record. Logging and the user/project/session identifiers that
    only feed it are not modelled. */
module Detection {
  import opened Wrappers
  import opened Chars
  import opened Json
  import opened Patterns

  // ---------------------------------------------------------------------
  // Appending without duplicates

  /** `for x in found: if x not in r: r.append(x)`, starting from
      `current` */
  function AppendNew<T(==)>(current: seq<T>, found: seq<T>): (r: seq<T>)
    ensures |current| <= |r| && r[..|current|] == current
    ensures forall k | |current| <= k < |r| :: r[k] !in r[..k]
    ensures forall x | x in found :: x in r
    ensures forall x | x in r :: x in current || x in found
    decreases |found|
  {
    if found == [] then current
    else
      var next := if found[0] in current then current else current + [found[0]];
      AppendNew(next, found[1..])
  }

  /** Everything appended comes from `found`. */
  lemma AppendedFromFound<T>(current: seq<T>, found: seq<T>)
    ensures var r := AppendNew(current, found);
      forall k | |current| <= k < |r| :: r[k] in found
  {
    var r := AppendNew(current, found);
    forall k | |current| <= k < |r| ensures r[k] in found {
      assert r[..k][..|current|] == current;
      assert forall x | x in current :: x in r[..k];
    }
  }

  /** Appending what is already there changes nothing. */
  lemma {:induction false} AppendNewPresent<T>(current: seq<T>, found: seq<T>)
    requires forall x | x in found :: x in current
    ensures AppendNew(current, found) == current
    decreases |found|
  {
    if found != [] {
      AppendNewPresent(current, found[1..]);
    }
  }

  /** Appending is idempotent. */
  lemma AppendNewIdempotent<T>(current: seq<T>, found: seq<T>)
    ensures AppendNew(AppendNew(current, found), found) == AppendNew(current, found)
  {
    AppendNewPresent(AppendNew(current, found), found);
  }

  /** Found items are taken left to right: appending `a + b` is appending
      `a`, then `b`. */
  lemma {:induction false} AppendNewConcat<T>(current: seq<T>, a: seq<T>, b: seq<T>)
    ensures AppendNew(current, a + b) == AppendNew(AppendNew(current, a), b)
    decreases |a|
  {
    if a == [] {
      assert a + b == b;
    } else {
      assert (a + b)[0] == a[0] && (a + b)[1..] == a[1..] + b;
      var next := if a[0] in current then current else current + [a[0]];
      AppendNewConcat(next, a[1..], b);
    }
  }

  /** One found item is appended exactly when it is new. */
  lemma AppendNewSingle<T>(current: seq<T>, x: T)
    ensures AppendNew(current, [x]) == if x in current then current else current + [x]
  {
    assert [x][1..] == [];
  }

  // ---------------------------------------------------------------------
  // detect_session_from_output

  /** The pair the session detector returns */
  datatype SessionDetection = SessionDetection(sessions: seq<int>, stageTransfer: bool)

  /** The session-opened pattern first matches `s` at `i`, as `h` says */
  ghost predicate LeftmostOpened(s: string, i: nat, h: OpenedHit) {
    && SessionOpenedShape(s, i, h)
    && forall k: nat, h' | k < i :: !SessionOpenedShape(s, k, h')
  }

  /** The session-opened pattern matches nowhere in `s` */
  ghost predicate NoOpened(s: string) {
    forall i: nat, h :: !SessionOpenedShape(s, i, h)
  }

  /** The session id of a match */
  function OpenedId(s: string, h: OpenedHit): nat
    requires h.group.lo <= h.group.hi <= |s| && AllDigits(s[h.group.lo..h.group.hi])
  {
    DigitsValue(s[h.group.lo..h.group.hi])
  }

  /** The session detector. Empty output detects nothing. Otherwise the
      first "session N opened" adds N unless it is already known, and only
      when there is no such line does a "sending stage" anywhere, in any
      case, raise the stage-transfer flag. */
  function DetectSession(output: string, current: seq<int>): (r: SessionDetection)
    ensures output == "" ==> r == SessionDetection(current, false)
    ensures forall i: nat, h | LeftmostOpened(output, i, h) ::
      && h.group.hi <= |output| && AllDigits(output[h.group.lo..h.group.hi])
      && var n := OpenedId(output, h);
         r == SessionDetection(if n in current then current else current + [n], false)
    ensures output != "" && NoOpened(output) ==>
      r == SessionDetection(current, Contains(Lower(output), "sending stage"))
  {
    if output == "" then SessionDetection(current, false)
    else
      match FindSessionOpened(output, 0)
      case Some((i, h)) =>
        FirstOpened(output);
        forall i': nat, h' | LeftmostOpened(output, i', h') ensures i' == i && h' == h {
          LeftmostUnique(output, i, h, i', h');
        }
        OpenedDigits(output, i, h);
        var n := OpenedId(output, h);
        SessionDetection(if n in current then current else current + [n], false)
      case None =>
        FirstOpened(output);
        SessionDetection(current, Contains(Lower(output), "sending stage"))
  }

  /** The pattern has one leftmost match. */
  lemma LeftmostUnique(s: string, i: nat, h: OpenedHit, i': nat, h': OpenedHit)
    requires LeftmostOpened(s, i, h) && LeftmostOpened(s, i', h')
    ensures i == i' && h == h'
  {
    assert i < i' ==> !SessionOpenedShape(s, i, h);
    assert i' < i ==> !SessionOpenedShape(s, i', h');
    assert SessionOpenedAt(s, i) == Some(h);
  }

  /** The id group of a match is a digit string inside the text. */
  lemma OpenedDigits(s: string, i: nat, h: OpenedHit)
    requires SessionOpenedShape(s, i, h)
    ensures h.group.lo <= h.group.hi <= |s| && AllDigits(s[h.group.lo..h.group.hi])
  {
    assert s[h.word..h.word + 6][0] == s[h.word];
  }

  /** The search for the session-opened pattern finds its leftmost match,
      or there is none. */
  lemma FirstOpened(s: string)
    ensures FindSessionOpened(s, 0).Some? ==>
      LeftmostOpened(s, FindSessionOpened(s, 0).value.0, FindSessionOpened(s, 0).value.1)
    ensures FindSessionOpened(s, 0).None? ==> NoOpened(s)
  {
    assert forall k: nat, h | SessionOpenedShape(s, k, h) :: SessionOpenedAt(s, k) == Some(h);
  }

  /** The detector on output whose first match is known */
  lemma DetectSessionLeftmost(output: string, i: nat, h: OpenedHit, current: seq<int>)
    requires LeftmostOpened(output, i, h)
    ensures h.group.lo <= h.group.hi <= |output| && AllDigits(output[h.group.lo..h.group.hi])
    ensures var n := OpenedId(output, h);
      DetectSession(output, current) == SessionDetection(if n in current then current else current + [n], false)
  {
  }

  /** At most one session is added, and a raised stage flag means none
      was: the two signals never come together. */
  lemma DetectSessionShape(output: string, current: seq<int>)
    ensures var r := DetectSession(output, current);
      || r.sessions == current
      || (exists n :: n !in current && r.sessions == current + [n])
    ensures DetectSession(output, current).stageTransfer ==> DetectSession(output, current).sessions == current
  {
    FirstOpened(output);
  }

  /** Running the detector again on the same output with the sessions it
      returned adds nothing. */
  lemma DetectSessionIdempotent(output: string, current: seq<int>)
    ensures var once := DetectSession(output, current).sessions;
      DetectSession(output, once).sessions == once
  {
    FirstOpened(output);
  }

  // ---------------------------------------------------------------------
  // detect_credentials_from_output

  /** A credential dictionary: all four keys, compared by value */
  datatype Credential = Credential(username: string, password: string, service: string, source: string)

  /** The four groups of a credential match lie inside the text. */
  predicate GroupsWithin(s: string, m: CredHit) {
    && m.host.lo <= m.host.hi <= |s|
    && m.port.lo <= m.port.hi <= |s|
    && m.user.lo <= m.user.hi <= |s|
    && m.pass.lo <= m.pass.hi <= |s|
  }

  lemma ShapeGroupsWithin(s: string, i: nat, m: CredHit)
    requires CredentialShape(s, i, m)
    ensures GroupsWithin(s, m)
  {
  }

  /** The record built from one match */
  function CredentialOf(s: string, m: CredHit): (c: Credential)
    requires GroupsWithin(s, m)
    ensures c.source == "brute_force"
    ensures c.service == Slice(s, m.host) + ":" + Slice(s, m.port)
    ensures c.username == Slice(s, m.user) && c.password == Slice(s, m.pass)
  {
    Credential(Slice(s, m.user), Slice(s, m.pass), Slice(s, m.host) + ":" + Slice(s, m.port), "brute_force")
  }

  /** The records of every credential match, left to right */
  function FoundCredentials(s: string): (r: seq<Credential>)
    ensures |r| == |FindAllCredentials(s)|
    ensures forall k | 0 <= k < |r| ::
      GroupsWithin(s, FindAllCredentials(s)[k].1) && r[k] == CredentialOf(s, FindAllCredentials(s)[k].1)
    ensures forall c | c in r :: c.source == "brute_force"
  {
    var hits := FindAllCredentials(s);
    FindAllCredentialsSpec(s);
    forall k | 0 <= k < |hits| ensures GroupsWithin(s, hits[k].1) {
      ShapeGroupsWithin(s, hits[k].0, hits[k].1);
    }
    seq(|hits|, k requires 0 <= k < |hits| => CredentialOf(s, hits[k].1))
  }

  /** The credential detector: empty output finds nothing; otherwise every
      match's record is appended unless an equal record is already in the
      list. */
  function DetectCredentials(output: string, current: seq<Credential>): (r: seq<Credential>)
    ensures output == "" ==> r == current
    ensures |current| <= |r| && r[..|current|] == current
    ensures forall k | |current| <= k < |r| :: r[k] !in r[..k]
    ensures forall k | |current| <= k < |r| :: r[k].source == "brute_force"
    ensures forall k | |current| <= k < |r| :: r[k] in FoundCredentials(output)
    ensures output != "" ==> forall c | c in FoundCredentials(output) :: c in r
  {
    if output == "" then current
    else
      var found := FoundCredentials(output);
      AppendedFromFound(current, found);
      AppendNew(current, found)
  }

  /** Running the detector again on the same output with the list it
      returned adds nothing. */
  lemma DetectCredentialsIdempotent(output: string, current: seq<Credential>)
    ensures var once := DetectCredentials(output, current);
      DetectCredentials(output, once) == once
  {
    if output != "" {
      AppendNewIdempotent(current, FoundCredentials(output));
    }
  }

  // ---------------------------------------------------------------------
  // update_target_with_detections

  /** The fields of the target record the merge reads and writes, and the
      rest of it, which it only carries over */
  datatype TargetInfo = TargetInfo(sessions: seq<int>, credentials: seq<Credential>, others: JsonObject)

  /** The gate of session detection (the literal is spelt with two l's) */
  predicate SessionGate(phase: string, postExplPhaseType: string) {
    postExplPhaseType == "statefull" && phase == "exploitation"
  }

  /** The gate of credential detection */
  predicate CredentialGate(phase: string, attackPathType: string) {
    attackPathType == "brute_force_credential_guess" && phase == "exploitation"
  }

  /** `update_target_with_detections`. Each detector runs only behind its
      own gate, and the record is replaced, field by field, only when a
      list actually changed. */
  function UpdateTargetWithDetections(
    target: TargetInfo, output: string, phase: string,
    attackPathType: string, postExplPhaseType: string): (r: TargetInfo)
    ensures r.others == target.others
    ensures !SessionGate(phase, postExplPhaseType) ==> r.sessions == target.sessions
    ensures SessionGate(phase, postExplPhaseType) ==>
      r.sessions == DetectSession(output, target.sessions).sessions
    ensures !CredentialGate(phase, attackPathType) ==> r.credentials == target.credentials
    ensures CredentialGate(phase, attackPathType) ==>
      r.credentials == DetectCredentials(output, target.credentials)
  {
    var afterSessions :=
      if SessionGate(phase, postExplPhaseType) then
        var ns := DetectSession(output, target.sessions).sessions;
        if ns != target.sessions then target.(sessions := ns) else target
      else target;
    if CredentialGate(phase, attackPathType) then
      var nc := DetectCredentials(output, afterSessions.credentials);
      if nc != afterSessions.credentials then afterSessions.(credentials := nc) else afterSessions
    else afterSessions
  }

  /** With neither gate open the record comes back as it was, whatever the
      output says. */
  lemma UpdateClosedGates(
    target: TargetInfo, output: string, phase: string,
    attackPathType: string, postExplPhaseType: string)
    requires !SessionGate(phase, postExplPhaseType) && !CredentialGate(phase, attackPathType)
    ensures UpdateTargetWithDetections(target, output, phase, attackPathType, postExplPhaseType) == target
  {
  }

  /** With no detection changing a list the record comes back as it was. */
  lemma UpdateNoChange(
    target: TargetInfo, output: string, phase: string,
    attackPathType: string, postExplPhaseType: string)
    requires DetectSession(output, target.sessions).sessions == target.sessions
    requires DetectCredentials(output, target.credentials) == target.credentials
    ensures UpdateTargetWithDetections(target, output, phase, attackPathType, postExplPhaseType) == target
  {
  }

  /** Merging twice with the same output is merging once. */
  lemma UpdateIdempotent(
    target: TargetInfo, output: string, phase: string,
    attackPathType: string, postExplPhaseType: string)
    ensures var once := UpdateTargetWithDetections(target, output, phase, attackPathType, postExplPhaseType);
      UpdateTargetWithDetections(once, output, phase, attackPathType, postExplPhaseType) == once
  {
    DetectSessionIdempotent(output, target.sessions);
    DetectCredentialsIdempotent(output, target.credentials);
  }

  /** Only the literal "statefull" opens the session gate: the spelling
      "stateful" leaves the sessions alone. */
  lemma StatefulSpellingKeepsSessions(target: TargetInfo, output: string, attackPathType: string)
    ensures UpdateTargetWithDetections(target, output, "exploitation", attackPathType, "stateful").sessions
      == target.sessions
  {
  }
}
