/** The detectors and the merge on the kinds of line Metasploit prints:
    general lemmas about such lines, and the typical lines themselves. */
module DetectionExamples {
  import opened Wrappers
  import opened Chars
  import opened Json
  import opened Patterns
  import opened Detection

  // ---------------------------------------------------------------------
  // Session-opened lines

  /** Where "session N opened" sits in a line */
  function OpenedHitAfter(pre: string, ds: string): OpenedHit {
    OpenedHit(Span(|pre| + 8, |pre| + 8 + |ds|), |pre| + 9 + |ds|)
  }

  lemma SessionLineShape(pre: string, ds: string, post: string)
    requires |ds| > 0 && AllDigits(ds)
    ensures var s := pre + "session " + ds + " opened" + post;
      SessionOpenedShape(s, |pre|, OpenedHitAfter(pre, ds))
      && s[|pre| + 8..|pre| + 8 + |ds|] == ds
  {
    var s := pre + "session " + ds + " opened" + post;
    var a, d := |pre|, |ds|;
    SessionLineHead(pre, ds, post);
    SessionLineDigits(pre, ds, post);
    SessionLineTail(pre, ds, post);
    assert AllIn(s, a + 8, a + 8 + d, IsDigit) by {
      forall k | a + 8 <= k < a + 8 + d ensures IsDigit(s[k]) {
        assert s[k] == s[a + 8..a + 8 + d][k - a - 8];
      }
    }
  }

  lemma SessionLineHead(pre: string, ds: string, post: string)
    ensures var s := pre + "session " + ds + " opened" + post;
      s[|pre|..|pre| + 7] == "session" && s[|pre| + 7] == ' '
  {
    var s := pre + "session " + ds + " opened" + post;
    assert s == pre + "session " + (ds + " opened" + post);
  }

  lemma SessionLineDigits(pre: string, ds: string, post: string)
    ensures var s := pre + "session " + ds + " opened" + post;
      s[|pre| + 8..|pre| + 8 + |ds|] == ds
  {
    var s := pre + "session " + ds + " opened" + post;
    assert s == pre + "session " + ds + (" opened" + post);
  }

  lemma SessionLineTail(pre: string, ds: string, post: string)
    ensures var s := pre + "session " + ds + " opened" + post;
      var w := |pre| + 9 + |ds|;
      s[w - 1] == ' ' && s[w..w + 6] == "opened"
  {
    var s := pre + "session " + ds + " opened" + post;
    assert s == (pre + "session " + ds) + " opened" + post;
  }

  /** In a line with no `s` or `S` before "session N opened" that is the
      first match. */
  lemma SessionLineLeftmost(pre: string, ds: string, post: string)
    requires forall k | 0 <= k < |pre| :: pre[k] != 's' && pre[k] != 'S'
    requires |ds| > 0 && AllDigits(ds)
    ensures LeftmostOpened(pre + "session " + ds + " opened" + post, |pre|, OpenedHitAfter(pre, ds))
  {
    var s := pre + "session " + ds + " opened" + post;
    SessionLineShape(pre, ds, post);
    assert s == pre + ("session " + ds + " opened" + post);
    assert forall k: nat | k < |pre| :: !KeywordAt(s, k) by {
      forall k: nat | k < |pre| ensures !KeywordAt(s, k) {
        assert s[k] == pre[k];
      }
    }
  }

  /** A line with no `s` or `S` before "session N opened" yields N. */
  lemma SessionLineDetected(pre: string, ds: string, post: string, current: seq<int>)
    requires forall k | 0 <= k < |pre| :: pre[k] != 's' && pre[k] != 'S'
    requires |ds| > 0 && AllDigits(ds)
    ensures var n := DigitsValue(ds);
      DetectSession(pre + "session " + ds + " opened" + post, current)
        == SessionDetection(if n in current then current else current + [n], false)
  {
    var s := pre + "session " + ds + " opened" + post;
    var h := OpenedHitAfter(pre, ds);
    SessionLineLeftmost(pre, ds, post);
    SessionLineDigits(pre, ds, post);
    DetectSessionDigits(s, |pre|, h, ds, current);
  }

  /** The leftmost match's digits, named */
  lemma DetectSessionDigits(s: string, i: nat, h: OpenedHit, ds: string, current: seq<int>)
    requires LeftmostOpened(s, i, h)
    requires h.group.lo <= h.group.hi <= |s| && s[h.group.lo..h.group.hi] == ds && AllDigits(ds)
    ensures var n := DigitsValue(ds);
      DetectSession(s, current) == SessionDetection(if n in current then current else current + [n], false)
  {
    DetectSessionLeftmost(s, i, h, current);
  }

  const OpenedLine: string := "[*] Meterpreter " + "session " + "3" + " opened" + " (10.0.0.1:4444 -> ...)"

  /** "session 3 opened" with no sessions known gives session 3 and no
      stage flag. */
  lemma OpenedLineDetected()
    ensures DetectSession(OpenedLine, []) == SessionDetection([3], false)
  {
    SessionLineDetected("[*] Meterpreter ", "3", " (10.0.0.1:4444 -> ...)", []);
    assert DigitsValue("3") == 3;
  }

  // ---------------------------------------------------------------------
  // Sending-stage lines

  /** Every session match has the `p` of "opened" just after its word
      starts, so a text without `p` holds none. */
  lemma OpenedHasP(s: string)
    ensures forall i: nat, h | SessionOpenedShape(s, i, h) :: h.word + 1 < |s| && s[h.word + 1] == 'p'
  {
    forall i: nat, h | SessionOpenedShape(s, i, h) ensures h.word + 1 < |s| && s[h.word + 1] == 'p' {
      assert s[h.word..h.word + 6][1] == 'p';
    }
  }

  const StageLine: string := "[*] " + "Sending stage" + " (175174 bytes)" + " to 10.0.0.5"

  /** "Sending stage" with no session line leaves the sessions alone and
      raises the stage flag. */
  lemma StageLineDetected()
    ensures DetectSession(StageLine, [7]) == SessionDetection([7], true)
  {
    OpenedHasP(StageLine);
    assert forall k | 0 <= k < |StageLine| :: StageLine[k] != 'p';
    assert NoOpened(StageLine);
    var low := Lower(StageLine);
    assert forall k | 0 <= k < 13 :: low[4 + k] == "sending stage"[k];
    assert low[4..17] == "sending stage";
    assert OccursAt(low, "sending stage", 4);
  }

  // ---------------------------------------------------------------------
  // Credential lines

  /** The text of a brute-force success line */
  function SuccessLine(host: string, port: string, user: string, pass: string): string {
    "[+] " + host + ":" + port + " - Success: '" + user + ":" + pass + "'"
  }

  /** The match a success line holds */
  function SuccessHit(host: string, port: string, user: string, pass: string): CredHit {
    var p := 4 + |host| + 1;
    var q := p + |port|;
    var u := q + 13;
    CredHit(Span(4, 4 + |host|), Span(p, q), q + 1, q + 3, Span(u, u + |user|), Span(u + |user| + 1, u + |user| + 1 + |pass|))
  }

  /** The pieces of a success line are where `SuccessHit` says. */
  predicate SuccessParts(host: string, port: string, user: string, pass: string) {
    && |host| > 0 && AllIn(host, 0, |host|, IsNonSpace)
    && |port| > 0 && AllDigits(port)
    && |user| > 0 && AllIn(user, 0, |user|, IsWord)
    && |pass| > 0 && AllIn(pass, 0, |pass|, IsNonSpace)
  }

  lemma SuccessEndpoint(host: string, port: string, user: string, pass: string)
    requires SuccessParts(host, port, user, pass)
    ensures var s := SuccessLine(host, port, user, pass);
      var m := SuccessHit(host, port, user, pass);
      OccursAt(s, "[+]", 0) && EndpointShape(s, 3, m.host, m.port)
  {
    var s := SuccessLine(host, port, user, pass);
    var m := SuccessHit(host, port, user, pass);
    var rest := " - Success: '" + user + ":" + pass + "'";
    assert s == "[+] " + host + ":" + port + rest;
    assert s[..3] == "[+]";
    assert IsSpace(s[3]);
    assert forall k | m.host.lo <= k < m.host.hi :: s[k] == host[k - 4];
    assert s[m.host.hi] == ':';
    assert forall k | m.port.lo <= k < m.port.hi :: s[k] == port[k - m.port.lo];
    assert IsSpace(s[m.port.hi]);
  }

  lemma SuccessSeparator(host: string, port: string, user: string, pass: string)
    requires SuccessParts(host, port, user, pass)
    ensures var s := SuccessLine(host, port, user, pass);
      var m := SuccessHit(host, port, user, pass);
      m.user.lo >= 1 && SeparatorShape(s, m.port.hi, m.dash, m.success, m.user.lo - 1)
  {
    var s := SuccessLine(host, port, user, pass);
    var q := 4 + |host| + 1 + |port|;
    var head := "[+] " + host + ":" + port;
    assert s == head + " - Success: '" + (user + ":" + pass + "'");
    assert s[q] == ' ' && s[q + 1] == '-' && s[q + 2] == ' ';
    assert s[q + 3..q + 11] == "Success:";
    assert s[q + 11] == ' ' && s[q + 12] == '\'';
    assert AllIn(s, q, q + 1, IsSpace) && AllIn(s, q + 2, q + 3, IsSpace) && AllIn(s, q + 11, q + 12, IsSpace);
  }

  lemma SuccessSecret(host: string, port: string, user: string, pass: string)
    requires SuccessParts(host, port, user, pass)
    ensures var s := SuccessLine(host, port, user, pass);
      var m := SuccessHit(host, port, user, pass);
      SecretShape(s, m.user.lo, m.user, m.pass) && MatchEnd(m) == |s|
  {
    var s := SuccessLine(host, port, user, pass);
    var m := SuccessHit(host, port, user, pass);
    var head := "[+] " + host + ":" + port + " - Success: '";
    assert |head| == m.user.lo;
    assert s == head + user + ":" + pass + "'";
    assert forall k | m.user.lo <= k < m.user.hi :: s[k] == user[k - m.user.lo];
    assert s[m.user.hi] == ':';
    assert forall k | m.pass.lo <= k < m.pass.hi :: s[k] == pass[k - m.pass.lo];
    assert s[m.pass.hi] == '\'';
  }

  lemma SuccessLineShape(host: string, port: string, user: string, pass: string)
    requires SuccessParts(host, port, user, pass)
    ensures CredentialShape(SuccessLine(host, port, user, pass), 0, SuccessHit(host, port, user, pass))
    ensures MatchEnd(SuccessHit(host, port, user, pass)) == |SuccessLine(host, port, user, pass)|
  {
    SuccessEndpoint(host, port, user, pass);
    SuccessSeparator(host, port, user, pass);
    SuccessSecret(host, port, user, pass);
  }

  /** The scan over a success line finds its one match. */
  lemma SuccessLineHits(host: string, port: string, user: string, pass: string)
    requires SuccessParts(host, port, user, pass)
    ensures FindAllCredentials(SuccessLine(host, port, user, pass)) == [(0, SuccessHit(host, port, user, pass))]
  {
    var s := SuccessLine(host, port, user, pass);
    var m := SuccessHit(host, port, user, pass);
    SuccessLineShape(host, port, user, pass);
    CredentialAtComplete(s, 0, m);
    var at := CredentialMatcher(s);
    assert at(0) == Some(m);
    assert FindAll(|s|, |s|, at, MatchEnd) == [];
  }

  /** The groups of a success line are its host, port, user and password. */
  lemma SuccessLineGroups(host: string, port: string, user: string, pass: string)
    requires SuccessParts(host, port, user, pass)
    ensures var s := SuccessLine(host, port, user, pass);
      var m := SuccessHit(host, port, user, pass);
      && GroupsWithin(s, m)
      && Slice(s, m.host) == host && Slice(s, m.port) == port
      && Slice(s, m.user) == user && Slice(s, m.pass) == pass
  {
    HostGroup(host, port, user, pass);
    PortGroup(host, port, user, pass);
    UserGroup(host, port, user, pass);
    PassGroup(host, port, user, pass);
  }

  lemma HostGroup(host: string, port: string, user: string, pass: string)
    ensures SuccessLine(host, port, user, pass)[4..4 + |host|] == host
  {
    var s := SuccessLine(host, port, user, pass);
    assert s == "[+] " + host + (":" + port + " - Success: '" + user + ":" + pass + "'");
  }

  lemma PortGroup(host: string, port: string, user: string, pass: string)
    ensures var p := 4 + |host| + 1;
      SuccessLine(host, port, user, pass)[p..p + |port|] == port
  {
    var s := SuccessLine(host, port, user, pass);
    assert s == "[+] " + host + ":" + port + (" - Success: '" + user + ":" + pass + "'");
  }

  lemma UserGroup(host: string, port: string, user: string, pass: string)
    ensures var u := 4 + |host| + 1 + |port| + 13;
      SuccessLine(host, port, user, pass)[u..u + |user|] == user
  {
    var s := SuccessLine(host, port, user, pass);
    var head := "[+] " + host + ":" + port + " - Success: '";
    assert s == head + user + (":" + pass + "'");
  }

  lemma PassGroup(host: string, port: string, user: string, pass: string)
    ensures var u := 4 + |host| + 1 + |port| + 13 + |user| + 1;
      SuccessLine(host, port, user, pass)[u..u + |pass|] == pass
  {
    var s := SuccessLine(host, port, user, pass);
    var head := "[+] " + host + ":" + port + " - Success: '" + user + ":";
    assert s == head + pass + "'";
  }

  /** A success line yields exactly its own credential, with the service
      written host:port. */
  lemma SuccessLineDetected(host: string, port: string, user: string, pass: string)
    requires SuccessParts(host, port, user, pass)
    ensures DetectCredentials(SuccessLine(host, port, user, pass), [])
      == [Credential(user, pass, host + ":" + port, "brute_force")]
  {
    var s := SuccessLine(host, port, user, pass);
    SuccessLineHits(host, port, user, pass);
    SuccessLineGroups(host, port, user, pass);
    var c := Credential(user, pass, host + ":" + port, "brute_force");
    assert FoundCredentials(s) == [c];
    AppendNewSingle([], c);
  }

  /** "[+] 10.0.0.5:22 - Success: 'root:toor'" yields root/toor on
      10.0.0.5:22. */
  lemma RootLineDetected(host: string, port: string, user: string, pass: string)
    requires host == "10.0.0.5" && port == "22" && user == "root" && pass == "toor"
    ensures DetectCredentials(SuccessLine(host, port, user, pass), [])
      == [Credential("root", "toor", "10.0.0.5:22", "brute_force")]
  {
    assert host + ":" + port == "10.0.0.5:22";
    assert SuccessParts(host, port, user, pass);
    SuccessLineDetected(host, port, user, pass);
  }

  // ---------------------------------------------------------------------
  // The merge

  /** A credential match that runs to the end of the text stays a match
      when more text follows after whitespace. */
  lemma CredentialShapeExtends(s: string, rest: string, i: nat, m: CredHit)
    requires CredentialShape(s, i, m) && MatchEnd(m) == |s|
    requires rest == [] || IsSpace(rest[0])
    ensures CredentialShape(s + rest, i, m)
  {
    var t := s + rest;
    assert forall k | 0 <= k < |s| :: t[k] == s[k];
    assert t[i..i + 3] == s[i..i + 3];
    assert t[m.success..m.success + 8] == s[m.success..m.success + 8];
    assert EndpointShape(t, i + 3, m.host, m.port);
    assert SeparatorShape(t, m.port.hi, m.dash, m.success, m.user.lo - 1);
    assert forall k {:trigger AllIn(t, m.pass.lo, k, IsNonSpace)} | m.pass.hi < k < |t| && AllIn(t, m.pass.lo, k, IsNonSpace) ::
      !IsQuote(t[k]) by {
      forall k | m.pass.hi < k < |t| && AllIn(t, m.pass.lo, k, IsNonSpace) ensures !IsQuote(t[k]) {
        assert k == |s| ==> t[k] == rest[0];
        assert k > |s| ==> !IsNonSpace(t[|s|]);
      }
    }
    assert SecretShape(t, m.user.lo, m.user, m.pass);
  }

  /** A match at the very start of the text is the first one found. */
  lemma FirstHitAtStart(s: string, m: CredHit)
    requires CredentialShape(s, 0, m)
    ensures |FindAllCredentials(s)| > 0 && FindAllCredentials(s)[0] == (0, m)
  {
    CredentialAtComplete(s, 0, m);
    var at := CredentialMatcher(s);
    assert at(0) == Some(m);
  }

  /** A success line followed by whitespace and anything else still
      yields the line's credential first. */
  lemma SuccessLineThenMore(host: string, port: string, user: string, pass: string, rest: string)
    requires SuccessParts(host, port, user, pass)
    requires rest == [] || IsSpace(rest[0])
    ensures Credential(user, pass, host + ":" + port, "brute_force")
      in FoundCredentials(SuccessLine(host, port, user, pass) + rest)
  {
    var line := SuccessLine(host, port, user, pass);
    var out := line + rest;
    var m := SuccessHit(host, port, user, pass);
    SuccessLineShape(host, port, user, pass);
    CredentialShapeExtends(line, rest, 0, m);
    FirstHitAtStart(out, m);
    SuccessLineGroups(host, port, user, pass);
    ExtendedGroups(line, rest, m);
    assert FoundCredentials(out)[0] == CredentialOf(out, m);
  }

  /** Text appended after a match leaves its groups as they were. */
  lemma ExtendedGroups(line: string, rest: string, m: CredHit)
    requires GroupsWithin(line, m)
    ensures GroupsWithin(line + rest, m)
    ensures CredentialOf(line + rest, m) == CredentialOf(line, m)
  {
    var out := line + rest;
    assert out[..|line|] == line;
    assert Slice(out, m.host) == out[..|line|][m.host.lo..m.host.hi];
    assert Slice(out, m.port) == out[..|line|][m.port.lo..m.port.hi];
    assert Slice(out, m.user) == out[..|line|][m.user.lo..m.user.hi];
    assert Slice(out, m.pass) == out[..|line|][m.pass.lo..m.pass.hi];
  }

  /** In a brute-force exploitation step with stateless post-exploitation,
      output that starts with a success line adds its credential, while the
      sessions stay as they were whatever the rest of the output says (a
      "session N opened" line included). */
  lemma MergeGatesExample(
    target: TargetInfo, host: string, port: string, user: string, pass: string, rest: string)
    requires SuccessParts(host, port, user, pass)
    requires rest == [] || IsSpace(rest[0])
    ensures var t := UpdateTargetWithDetections(target, SuccessLine(host, port, user, pass) + rest,
        "exploitation", "brute_force_credential_guess", "stateless");
      && t.sessions == target.sessions
      && Credential(user, pass, host + ":" + port, "brute_force") in t.credentials
      && t.others == target.others
  {
    var out := SuccessLine(host, port, user, pass) + rest;
    SuccessLineThenMore(host, port, user, pass, rest);
    assert !SessionGate("exploitation", "stateless");
    assert CredentialGate("exploitation", "brute_force_credential_guess");
    assert out != "";
  }
}
