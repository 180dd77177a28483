/** `FirewallCore.process`: scan the prompt and the response, decide, rewrite each
    text according to the decision, and report the risks with an explanation.
    The detectors, the request id and the clock are outside the model: what the two
    detectors found in each text, the id and the timestamp are inputs. */
module FirewallCore {
  import opened Models
  import opened Text
  import opened PolicyEngine
  import opened Redaction
  import opened Explanation

  /** What the PII detector and the injection detector found in one text. */
  datatype Scan = Scan(pii: seq<Risk>, injection: seq<Risk>)

  /** One entry of the `risks` list of the result; the pattern name is not reported. */
  datatype RiskReport = RiskReport(
    kind: RiskKind,
    severity: Severity,
    matched: string,
    start: int,
    end: int,
    explanation: string)

  /** The dictionary `process` returns. */
  datatype Inspection = Inspection(
    decision: Decision,
    promptModified: Option<string>,
    responseModified: Option<string>,
    risks: seq<RiskReport>,
    explanation: string,
    requestId: string,
    timestamp: string)

  const BlockedText: string := "[BLOCKED]"

  /** Python truthiness of an optional text: given and not empty. */
  predicate Present(t: Option<string>) {
    t.Some? && t.value != ""
  }

  /** The risks of one side: the PII findings followed by the injection findings,
      and nothing when the text is absent or empty. */
  function SideRisks(t: Option<string>, scan: Scan): (rs: seq<Risk>)
    ensures !Present(t) ==> rs == []
    ensures Present(t) ==>
      (|rs| == |scan.pii| + |scan.injection| && rs[..|scan.pii|] == scan.pii && rs[|scan.pii|..] == scan.injection)
  {
    if Present(t) then scan.pii + scan.injection else []
  }

  /** The text one side ends with: redacted with its own risks on a redact decision
      (when it has any), replaced on a block, passed through otherwise. */
  function Rewrite(d: Decision, t: Option<string>, risks: seq<Risk>): (r: Option<string>)
    ensures !Present(t) ==> r == t
    ensures r.Some? <==> t.Some?
    ensures d == Block && Present(t) ==> r == Some(BlockedText)
    ensures d == Redact && Present(t) && risks != [] ==> r == Some(Redacted(t.value, risks))
    ensures (d == Redact && risks == []) || d == Warn || d == Allow ==> r == t
  {
    if d == Redact && Present(t) && risks != [] then Some(Redacted(t.value, risks))
    else if d == Block && Present(t) then Some(BlockedText)
    else t
  }

  function Report(r: Risk): RiskReport {
    RiskReport(r.kind, r.severity, r.matched, r.start, r.end, r.explanation)
  }

  function Reports(risks: seq<Risk>): seq<RiskReport> {
    seq(|risks|, i requires 0 <= i < |risks| => Report(risks[i]))
  }

  /** `process`. `re` is the regular-expression engine the custom rules consult. */
  function Process(
    prompt: Option<string>, response: Option<string>, rules: seq<Rule>, re: RegexOracle,
    promptScan: Scan, responseScan: Scan, requestId: string, timestamp: string)
    : (res: Inspection)
    ensures res.requestId == requestId && res.timestamp == timestamp
    ensures |res.risks| == |SideRisks(prompt, promptScan)| + |SideRisks(response, responseScan)|
    ensures !Present(response) ==> res.responseModified == None
    ensures !Present(prompt) ==> res.promptModified == prompt
  {
    var promptRisks := SideRisks(prompt, promptScan);
    var responseRisks := SideRisks(response, responseScan);
    var all := promptRisks + responseRisks;
    var decision := DetermineAction(promptRisks, responseRisks, rules, re);
    var promptModified := Rewrite(decision, prompt, promptRisks);
    var responseModified := Rewrite(decision, response, responseRisks);
    Inspection(
      decision,
      promptModified,
      if Present(response) then responseModified else None,
      Reports(all),
      ExplanationText(all),
      requestId,
      timestamp)
  }

  // ---------------------------------------------------------------------------
  // Properties
  // ---------------------------------------------------------------------------

  /** The decision is the policy engine's on the two sides' own risks, and each text
      is rewritten only according to that decision and its own side's risks. */
  lemma ProcessDecidesAndRewritesPerSide(
    prompt: Option<string>, response: Option<string>, rules: seq<Rule>, re: RegexOracle,
    promptScan: Scan, responseScan: Scan, requestId: string, timestamp: string)
    ensures var res := Process(prompt, response, rules, re, promptScan, responseScan, requestId, timestamp);
      var pr := SideRisks(prompt, promptScan);
      var rr := SideRisks(response, responseScan);
      && res.decision == DetermineAction(pr, rr, rules, re)
      && (res.decision == Redact && Present(prompt) && pr != [] ==>
            res.promptModified == Some(Redacted(prompt.value, pr)))
      && (res.decision == Redact && Present(response) && rr != [] ==>
            res.responseModified == Some(Redacted(response.value, rr)))
      && (res.decision == Redact && pr == [] ==> res.promptModified == prompt)
      && (res.decision == Redact && rr == [] ==>
            res.responseModified == (if Present(response) then response else None))
      && (res.decision == Block && Present(prompt) ==> res.promptModified == Some(BlockedText))
      && (res.decision == Block && Present(response) ==> res.responseModified == Some(BlockedText))
      && ((res.decision == Warn || res.decision == Allow) ==> res.promptModified == prompt)
      && ((res.decision == Warn || res.decision == Allow) && Present(response) ==>
            res.responseModified == response)
  {
  }

  /** The prompt's rewrite does not depend on the response or its findings once the
      decision is fixed. */
  lemma PromptRewriteIgnoresResponse(
    prompt: Option<string>, response1: Option<string>, response2: Option<string>,
    rules: seq<Rule>, re: RegexOracle, promptScan: Scan, scan1: Scan, scan2: Scan,
    requestId: string, timestamp: string)
    requires Process(prompt, response1, rules, re, promptScan, scan1, requestId, timestamp).decision
          == Process(prompt, response2, rules, re, promptScan, scan2, requestId, timestamp).decision
    ensures Process(prompt, response1, rules, re, promptScan, scan1, requestId, timestamp).promptModified
         == Process(prompt, response2, rules, re, promptScan, scan2, requestId, timestamp).promptModified
  {
  }

  /** The response's rewrite does not depend on the prompt or its findings once the
      decision is fixed. */
  lemma ResponseRewriteIgnoresPrompt(
    prompt1: Option<string>, prompt2: Option<string>, response: Option<string>,
    rules: seq<Rule>, re: RegexOracle, scan1: Scan, scan2: Scan, responseScan: Scan,
    requestId: string, timestamp: string)
    requires Process(prompt1, response, rules, re, scan1, responseScan, requestId, timestamp).decision
          == Process(prompt2, response, rules, re, scan2, responseScan, requestId, timestamp).decision
    ensures Process(prompt1, response, rules, re, scan1, responseScan, requestId, timestamp).responseModified
         == Process(prompt2, response, rules, re, scan2, responseScan, requestId, timestamp).responseModified
  {
  }

  /** The risk report lists the prompt's risks then the response's, one entry per
      risk with its fields copied, and the explanation is generated from that same
      list. */
  lemma ReportMirrorsRisks(
    prompt: Option<string>, response: Option<string>, rules: seq<Rule>, re: RegexOracle,
    promptScan: Scan, responseScan: Scan, requestId: string, timestamp: string)
    ensures var res := Process(prompt, response, rules, re, promptScan, responseScan, requestId, timestamp);
      var all := SideRisks(prompt, promptScan) + SideRisks(response, responseScan);
      && |res.risks| == |all|
      && (forall i :: 0 <= i < |all| ==>
            && res.risks[i].kind == all[i].kind
            && res.risks[i].severity == all[i].severity
            && res.risks[i].matched == all[i].matched
            && res.risks[i].start == all[i].start
            && res.risks[i].end == all[i].end
            && res.risks[i].explanation == all[i].explanation)
      && res.explanation == ExplanationText(all)
  {
  }

  /** Text in which neither detector finds anything is allowed through unchanged,
      with an empty report and the no-risk message, whatever the custom rules. */
  lemma CleanTextAllowed(
    prompt: Option<string>, response: Option<string>, rules: seq<Rule>, re: RegexOracle,
    requestId: string, timestamp: string)
    ensures var res := Process(prompt, response, rules, re, Scan([], []), Scan([], []), requestId, timestamp);
      && res.decision == Allow
      && res.promptModified == prompt
      && res.responseModified == (if Present(response) then response else None)
      && res.risks == []
      && res.explanation == NoRisksMessage
  {
    var res := Process(prompt, response, rules, re, Scan([], []), Scan([], []), requestId, timestamp);
    assert SideRisks(prompt, Scan([], [])) == [] && SideRisks(response, Scan([], [])) == [];
    NoRisksMessageIffNoRisks([]);
  }

  /** Without custom rules, a prompt injection found in a given prompt blocks it: the
      prompt, and the response when there is one, become "[BLOCKED]". */
  lemma InjectionBlocks(
    prompt: Option<string>, response: Option<string>, re: RegexOracle,
    promptScan: Scan, responseScan: Scan, requestId: string, timestamp: string, i: int)
    requires Present(prompt)
    requires 0 <= i < |promptScan.injection| && promptScan.injection[i].kind == Injection
    ensures var res := Process(prompt, response, [], re, promptScan, responseScan, requestId, timestamp);
      && res.decision == Block
      && res.promptModified == Some(BlockedText)
      && (Present(response) ==> res.responseModified == Some(BlockedText))
  {
    var pr := SideRisks(prompt, promptScan);
    var all := pr + SideRisks(response, responseScan);
    var j := |promptScan.pii| + i;
    assert all[j] == pr[j] == promptScan.injection[i];
    assert HasKind(all, Injection);
  }

  /** Without custom rules, one high-severity finding on either side (a social
      security number, a card number, a medical record number) blocks both texts. */
  lemma HighRiskBlocks(
    prompt: Option<string>, response: Option<string>, re: RegexOracle,
    promptScan: Scan, responseScan: Scan, requestId: string, timestamp: string, r: Risk)
    requires r.severity == High
    requires r in SideRisks(prompt, promptScan) || r in SideRisks(response, responseScan)
    ensures var res := Process(prompt, response, [], re, promptScan, responseScan, requestId, timestamp);
      && res.decision == Block
      && (Present(prompt) ==> res.promptModified == Some(BlockedText))
      && (Present(response) ==> res.responseModified == Some(BlockedText))
  {
    var all := SideRisks(prompt, promptScan) + SideRisks(response, responseScan);
    assert r in all;
    var j :| 0 <= j < |all| && all[j] == r;
    assert HasSeverity(all, High);
  }

  /** Without custom rules, a prompt whose only finding is one e-mail address (a
      medium PII risk) at `[s, e)` is redacted: the address is replaced by
      "[EMAIL_REDACTED]" and the rest of the prompt is kept. */
  lemma EmailRedacted(
    prompt: string, re: RegexOracle, s: int, e: int, explanation: string,
    requestId: string, timestamp: string)
    requires 0 <= s <= e <= |prompt|
    requires prompt != ""
    ensures var r := Risk(Pii, "email", prompt[s..e], s, e, Medium, explanation);
      var res := Process(Some(prompt), None, [], re, Scan([r], []), Scan([], []), requestId, timestamp);
      && res.decision == Redact
      && res.promptModified == Some(prompt[..s] + "[EMAIL_REDACTED]" + prompt[e..])
      && res.responseModified == None
  {
    var r := Risk(Pii, "email", prompt[s..e], s, e, Medium, explanation);
    var rs := [r];
    assert SideRisks(Some(prompt), Scan([r], [])) == rs;
    MediumOnlyRedacts(r, re);
    SingleRedaction(prompt, r);
    EmailToken();
  }

  /** One medium, non-injection risk alone gives a redact decision. */
  lemma MediumOnlyRedacts(r: Risk, re: RegexOracle)
    requires r.severity == Medium && r.kind != Injection
    ensures DetermineAction([r], [], [], re) == Redact
  {
    var rs := [r];
    assert rs + [] == rs;
    assert rs[0] == r;
    assert HasSeverity(rs, Medium);
  }

  /** Redacting one in-bounds span replaces exactly that span by its placeholder. */
  lemma SingleRedaction(text: string, r: Risk)
    requires 0 <= r.start <= r.end <= |text|
    ensures Redacted(text, [r]) == text[..r.start] + Token(r.patternName) + text[r.end..]
  {
    var rs := [r];
    assert rs[1..] == [];
    assert Chain(r.end, rs[1..], |text|);
    RedactNonOverlapping(text, rs);
    assert text[0..r.start] == text[..r.start];
  }

  lemma EmailToken()
    ensures Token("email") == "[EMAIL_REDACTED]"
  {
    assert Upper("email") == "EMAIL";
  }
}
