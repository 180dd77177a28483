# Prompt firewall core in Dafny

This project models the decision-and-rewrite core of a prompt firewall. The
firewall inspects a user's prompt and a model's response, both optional. Two
detectors report risks in each text; the detectors are not part of this model.
The core then:

- **Decides** BLOCK, REDACT, WARN or ALLOW (`PolicyEngine`). It uses either the
  default severity policy or a list of custom rules. Rules are matched per risk
  by risk type plus a regular expression or a keyword. For each risk the first
  matching rule of highest severity wins, and the strictest action any risk
  contributes is the decision.
- **Redacts** text (`Redaction`). Each risk span is spliced over with the
  placeholder `[<PATTERN NAME>_REDACTED]`, walking the risks in order of start.
  A running offset corrects for the length drift earlier replacements cause.
- **Explains** the decision (`Explanation`). Risks are grouped by type in
  first-seen order. Prompt-injection groups list up to three explanations, PII
  and PHI groups list their distinct pattern names, and other types say nothing.
- **Processes** one request (`FirewallCore`). It decides on both sides' risks,
  redacts each side with its own risks only, or replaces each given text with
  `[BLOCKED]`, or passes the texts through. It reports the prompt risks
  followed by the response risks.

The modules are:

| module | file | models |
|---|---|---|
| `Text` | `text.dfy` | ASCII `lower`/`upper`, substring `in`, `str.join`, decimal rendering of a count |
| `Models` | `models.dfy` | the enumerations, the risk record, the policy rule, the regex engine's outcomes; a catch-all tag never holds a string that has its own variant |
| `PolicyEngine` | `policy_engine.dfy` | `determine_action`, `apply_policy_rules` and their helpers |
| `Redaction` | `redaction.dfy` | `redact_text` |
| `Explanation` | `explanation.dfy` | `generate_explanation` |
| `FirewallCore` | `firewall_core.dfy` | `FirewallCore.process` |

How the source's form is kept:

- Pure logic is written as functions.
- The code that works by loops and appends is written as methods with loop
  invariants: `apply_policy_rules`, `redact_text` and `generate_explanation`.
  Each such method is proved equal to a specification function, and the
  properties are proved about that function.
- Python's `max(xs, key=...)` returns the first maximal element. It is modelled
  by `FirstMaxIndex`.
- Python's `sorted` is stable. It is modelled by an insertion sort that places
  a risk after every risk with an equal start.
- Slicing clamps its bounds. This is modelled by `PyIndex`.

## Model

| member | source | states |
|---|---|---|
| `Text.Lower` | backend/app/firewall/policy_engine.py:140 | lower-casing keeps the length and maps each character to its lower case (ASCII letters) |
| `Text.Upper` | backend/app/firewall/policy_engine.py:207 | upper-casing keeps the length and maps each character to its upper case (ASCII letters) |
| `Text.Contains` | backend/app/firewall/policy_engine.py:140 | `needle in hay` is true iff the needle occurs at some position of the hay |
| `Text.NatToString` | backend/app/firewall/policy_engine.py:241 | the decimal rendering of a count is a non-empty string of digits with no leading zero |
| `Text.NatToStringRoundTrip` | backend/app/firewall/policy_engine.py:241 | reading the rendered digits back from left to right gives the count |
| `Text.Join` | backend/app/firewall/policy_engine.py:242 | joining no parts gives the empty string and joining one part gives that part |
| `Text.JoinSnoc` | backend/app/firewall/policy_engine.py:251 | joining one more part appends the separator and that part |
| `PolicyEngine.FirstMaxIndex` | backend/app/firewall/policy_engine.py:164 | `max` with a key picks a position whose key is not exceeded, and every earlier key is strictly smaller (first maximum) |
| `PolicyEngine.SeverityPriority` | backend/app/firewall/policy_engine.py:144-151 | priority 3/2/1 exactly for high/medium/low, 0 for anything else |
| `PolicyEngine.Strictness` | backend/app/firewall/policy_engine.py:168-173 | strictness 4/3/2/1 exactly for block/redact/warn/allow |
| `PolicyEngine.HighestSeverity` | backend/app/firewall/policy_engine.py:153-164 | "low" for no risks; high iff some risk is high; medium iff none is high and some is medium; otherwise low iff some is low |
| `PolicyEngine.StrictestDecision` | backend/app/firewall/policy_engine.py:166-175 | the result is one of the decisions and at least as strict as each of them |
| `PolicyEngine.DefaultDecision` | backend/app/firewall/policy_engine.py:46-71 | allow for no risks; block iff some injection or some high risk; redact iff neither and some medium; warn iff none of those and some low |
| `PolicyEngine.MappedType` | backend/app/firewall/policy_engine.py:122-128 | only the three known risk-type strings map to a rule type, and never to OTHER |
| `PolicyEngine.RiskMatchesRule` | backend/app/firewall/policy_engine.py:116-142 | false for an unmapped or different type, for a compile error and for an unknown pattern type; a regex rule matches iff the engine finds the pattern; a keyword rule matches iff the lower-cased keyword occurs in the lower-cased match |
| `PolicyEngine.MatchingRules` | backend/app/firewall/policy_engine.py:98-102 | the inner loop collects exactly the matching rules, in order |
| `PolicyEngine.ApplyPolicyRules` | backend/app/firewall/policy_engine.py:73-114 | the nested loops compute the custom-rule decision `PolicyDecision` |
| `PolicyEngine.PolicyDecisionByCases` | backend/app/firewall/policy_engine.py:88-114 | the custom-rule decision is the default policy on each fallback and the strictest contribution otherwise |
| `PolicyEngine.ContributionsSnoc` | backend/app/firewall/policy_engine.py:97-109 | one more risk appends its contribution, if any, to `decisions` |
| `PolicyEngine.DetermineAction` | backend/app/firewall/policy_engine.py:29-71 | allow when neither side has risks, even with rules; the default policy without rules; the custom-rule path with rules |
| `PolicyEngine.EnabledMembers` | backend/app/firewall/policy_engine.py:91 | the enabled rules are exactly the rules that are enabled |
| `PolicyEngine.MatchingMembers` | backend/app/firewall/policy_engine.py:98-102 | the matching rules are exactly the rules that match the risk |
| `PolicyEngine.ApplyingRuleIsMatched` | backend/app/firewall/policy_engine.py:91-102 | an enabled rule that matches a risk is among its matching rules |
| `PolicyEngine.NoRuleApplies` | backend/app/firewall/policy_engine.py:91-104 | when no rule is collected for a risk, no enabled rule matches it |
| `PolicyEngine.ChosenRuleIsWinning` | backend/app/firewall/policy_engine.py:104-108 | the rule `max` picks is the first enabled matching rule of highest severity priority in the rule list |
| `PolicyEngine.WinningRuleUnique` | backend/app/firewall/policy_engine.py:104-108 | at most one rule is the winner for a risk |
| `PolicyEngine.ContributionIsWinningAction` | backend/app/firewall/policy_engine.py:97-109 | a risk contributes nothing iff no enabled rule matches it, else exactly the winning rule's action |
| `PolicyEngine.ContributionsMember` | backend/app/firewall/policy_engine.py:95-109 | a given action is in `decisions` iff some risk contributes it |
| `PolicyEngine.ContributionsMembers` | backend/app/firewall/policy_engine.py:95-109 | an action is in `decisions` iff some risk contributes it |
| `PolicyEngine.PolicyFallsBackToDefault` | backend/app/firewall/policy_engine.py:88-112 | no risks, no rules, no enabled rule, or no enabled rule matching any risk gives the default-policy decision |
| `PolicyEngine.PolicyIsStrictestContribution` | backend/app/firewall/policy_engine.py:104-114 | once some enabled rule matches some risk, the decision is some risk's winning action and at least as strict as every risk's |
| `PolicyEngine.DisabledRulesIgnored` | backend/app/firewall/policy_engine.py:91 | rule lists with the same enabled rules decide alike |
| `PolicyEngine.ContributionsIgnoreUnmatched` | backend/app/firewall/policy_engine.py:97-109 | risks that match no rule leave `decisions` unchanged |
| `PolicyEngine.UnmatchedRisksIgnored` | backend/app/firewall/policy_engine.py:95-114 | once some risk matches a rule, adding risks that match none does not change the decision, so it can be laxer than the default policy |
| `PolicyEngine.KeywordRuleRoundTrip` | backend/app/firewall/policy_engine.py:88-140 | one enabled PII keyword rule with action block blocks a PII risk containing the keyword; disabling it gives back the default decision |
| `PolicyEngine.MatchingEnabledSnoc` | backend/app/firewall/policy_engine.py:91-102 | a further rule is collected exactly when it is enabled and matches |
| `PolicyEngine.WinningRuleSnoc` | backend/app/firewall/policy_engine.py:105-108 | a further rule takes over as winner exactly when it applies with strictly higher priority |
| `PolicyEngine.FirstMaxIndexSnoc` | backend/app/firewall/policy_engine.py:164 | `max` over one more key moves to it exactly when it is strictly larger |
| `Redaction.Token` | backend/app/firewall/policy_engine.py:207 | the placeholder is 11 characters longer than the pattern name and is enclosed in brackets |
| `Redaction.SortByStart` | backend/app/firewall/policy_engine.py:198 | sorting by start yields a sequence sorted by start that is a permutation of the risks |
| `Redaction.InsertByStart` | backend/app/firewall/policy_engine.py:198 | one insertion step adds exactly the risk (multiset) |
| `Redaction.InsertLast` | backend/app/firewall/policy_engine.py:198 | after one insertion step the last risk is the inserted one or the old last |
| `Redaction.InsertKeepsSorted` | backend/app/firewall/policy_engine.py:198 | insertion into a sorted sequence keeps it sorted |
| `Redaction.SortedPairwise` | backend/app/firewall/policy_engine.py:198 | in a sorted sequence every risk starts no earlier than each one before it |
| `Redaction.SortSortedUnchanged` | backend/app/firewall/policy_engine.py:198 | sorting risks already in order of start changes nothing |
| `Redaction.InsertWithStart` | backend/app/firewall/policy_engine.py:198 | one insertion step keeps the risks with a given start in their order and places the new one after them |
| `Redaction.SortStable` | backend/app/firewall/policy_engine.py:198 | sorting keeps the risks with equal start in their original order (stability) |
| `Redaction.InsertAfterLast` | backend/app/firewall/policy_engine.py:198 | a risk starting no earlier than the last is appended |
| `Redaction.SortedMembers` | backend/app/firewall/policy_engine.py:198 | sorting introduces no risk that was not given |
| `Redaction.PyIndex` | backend/app/firewall/policy_engine.py:208 | a slice bound lands in `[0, n]` and is itself when already in range |
| `Redaction.Step` | backend/app/firewall/policy_engine.py:200-209 | a risk whose shifted span leaves the text is skipped without change; an ordered span keeps `len(redacted) - offset` |
| `Redaction.Redacted` | backend/app/firewall/policy_engine.py:192-193 | no risks leave the text unchanged |
| `Redaction.RedactAllKeepsDrift` | backend/app/firewall/policy_engine.py:200-209 | over ordered spans the loop keeps `len(redacted) == len(text) + offset` |
| `Redaction.SpliceIsStep` | backend/app/firewall/policy_engine.py:201-209 | the in-loop splice and offset update are one `Step` |
| `Redaction.RedactText` | backend/app/firewall/policy_engine.py:177-211 | the loop over the sorted risks computes `Redacted` |
| `Redaction.ChainSorted` | backend/app/firewall/policy_engine.py:198 | spans in sequence without overlap are already sorted by start |
| `Redaction.RedactAllChain` | backend/app/firewall/policy_engine.py:200-209 | over non-overlapping in-bounds spans each iteration keeps the untouched gap text and adds one placeholder |
| `Redaction.RedactNonOverlapping` | backend/app/firewall/policy_engine.py:192-211 | for start-sorted, non-overlapping, in-bounds spans the output is the original gaps interleaved with the placeholders |
| `Explanation.Distinct` | backend/app/firewall/policy_engine.py:245 | the distinct pattern names hold each name once and exactly the names given |
| `Explanation.DistinctFirstSeen` | backend/app/firewall/policy_engine.py:245 | the distinct names come in first-seen order |
| `Explanation.OfKind` | backend/app/firewall/policy_engine.py:231-235 | a group holds only risks of its type, and is empty iff no risk has that type |
| `Explanation.OfKindCounts` | backend/app/firewall/policy_engine.py:231-235 | a group holds each risk of its type as many times as it occurs, and nothing else |
| `Explanation.InKindOrder` | backend/app/firewall/policy_engine.py:231-235 | a type is a key of the dict iff some risk has it |
| `Explanation.KindOrderFirstSeen` | backend/app/firewall/policy_engine.py:231-237 | the keys come once each, one per type that occurs, in first-seen order |
| `Explanation.GroupsSnoc` | backend/app/firewall/policy_engine.py:232-235 | one more risk starts a new group for a new type or is appended to its type's group |
| `Explanation.KindOrderSnoc` | backend/app/firewall/policy_engine.py:233-234 | one more risk adds its type as the last key when the type is new |
| `Explanation.GroupByKind` | backend/app/firewall/policy_engine.py:231-235 | the first loop builds the dict of groups and its key order |
| `Explanation.ReportedSnoc` | backend/app/firewall/policy_engine.py:237-249 | one more key adds its group's clause, if it has one, after the earlier clauses |
| `Explanation.ReportClauses` | backend/app/firewall/policy_engine.py:237-249 | the second loop renders the clauses in key order |
| `Explanation.GenerateExplanation` | backend/app/firewall/policy_engine.py:213-251 | the method computes `ExplanationText` |
| `Explanation.Render` | backend/app/firewall/policy_engine.py:240-248 | every clause starts with "Detected " |
| `Explanation.InjectionClauseFirstThree` | backend/app/firewall/policy_engine.py:239-243 | an injection clause counts its group and lists the explanations of its first three risks (all when fewer) |
| `Explanation.DataClauseNames` | backend/app/firewall/policy_engine.py:244-249 | a PII/PHI clause counts its group and names each of its pattern names exactly once |
| `Explanation.Reportable` | backend/app/firewall/policy_engine.py:237-249 | the types that yield a clause are exactly the keys other than unmapped types, in key order and without repeats |
| `Explanation.OneClausePerReportableKind` | backend/app/firewall/policy_engine.py:237-251 | one clause per injection, PII or PHI group, in key order, each the rendering of that group's clause |
| `Explanation.NoRisksMessageIffNoRisks` | backend/app/firewall/policy_engine.py:226-251 | the no-risk message is returned iff there are no risks |
| `Explanation.ReportedStartsWithDetected` | backend/app/firewall/policy_engine.py:240-248 | every clause is non-empty and starts with 'D' |
| `Explanation.OnlyUnreportableRisks` | backend/app/firewall/policy_engine.py:237-251 | risks only of other types give the empty explanation |
| `FirewallCore.Process` | backend/app/firewall/firewall_core.py:26-106 | id and timestamp are passed through; one report entry per risk of either side; an absent or empty response gives no `responseModified`; an absent or empty prompt is returned as given |
| `FirewallCore.ProcessDecidesAndRewritesPerSide` | backend/app/firewall/firewall_core.py:46-79 | the decision is `determine_action` on both sides' risks; on redact each side is redacted with its own risks only, and a side with no risks is unchanged (prompt as given, response as given or absent); on block each given text becomes "[BLOCKED]"; on warn/allow the texts pass through |
| `FirewallCore.SideRisks` | backend/app/firewall/firewall_core.py:46-57 | an absent or empty text has no risks; a given text has its PII risks followed by its injection risks |
| `FirewallCore.Rewrite` | backend/app/firewall/firewall_core.py:67-79 | an absent or empty text is kept as given; otherwise block gives "[BLOCKED]", redact with risks gives the redacted text, and redact without risks, warn and allow keep the text |
| `FirewallCore.ResponseRewriteIgnoresPrompt` | backend/app/firewall/firewall_core.py:67-97 | for a fixed decision the response's rewrite does not depend on the prompt or its risks |
| `FirewallCore.PromptRewriteIgnoresResponse` | backend/app/firewall/firewall_core.py:67-79 | for a fixed decision the prompt's rewrite does not depend on the response or its risks |
| `FirewallCore.ReportMirrorsRisks` | backend/app/firewall/firewall_core.py:59-92 | the report has one entry per risk, prompt risks first, copying type, severity, match, start, end and explanation; the explanation is generated from the same list |
| `FirewallCore.CleanTextAllowed` | backend/app/firewall/firewall_core.py:46-97 | with no risks found the decision is allow, the texts are unchanged, the report is empty and the no-risk message is given, whatever the rules |
| `FirewallCore.InjectionBlocks` | backend/app/firewall/firewall_core.py:49-79 | without rules an injection found in the prompt blocks: prompt and any response become "[BLOCKED]" |
| `FirewallCore.HighRiskBlocks` | backend/app/firewall/firewall_core.py:46-79 | without rules a high-severity risk on either side blocks both given texts |
| `FirewallCore.EmailRedacted` | backend/app/firewall/firewall_core.py:46-97 | without rules a prompt whose only risk is one medium e-mail span is redacted to the text around it with "[EMAIL_REDACTED]" in between, and there is no response |
| `FirewallCore.MediumOnlyRedacts` | backend/app/firewall/policy_engine.py:46-66 | a single medium, non-injection risk gives redact |
| `FirewallCore.SingleRedaction` | backend/app/firewall/policy_engine.py:192-211 | redacting one in-bounds span replaces exactly that span by its placeholder |
| `FirewallCore.EmailToken` | backend/app/firewall/policy_engine.py:207 | the e-mail placeholder is "[EMAIL_REDACTED]" |

## Left out

- Detectors: the PII and injection detectors (`backend/app/firewall/pii_detector.py`, `backend/app/firewall/injection_detector.py`) run a foreign regex engine. What they find in each text is an input (`Scan`). End-to-end lemmas state the detector facts they need (an injection risk has type PROMPT_INJECTION, an e-mail risk is medium PII) as preconditions.
- Regular expressions: compiling and searching a custom rule's pattern is an oracle parameter that answers found, not found or compile error.
- Case mapping: `lower()` and `upper()` are modelled for ASCII letters only; Unicode case mapping is not.
- Request id and timestamp: `uuid.uuid4()` and the clock are inputs to `Process`.
- Explanation.DataClauseNames: Python's `set` of pattern names has no specified order; the model lists them in first-seen order and states only that each name appears exactly once.
- Rules: `None` and an empty list behave alike, so the rules are one sequence.
- RedactText: the relation `len(redacted) == len(text) + offset` is proved about the specification function (`RedactAllKeepsDrift`), for spans with start not after end, rather than carried as a loop invariant. With start after end, Python's clamping of slices breaks the relation.
- Redaction of overlapping spans is modelled as written, but no property is stated about its output. It can corrupt earlier placeholders.
- The matched text not appearing in the redacted output is not stated: the same text can occur elsewhere in the input.
- `FirewallCore` is a class whose fields never change after construction. Its `process` is therefore a function.
- The `apply_policy_rules` inner loop is its own method, `MatchingRules`. `generate_explanation`'s two loops are the methods `GroupByKind` and `ReportClauses`.
- Timing (the wall-clock performance test) cannot be expressed.
- Web routes, database, authentication, schemas and configuration are not part of this model.
