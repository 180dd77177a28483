/** The decision half of `PolicyEngine` (app/firewall/policy_engine.py): the default
    severity policy, the custom-rule path and the orderings both rely on. The class
    holds no state, so its pure members are functions; `apply_policy_rules`, which
    collects matches in nested loops, is a method proved equal to `PolicyDecision`. */
module PolicyEngine {
  import opened Models
  import opened Text

  // ---------------------------------------------------------------------------
  // Orderings
  // ---------------------------------------------------------------------------

  /** The position of the element Python's `max(xs, key=...)` returns, given the keys
      of `xs`: the first position holding the largest key. */
  function FirstMaxIndex(keys: seq<int>): (i: nat)
    requires |keys| > 0
    ensures i < |keys|
    ensures forall j :: 0 <= j < |keys| ==> keys[j] <= keys[i]
    ensures forall j :: 0 <= j < i ==> keys[j] < keys[i]
  {
    if |keys| == 1 then 0
    else
      var m := FirstMaxIndex(keys[..|keys| - 1]);
      if keys[|keys| - 1] > keys[m] then |keys| - 1 else m
  }

  /** The priority tables of `_severity_priority` and `_get_highest_severity`:
      high 3, medium 2, low 1, anything else 0. */
  function SeverityPriority(s: Severity): (p: int)
    ensures 0 <= p <= 3
    ensures p == 3 <==> s == High
    ensures p == 2 <==> s == Medium
    ensures p == 1 <==> s == Low
  {
    match s
    case High => 3
    case Medium => 2
    case Low => 1
    case Unrecognized(_) => 0
  }

  /** The priority table of `_get_strictest_decision`: block 4 > redact 3 > warn 2 > allow 1. */
  function Strictness(d: Decision): (p: int)
    ensures 1 <= p <= 4
    ensures p == 4 <==> d == Block
    ensures p == 3 <==> d == Redact
    ensures p == 2 <==> d == Warn
    ensures p == 1 <==> d == Allow
  {
    match d
    case Block => 4
    case Redact => 3
    case Warn => 2
    case Allow => 1
  }

  /** Severity priorities of the risks, in order. */
  function SeverityKeys(risks: seq<Risk>): seq<int> {
    seq(|risks|, i requires 0 <= i < |risks| => SeverityPriority(risks[i].severity))
  }

  /** Severity priorities of the rules, in order. */
  function RulePriorities(rules: seq<Rule>): seq<int> {
    seq(|rules|, i requires 0 <= i < |rules| => SeverityPriority(rules[i].severity))
  }

  /** Strictness of the decisions, in order. */
  function Strictnesses(ds: seq<Decision>): seq<int> {
    seq(|ds|, i requires 0 <= i < |ds| => Strictness(ds[i]))
  }

  ghost predicate HasSeverity(risks: seq<Risk>, s: Severity) {
    exists i :: 0 <= i < |risks| && risks[i].severity == s
  }

  ghost predicate HasKind(risks: seq<Risk>, k: RiskKind) {
    exists i :: 0 <= i < |risks| && risks[i].kind == k
  }

  /** `_get_highest_severity`: "low" for no risks, otherwise the first severity of
      largest priority. It is high exactly when some risk is high, medium exactly
      when none is high and some is medium, and so on down. */
  function HighestSeverity(risks: seq<Risk>): (s: Severity)
    ensures risks == [] ==> s == Low
    ensures s == High <==> HasSeverity(risks, High)
    ensures risks != [] ==> (s == Medium <==> !HasSeverity(risks, High) && HasSeverity(risks, Medium))
    ensures risks != [] ==>
      (s == Low <==> !HasSeverity(risks, High) && !HasSeverity(risks, Medium) && HasSeverity(risks, Low))
  {
    if risks == [] then Low
    else
      var keys := SeverityKeys(risks);
      var i := FirstMaxIndex(keys);
      assert forall j :: 0 <= j < |risks| ==>
        SeverityPriority(risks[j].severity) <= SeverityPriority(risks[i].severity) by {
        forall j | 0 <= j < |risks| ensures SeverityPriority(risks[j].severity) <= SeverityPriority(risks[i].severity) {
          assert keys[j] == SeverityPriority(risks[j].severity);
        }
      }
      assert HasSeverity(risks, risks[i].severity);
      risks[i].severity
  }

  /** `_get_strictest_decision`: the strictest of a non-empty list of decisions. */
  function StrictestDecision(ds: seq<Decision>): (d: Decision)
    requires ds != []
    ensures d in ds
    ensures forall x :: x in ds ==> Strictness(x) <= Strictness(d)
  {
    var keys := Strictnesses(ds);
    var i := FirstMaxIndex(keys);
    assert forall j :: 0 <= j < |ds| ==> keys[j] == Strictness(ds[j]);
    ds[i]
  }

  // ---------------------------------------------------------------------------
  // Default severity policy
  // ---------------------------------------------------------------------------

  /** The `has_high_pii` test: some PII or PHI risk is high. */
  predicate HasHighDataRisk(risks: seq<Risk>) {
    exists i :: 0 <= i < |risks| && (risks[i].kind == Pii || risks[i].kind == Phi) && risks[i].severity == High
  }

  predicate HasInjection(risks: seq<Risk>)
    ensures HasInjection(risks) <==> HasKind(risks, Injection)
  {
    exists i :: 0 <= i < |risks| && risks[i].kind == Injection
  }

  /** `determine_action(risks, [])`: the default severity policy. Block on any
      injection or any high risk; otherwise redact when the highest severity is
      medium, warn when it is low, allow when there is nothing recognised. The
      `has_high_pii` test of the source never decides: a high PII/PHI risk is a high
      risk, which already blocks. */
  function DefaultDecision(risks: seq<Risk>): (d: Decision)
    ensures risks == [] ==> d == Allow
    ensures d == Block <==> HasKind(risks, Injection) || HasSeverity(risks, High)
    ensures d == Redact <==>
      !HasKind(risks, Injection) && !HasSeverity(risks, High) && HasSeverity(risks, Medium)
    ensures d == Warn <==>
      !HasKind(risks, Injection) && !HasSeverity(risks, High) && !HasSeverity(risks, Medium)
      && HasSeverity(risks, Low)
  {
    if risks == [] then Allow
    else
      var highest := HighestSeverity(risks);
      if HasInjection(risks) || highest == High then Block
      else if HasHighDataRisk(risks) || highest == Medium then Redact
      else if highest == Low then Warn
      else Allow
  }

  // ---------------------------------------------------------------------------
  // Custom rules
  // ---------------------------------------------------------------------------

  /** `risk_type_map.get(risk.risk_type)`. */
  function MappedType(k: RiskKind): (t: Option<RiskType>)
    ensures t == None <==> k.Unmapped?
    ensures t != Some(Other)
  {
    match k
    case Pii => Some(PII)
    case Phi => Some(PHI)
    case Injection => Some(PromptInjection)
    case Unmapped(_) => None
  }

  /** `_risk_matches_rule`: the risk's type must map to the rule's type; then a regex
      rule matches when the engine finds the pattern in the matched text (a compile
      error counts as no match), a keyword rule when the lower-cased pattern occurs in
      the lower-cased matched text, and any other pattern type never matches. */
  function RiskMatchesRule(risk: Risk, rule: Rule, re: RegexOracle): (b: bool)
    ensures risk.kind.Unmapped? || rule.riskType == Other ==> !b
    ensures MappedType(risk.kind) != Some(rule.riskType) ==> !b
    ensures rule.patternType.OtherPattern? ==> !b
    ensures rule.patternType == Regex ==>
      (b <==> MappedType(risk.kind) == Some(rule.riskType) && re(rule.pattern, risk.matched) == Found)
    ensures rule.patternType == Regex && re(rule.pattern, risk.matched) == CompileError ==> !b
    ensures rule.patternType == Keyword ==>
      (b <==> MappedType(risk.kind) == Some(rule.riskType)
              && Occurs(Lower(rule.pattern), Lower(risk.matched)))
  {
    if MappedType(risk.kind) != Some(rule.riskType) then false
    else
      match rule.patternType
      case Regex => re(rule.pattern, risk.matched) == Found
      case Keyword => Contains(Lower(risk.matched), Lower(rule.pattern))
      case OtherPattern(_) => false
  }

  /** `[r for r in policy_rules if r.enabled]`. */
  function Enabled(rules: seq<Rule>): seq<Rule> {
    if rules == [] then []
    else
      var last := rules[|rules| - 1];
      Enabled(rules[..|rules| - 1]) + (if last.enabled then [last] else [])
  }

  /** The `matching_rules` list built for one risk: the rules, in order, that match it. */
  function Matching(risk: Risk, rules: seq<Rule>, re: RegexOracle): seq<Rule> {
    if rules == [] then []
    else
      var last := rules[|rules| - 1];
      Matching(risk, rules[..|rules| - 1], re) + (if RiskMatchesRule(risk, last, re) then [last] else [])
  }

  /** What one risk contributes to `decisions`: the action of its first matching rule of
      highest severity priority, or nothing when no rule matches. */
  function Contribution(risk: Risk, rules: seq<Rule>, re: RegexOracle): Option<Decision> {
    var m := Matching(risk, rules, re);
    if m == [] then None else Some(m[FirstMaxIndex(RulePriorities(m))].action)
  }

  /** The `decisions` list: the contributions of the risks, in order. */
  function Contributions(risks: seq<Risk>, rules: seq<Rule>, re: RegexOracle): seq<Decision> {
    if risks == [] then []
    else
      var c := Contribution(risks[|risks| - 1], rules, re);
      Contributions(risks[..|risks| - 1], rules, re) + (if c.Some? then [c.value] else [])
  }

  /** `apply_policy_rules` as a function: fall back to the default policy when there
      are no risks, no rules, no enabled rule or no match; otherwise the strictest
      contributed action. */
  function PolicyDecision(risks: seq<Risk>, rules: seq<Rule>, re: RegexOracle): Decision {
    if risks == [] || rules == [] then DefaultDecision(risks)
    else
      var enabled := Enabled(rules);
      if enabled == [] then DefaultDecision(risks)
      else
        var ds := Contributions(risks, enabled, re);
        if ds == [] then DefaultDecision(risks) else StrictestDecision(ds)
  }

  /** The inner loop of `apply_policy_rules`: the rules that match `risk`, in order. */
  method MatchingRules(risk: Risk, rules: seq<Rule>, re: RegexOracle) returns (matching: seq<Rule>)
    ensures matching == Matching(risk, rules, re)
  {
    matching := [];
    for j := 0 to |rules|
      invariant matching == Matching(risk, rules[..j], re)
    {
      if RiskMatchesRule(risk, rules[j], re) {
        matching := matching + [rules[j]];
      }
      assert rules[..j + 1][..j] == rules[..j];
    }
    assert rules[..|rules|] == rules;
  }

  /** `apply_policy_rules`, with its loops over risks and enabled rules. */
  method ApplyPolicyRules(risks: seq<Risk>, rules: seq<Rule>, re: RegexOracle) returns (d: Decision)
    ensures d == PolicyDecision(risks, rules, re)
  {
    PolicyDecisionByCases(risks, rules, re);
    if |risks| == 0 || |rules| == 0 {
      return DefaultDecision(risks);
    }
    var enabled := Enabled(rules);
    if |enabled| == 0 {
      return DefaultDecision(risks);
    }
    var decisions: seq<Decision> := [];
    for i := 0 to |risks|
      invariant decisions == Contributions(risks[..i], enabled, re)
    {
      var risk := risks[i];
      var matching := MatchingRules(risk, enabled, re);
      ContributionsSnoc(risks, i, enabled, re);
      if |matching| > 0 {
        var best := matching[FirstMaxIndex(RulePriorities(matching))];
        decisions := decisions + [best.action];
      }
    }
    assert risks[..|risks|] == risks;
    if |decisions| == 0 {
      return DefaultDecision(risks);
    }
    d := StrictestDecision(decisions);
  }

  /** The two ways `PolicyDecision` can go. */
  lemma PolicyDecisionByCases(risks: seq<Risk>, rules: seq<Rule>, re: RegexOracle)
    ensures risks == [] || rules == [] || Enabled(rules) == [] || Contributions(risks, Enabled(rules), re) == [] ==>
      PolicyDecision(risks, rules, re) == DefaultDecision(risks)
    ensures risks != [] && rules != [] && Enabled(rules) != [] && Contributions(risks, Enabled(rules), re) != [] ==>
      PolicyDecision(risks, rules, re) == StrictestDecision(Contributions(risks, Enabled(rules), re))
  {
  }

  /** One more risk adds its contribution, if any, to the `decisions` list. */
  lemma ContributionsSnoc(risks: seq<Risk>, i: int, rules: seq<Rule>, re: RegexOracle)
    requires 0 <= i < |risks|
    ensures var c := Contribution(risks[i], rules, re);
      Contributions(risks[..i + 1], rules, re) ==
        Contributions(risks[..i], rules, re) + (if c.Some? then [c.value] else [])
  {
    assert risks[..i + 1][..i] == risks[..i];
  }

  /** `determine_action`: allow when neither side has a risk (whatever the rules), the
      custom-rule path on the combined risks when rules are supplied, and the default
      policy otherwise. `None` and `[]` for the rules behave alike, so the rules are a
      plain sequence. */
  function DetermineAction(promptRisks: seq<Risk>, responseRisks: seq<Risk>, rules: seq<Rule>, re: RegexOracle)
    : (d: Decision)
    ensures promptRisks + responseRisks == [] ==> d == Allow
    ensures rules == [] ==> d == DefaultDecision(promptRisks + responseRisks)
    ensures rules != [] ==> d == PolicyDecision(promptRisks + responseRisks, rules, re)
  {
    var all := promptRisks + responseRisks;
    if all == [] then Allow
    else if rules != [] then PolicyDecision(all, rules, re)
    else DefaultDecision(all)
  }

  // ---------------------------------------------------------------------------
  // Properties of the custom-rule path
  // ---------------------------------------------------------------------------

  /** The enabled rules are the rules that are enabled. */
  lemma {:induction false} EnabledMembers(rules: seq<Rule>)
    ensures forall r :: r in Enabled(rules) <==> r in rules && r.enabled
  {
    if rules != [] {
      var pre := rules[..|rules| - 1];
      EnabledMembers(pre);
      assert rules == pre + [rules[|rules| - 1]];
    }
  }

  /** The matching rules are the rules that match. */
  lemma {:induction false} MatchingMembers(risk: Risk, rules: seq<Rule>, re: RegexOracle)
    ensures forall r :: r in Matching(risk, rules, re) <==> r in rules && RiskMatchesRule(risk, r, re)
  {
    if rules != [] {
      var pre := rules[..|rules| - 1];
      MatchingMembers(risk, pre, re);
      assert rules == pre + [rules[|rules| - 1]];
    }
  }

  /** A rule that applies to a risk is among the enabled rules that match it. */
  lemma ApplyingRuleIsMatched(risk: Risk, rules: seq<Rule>, re: RegexOracle, j: int)
    requires 0 <= j < |rules| && Applies(risk, rules[j], re)
    ensures rules[j] in Matching(risk, Enabled(rules), re)
  {
    EnabledMembers(rules);
    MatchingMembers(risk, Enabled(rules), re);
  }

  /** When no enabled rule matches a risk, no rule applies to it. */
  lemma NoRuleApplies(risk: Risk, rules: seq<Rule>, re: RegexOracle)
    requires Matching(risk, Enabled(rules), re) == []
    ensures forall j :: 0 <= j < |rules| ==> !Applies(risk, rules[j], re)
  {
    EnabledMembers(rules);
    MatchingMembers(risk, Enabled(rules), re);
    assert forall j :: 0 <= j < |rules| ==> rules[j] in rules;
  }

  /** A rule that can take part for `risk`: enabled, and matching it. */
  ghost predicate Applies(risk: Risk, rule: Rule, re: RegexOracle) {
    rule.enabled && RiskMatchesRule(risk, rule, re)
  }

  /** `rules[k]` is the rule whose action `risk` contributes: it applies, no applying
      rule has a higher severity priority, and every earlier applying rule a lower one. */
  ghost predicate IsWinningRule(risk: Risk, rules: seq<Rule>, re: RegexOracle, k: int) {
    && 0 <= k < |rules|
    && Applies(risk, rules[k], re)
    && (forall j :: 0 <= j < |rules| && Applies(risk, rules[j], re) ==>
          SeverityPriority(rules[j].severity) <= SeverityPriority(rules[k].severity))
    && (forall j :: 0 <= j < k && Applies(risk, rules[j], re) ==>
          SeverityPriority(rules[j].severity) < SeverityPriority(rules[k].severity))
  }

  /** Appending one decision key extends `FirstMaxIndex` as the scan of `max` does. */
  lemma FirstMaxIndexSnoc(keys: seq<int>, k: int)
    requires keys != []
    ensures FirstMaxIndex(keys + [k]) ==
      if k > keys[FirstMaxIndex(keys)] then |keys| else FirstMaxIndex(keys)
  {
    assert (keys + [k])[..|keys|] == keys;
  }

  /** The enabled rules that match a risk, computed by the source's two filters, gain
      the last rule exactly when that rule applies. */
  lemma MatchingEnabledSnoc(risk: Risk, rules: seq<Rule>, re: RegexOracle)
    requires rules != []
    ensures var last := rules[|rules| - 1];
      Matching(risk, Enabled(rules), re) ==
        Matching(risk, Enabled(rules[..|rules| - 1]), re) + (if Applies(risk, last, re) then [last] else [])
  {
    var last := rules[|rules| - 1];
    var e := Enabled(rules[..|rules| - 1]);
    if last.enabled {
      assert Enabled(rules) == e + [last];
      assert (e + [last])[..|e|] == e;
      assert Matching(risk, e + [last], re) ==
        Matching(risk, e, re) + (if RiskMatchesRule(risk, last, re) then [last] else []);
    } else {
      assert Enabled(rules) == e + [];
      assert e + [] == e;
    }
  }

  /** Extending the rule list by one rule moves the winner to that rule exactly when
      it applies with a strictly higher severity priority. */
  lemma WinningRuleSnoc(risk: Risk, rules: seq<Rule>, re: RegexOracle, k: int)
    requires rules != []
    requires IsWinningRule(risk, rules[..|rules| - 1], re, k)
    ensures var last := rules[|rules| - 1];
      if Applies(risk, last, re) && SeverityPriority(last.severity) > SeverityPriority(rules[k].severity)
      then IsWinningRule(risk, rules, re, |rules| - 1)
      else IsWinningRule(risk, rules, re, k)
  {
    var last := rules[|rules| - 1];
    if Applies(risk, last, re) && SeverityPriority(last.severity) > SeverityPriority(rules[k].severity) {
      WinnerMovesToLast(risk, rules, re, k);
    } else {
      WinnerStays(risk, rules, re, k);
    }
  }

  /** `WinningRuleSnoc` when the last rule applies with a higher priority. */
  lemma WinnerMovesToLast(risk: Risk, rules: seq<Rule>, re: RegexOracle, k: int)
    requires rules != []
    requires IsWinningRule(risk, rules[..|rules| - 1], re, k)
    requires Applies(risk, rules[|rules| - 1], re)
    requires SeverityPriority(rules[|rules| - 1].severity) > SeverityPriority(rules[k].severity)
    ensures IsWinningRule(risk, rules, re, |rules| - 1)
  {
    var pre := rules[..|rules| - 1];
    forall j | 0 <= j < |pre| && Applies(risk, rules[j], re)
      ensures SeverityPriority(rules[j].severity) < SeverityPriority(rules[|rules| - 1].severity)
    {
      assert pre[j] == rules[j];
    }
  }

  /** `WinningRuleSnoc` when the winner stays. */
  lemma WinnerStays(risk: Risk, rules: seq<Rule>, re: RegexOracle, k: int)
    requires rules != []
    requires IsWinningRule(risk, rules[..|rules| - 1], re, k)
    requires !Applies(risk, rules[|rules| - 1], re)
      || SeverityPriority(rules[|rules| - 1].severity) <= SeverityPriority(rules[k].severity)
    ensures IsWinningRule(risk, rules, re, k)
  {
    var pre := rules[..|rules| - 1];
    forall j | 0 <= j < |pre| && Applies(risk, rules[j], re)
      ensures SeverityPriority(rules[j].severity) <= SeverityPriority(rules[k].severity)
    {
      assert pre[j] == rules[j];
    }
    forall j | 0 <= j < k && Applies(risk, rules[j], re)
      ensures SeverityPriority(rules[j].severity) < SeverityPriority(rules[k].severity)
    {
      assert pre[j] == rules[j];
    }
  }

  /** The rule chosen for a risk among the enabled rules is the first applying rule of
      highest severity priority in the original list. */
  lemma {:induction false} ChosenRuleIsWinning(risk: Risk, rules: seq<Rule>, re: RegexOracle)
    requires Matching(risk, Enabled(rules), re) != []
    ensures var m := Matching(risk, Enabled(rules), re);
      exists k :: IsWinningRule(risk, rules, re, k) && rules[k] == m[FirstMaxIndex(RulePriorities(m))]
  {
    var n := |rules|;
    var pre := rules[..n - 1];
    var last := rules[n - 1];
    var m := Matching(risk, Enabled(rules), re);
    var mp := Matching(risk, Enabled(pre), re);
    MatchingEnabledSnoc(risk, rules, re);
    if mp == [] {
      ChosenRuleFirst(risk, rules, re);
    } else {
      ChosenRuleIsWinning(risk, pre, re);
      var k :| IsWinningRule(risk, pre, re, k) && pre[k] == mp[FirstMaxIndex(RulePriorities(mp))];
      assert pre[k] == rules[k];
      ChosenRuleStep(risk, rules, re, k);
    }
  }

  /** `ChosenRuleIsWinning` when only the last rule applies. */
  lemma ChosenRuleFirst(risk: Risk, rules: seq<Rule>, re: RegexOracle)
    requires rules != []
    requires Matching(risk, Enabled(rules[..|rules| - 1]), re) == []
    requires Matching(risk, Enabled(rules), re) != []
    ensures var m := Matching(risk, Enabled(rules), re);
      IsWinningRule(risk, rules, re, |rules| - 1) && rules[|rules| - 1] == m[FirstMaxIndex(RulePriorities(m))]
  {
    var n := |rules|;
    var pre := rules[..n - 1];
    var last := rules[n - 1];
    var m := Matching(risk, Enabled(rules), re);
    MatchingEnabledSnoc(risk, rules, re);
    assert Applies(risk, last, re) && m == [last];
    assert |RulePriorities(m)| == 1;
    NoRuleAppliesBefore(risk, rules, re);
  }

  /** When no enabled rule of `rules` but the last matches a risk, no rule before the
      last applies to it. */
  lemma NoRuleAppliesBefore(risk: Risk, rules: seq<Rule>, re: RegexOracle)
    requires rules != []
    requires Matching(risk, Enabled(rules[..|rules| - 1]), re) == []
    ensures forall j :: 0 <= j < |rules| - 1 ==> !Applies(risk, rules[j], re)
  {
    var pre := rules[..|rules| - 1];
    NoRuleApplies(risk, pre, re);
    assert forall j :: 0 <= j < |rules| - 1 ==> pre[j] == rules[j];
  }

  /** The inductive step of `ChosenRuleIsWinning`. */
  lemma ChosenRuleStep(risk: Risk, rules: seq<Rule>, re: RegexOracle, k: int)
    requires rules != []
    requires var mp := Matching(risk, Enabled(rules[..|rules| - 1]), re);
      mp != [] && IsWinningRule(risk, rules[..|rules| - 1], re, k)
      && rules[k] == mp[FirstMaxIndex(RulePriorities(mp))]
    ensures var m := Matching(risk, Enabled(rules), re);
      m != [] && exists k' :: IsWinningRule(risk, rules, re, k') && rules[k'] == m[FirstMaxIndex(RulePriorities(m))]
  {
    var n := |rules|;
    var last := rules[n - 1];
    var mp := Matching(risk, Enabled(rules[..n - 1]), re);
    var m := Matching(risk, Enabled(rules), re);
    MatchingEnabledSnoc(risk, rules, re);
    WinningRuleSnoc(risk, rules, re, k);
    if Applies(risk, last, re) {
      assert m == mp + [last];
      ChosenSnoc(mp, last);
      if SeverityPriority(last.severity) > SeverityPriority(rules[k].severity) {
        assert IsWinningRule(risk, rules, re, n - 1);
      } else {
        assert IsWinningRule(risk, rules, re, k);
      }
    } else {
      assert m == mp;
      assert IsWinningRule(risk, rules, re, k);
    }
  }

  /** Appending a rule to a non-empty list of matching rules: the chosen rule moves to
      the new one exactly when its severity priority beats the chosen one's. */
  lemma ChosenSnoc(ms: seq<Rule>, last: Rule)
    requires ms != []
    ensures var best := ms[FirstMaxIndex(RulePriorities(ms))];
      var m := ms + [last];
      m[FirstMaxIndex(RulePriorities(m))]
        == if SeverityPriority(last.severity) > SeverityPriority(best.severity) then last else best
  {
    var kp := RulePriorities(ms);
    var p := SeverityPriority(last.severity);
    assert RulePriorities(ms + [last]) == kp + [p];
    FirstMaxIndexSnoc(kp, p);
  }

  /** At most one rule wins. */
  lemma WinningRuleUnique(risk: Risk, rules: seq<Rule>, re: RegexOracle, k1: int, k2: int)
    requires IsWinningRule(risk, rules, re, k1) && IsWinningRule(risk, rules, re, k2)
    ensures k1 == k2
  {
  }

  /** What a risk contributes under a rule list: the action of the winning rule when
      some enabled rule matches it, nothing otherwise. */
  lemma ContributionIsWinningAction(risk: Risk, rules: seq<Rule>, re: RegexOracle)
    ensures Contribution(risk, Enabled(rules), re) == None <==>
      forall j :: 0 <= j < |rules| ==> !Applies(risk, rules[j], re)
    ensures forall a :: Contribution(risk, Enabled(rules), re) == Some(a) <==>
      exists k :: IsWinningRule(risk, rules, re, k) && rules[k].action == a
  {
    var m := Matching(risk, Enabled(rules), re);
    if m != [] {
      ChosenRuleIsWinning(risk, rules, re);
      var k :| IsWinningRule(risk, rules, re, k) && rules[k] == m[FirstMaxIndex(RulePriorities(m))];
      forall k2 | IsWinningRule(risk, rules, re, k2) ensures k2 == k {
        WinningRuleUnique(risk, rules, re, k, k2);
      }
    } else {
      NoRuleApplies(risk, rules, re);
    }
  }

  /** One action is in the `decisions` list exactly when some risk contributes it. */
  lemma {:induction false} ContributionsMember(risks: seq<Risk>, rules: seq<Rule>, re: RegexOracle, a: Decision)
    ensures a in Contributions(risks, rules, re) <==>
      exists i :: 0 <= i < |risks| && Contribution(risks[i], rules, re) == Some(a)
  {
    if risks != [] {
      var pre := risks[..|risks| - 1];
      ContributionsMember(pre, rules, re, a);
      var c := Contribution(risks[|risks| - 1], rules, re);
      if a in Contributions(pre, rules, re) {
        var i :| 0 <= i < |pre| && Contribution(pre[i], rules, re) == Some(a);
        assert risks[i] == pre[i];
      } else if c != Some(a) {
        forall i | 0 <= i < |risks| ensures Contribution(risks[i], rules, re) != Some(a) {
          if i < |pre| {
            assert risks[i] == pre[i];
            assert !(0 <= i < |pre| && Contribution(pre[i], rules, re) == Some(a));
          } else {
            assert risks[i] == risks[|risks| - 1];
          }
        }
      }
    }
  }

  /** The `decisions` list holds exactly the contributions of the risks. */
  lemma ContributionsMembers(risks: seq<Risk>, rules: seq<Rule>, re: RegexOracle)
    ensures forall a :: a in Contributions(risks, rules, re) <==>
      exists i :: 0 <= i < |risks| && Contribution(risks[i], rules, re) == Some(a)
  {
    forall a ensures a in Contributions(risks, rules, re) <==>
      exists i :: 0 <= i < |risks| && Contribution(risks[i], rules, re) == Some(a)
    {
      ContributionsMember(risks, rules, re, a);
    }
  }

  /** Every fallback of `apply_policy_rules` gives the default-policy decision: no
      risks, no rules, no enabled rule, or no enabled rule matching any risk. */
  lemma PolicyFallsBackToDefault(risks: seq<Risk>, rules: seq<Rule>, re: RegexOracle)
    requires || risks == []
             || rules == []
             || (forall j :: 0 <= j < |rules| ==> !rules[j].enabled)
             || (forall i, j :: 0 <= i < |risks| && 0 <= j < |rules| ==> !Applies(risks[i], rules[j], re))
    ensures PolicyDecision(risks, rules, re) == DefaultDecision(risks)
  {
    if risks != [] && rules != [] && Enabled(rules) != [] {
      var ds := Contributions(risks, Enabled(rules), re);
      if ds != [] {
        ContributionsMembers(risks, Enabled(rules), re);
        var i :| 0 <= i < |risks| && Contribution(risks[i], Enabled(rules), re) == Some(ds[0]);
        ContributionIsWinningAction(risks[i], rules, re);
        assert false;
      }
    }
  }

  /** When some enabled rule matches some risk, the decision is the action one risk
      contributes, and no risk contributes a stricter one. Risks that match no rule
      contribute nothing, so the result can be laxer than the default policy. */
  lemma PolicyIsStrictestContribution(risks: seq<Risk>, rules: seq<Rule>, re: RegexOracle)
    requires exists i, j :: 0 <= i < |risks| && 0 <= j < |rules| && Applies(risks[i], rules[j], re)
    ensures var d := PolicyDecision(risks, rules, re);
      && (exists i :: 0 <= i < |risks| && Contribution(risks[i], Enabled(rules), re) == Some(d))
      && (forall i, a :: 0 <= i < |risks| && Contribution(risks[i], Enabled(rules), re) == Some(a) ==>
            Strictness(a) <= Strictness(d))
  {
    var i, j :| 0 <= i < |risks| && 0 <= j < |rules| && Applies(risks[i], rules[j], re);
    var en := Enabled(rules);
    ApplyingRuleIsMatched(risks[i], rules, re, j);
    assert en != [];
    var c := Contribution(risks[i], en, re);
    assert c.Some?;
    var ds := Contributions(risks, en, re);
    ContributionsMembers(risks, en, re);
    assert c.value in ds;
    var d := StrictestDecision(ds);
    assert PolicyDecision(risks, rules, re) == d;
  }

  /** Disabled rules never affect the decision: rule lists with the same enabled rules
      decide alike. */
  lemma DisabledRulesIgnored(risks: seq<Risk>, rules1: seq<Rule>, rules2: seq<Rule>, re: RegexOracle)
    requires Enabled(rules1) == Enabled(rules2)
    ensures PolicyDecision(risks, rules1, re) == PolicyDecision(risks, rules2, re)
  {
  }

  /** Risks that contribute nothing leave the `decisions` list as it was. */
  lemma {:induction false} ContributionsIgnoreUnmatched(risks: seq<Risk>, extra: seq<Risk>, rules: seq<Rule>, re: RegexOracle)
    requires forall i :: 0 <= i < |extra| ==> Contribution(extra[i], rules, re) == None
    ensures Contributions(risks + extra, rules, re) == Contributions(risks, rules, re)
  {
    if extra == [] {
      assert risks + extra == risks;
    } else {
      var pre := extra[..|extra| - 1];
      assert (risks + extra)[..|risks + extra| - 1] == risks + pre;
      assert (risks + extra)[|risks + extra| - 1] == extra[|extra| - 1];
      ContributionsIgnoreUnmatched(risks, pre, rules, re);
    }
  }

  /** Risks that match no enabled rule are ignored once some risk matches, so the
      decision can be laxer than the default policy would give for all the risks. */
  lemma UnmatchedRisksIgnored(risks: seq<Risk>, extra: seq<Risk>, rules: seq<Rule>, re: RegexOracle)
    requires exists i, j :: 0 <= i < |risks| && 0 <= j < |rules| && Applies(risks[i], rules[j], re)
    requires forall i, j :: 0 <= i < |extra| && 0 <= j < |rules| ==> !Applies(extra[i], rules[j], re)
    ensures PolicyDecision(risks + extra, rules, re) == PolicyDecision(risks, rules, re)
  {
    var en := Enabled(rules);
    forall i | 0 <= i < |extra| ensures Contribution(extra[i], en, re) == None {
      ContributionIsWinningAction(extra[i], rules, re);
    }
    ContributionsIgnoreUnmatched(risks, extra, en, re);
    var i, j :| 0 <= i < |risks| && 0 <= j < |rules| && Applies(risks[i], rules[j], re);
    ApplyingRuleIsMatched(risks[i], rules, re, j);
    ContributionsMembers(risks, en, re);
    assert Contribution(risks[i], en, re).Some?;
    assert Contributions(risks, en, re) != [];
  }

  /** One enabled keyword rule for PII whose keyword occurs in a PII risk's text, with
      action block, blocks that risk; the same rule disabled gives back the
      default-policy decision. */
  lemma KeywordRuleRoundTrip(risk: Risk, rule: Rule, re: RegexOracle)
    requires risk.kind == Pii
    requires rule.riskType == PII && rule.patternType == Keyword && rule.action == Block && rule.enabled
    requires Contains(Lower(risk.matched), Lower(rule.pattern))
    ensures PolicyDecision([risk], [rule], re) == Block
    ensures PolicyDecision([risk], [rule.(enabled := false)], re) == DefaultDecision([risk])
  {
    assert Enabled([rule]) == [rule];
    assert Matching(risk, [rule], re) == [rule];
    assert Contributions([risk], [rule], re) == [Block];
    assert Enabled([rule.(enabled := false)]) == [];
  }
}
