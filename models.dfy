/** The value types the firewall core works on: the enumerations of `app/models.py`,
    the risk record both detectors emit, the custom policy rule, and the outcome of
    the regular-expression engine that rule matching consults. */
module Models {

  datatype Option<T> = None | Some(value: T)

  /** A rule's risk type (`RiskType` in `app/models.py`). */
  datatype RiskType = PII | PHI | PromptInjection | Other

  /** A `risk_type` string other than the three the policy engine maps. */
  type OtherKindTag = t: string | t != "PII" && t != "PHI" && t != "PROMPT_INJECTION" witness "OTHER"

  /** The `risk_type` string a detector writes into a risk. The three strings the
      policy engine maps to a `RiskType` ("PII", "PHI", "PROMPT_INJECTION") get their
      own variant; `Unmapped(tag)` stands for any other string, "OTHER" included. */
  datatype RiskKind = Pii | Phi | Injection | Unmapped(tag: OtherKindTag)

  /** The risk-type string as the source spells it. */
  function KindName(k: RiskKind): string {
    match k
    case Pii => "PII"
    case Phi => "PHI"
    case Injection => "PROMPT_INJECTION"
    case Unmapped(tag) => tag
  }

  /** A severity string other than "high", "medium" and "low". */
  type OtherSeverityTag = t: string | t != "high" && t != "medium" && t != "low" witness "critical"

  /** A severity ("high", "medium", "low"); `Unrecognized(tag)` stands for any other
      string, which every priority table of the source maps to 0. */
  datatype Severity = High | Medium | Low | Unrecognized(tag: OtherSeverityTag)

  /** A firewall decision. The policy engine's own `Decision` and the one in
      `app/models.py` are string enums with the same values, so they are one type. */
  datatype Decision = Block | Redact | Warn | Allow

  /** A `pattern_type` string other than "regex" and "keyword". */
  type OtherPatternTag = t: string | t != "regex" && t != "keyword" witness "glob"

  /** A rule's `pattern_type` string: "regex", "keyword" or anything else. */
  datatype PatternType = Regex | Keyword | OtherPattern(tag: OtherPatternTag)

  /** One detected occurrence (`RiskMatch` of either detector). */
  datatype Risk = Risk(
    kind: RiskKind,
    patternName: string,
    matched: string,
    start: int,
    end: int,
    severity: Severity,
    explanation: string)

  /** A custom policy rule (`PolicyRule` in `app/models.py`, without its database
      bookkeeping columns). */
  datatype Rule = Rule(
    name: string,
    riskType: RiskType,
    pattern: string,
    patternType: PatternType,
    severity: Severity,
    action: Decision,
    enabled: bool)

  /** What compiling a pattern case-insensitively and searching a subject with it
      gives: a match, no match, or a compile error. */
  datatype RegexOutcome = Found | NotFound | CompileError

  /** The regular-expression engine, seen from outside: pattern, subject -> outcome. */
  type RegexOracle = (string, string) -> RegexOutcome
}
