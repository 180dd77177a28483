/** `PolicyEngine.generate_explanation` (app/firewall/policy_engine.py): group the risks
    by type in first-seen order, then emit one clause per prompt-injection, PII or PHI
    group, joined by "; ". */
module Explanation {
  import opened Models
  import opened Text

  /** The explanation for an empty risk list. */
  const NoRisksMessage: string := "No security risks detected. Request allowed."

  // ---------------------------------------------------------------------------
  // First-seen distinct elements
  // ---------------------------------------------------------------------------

  ghost predicate NoDuplicates<T>(s: seq<T>) {
    forall p, q :: 0 <= p < q < |s| ==> s[p] != s[q]
  }

  /** The distinct elements of `s` in order of first occurrence: the key order of a
      Python dict filled from `s`, and the order chosen here for a Python `set`. */
  function Distinct<T(==,!new)>(s: seq<T>): (d: seq<T>)
    ensures NoDuplicates(d)
    ensures forall x :: x in d <==> x in s
  {
    if s == [] then []
    else
      var front := Distinct(s[..|s| - 1]);
      assert forall x :: x in s <==> x in s[..|s| - 1] || x == s[|s| - 1] by {
        assert s == s[..|s| - 1] + [s[|s| - 1]];
      }
      if s[|s| - 1] in front then front else front + [s[|s| - 1]]
  }

  /** `d` lists its elements in order of their first occurrence in `s`: every
      occurrence of a later element of `d` is preceded by one of each earlier element. */
  ghost predicate FirstSeen<T>(s: seq<T>, d: seq<T>) {
    forall p, q, i :: 0 <= p < q < |d| && 0 <= i < |s| && s[i] == d[q] ==> SeenBefore(s, d[p], i)
  }

  /** `x` occurs in `s` before position `i`. */
  ghost predicate SeenBefore<T>(s: seq<T>, x: T, i: int) {
    exists i' :: 0 <= i' < i && i' < |s| && s[i'] == x
  }

  lemma FirstSeenAt<T>(s: seq<T>, d: seq<T>, p: int, q: int, i: int)
    requires FirstSeen(s, d)
    requires 0 <= p < q < |d| && 0 <= i < |s| && s[i] == d[q]
    ensures exists i' :: 0 <= i' < i && s[i'] == d[p]
  {
    assert SeenBefore(s, d[p], i);
  }

  /** `Distinct` keeps first-seen order. */
  lemma {:induction false} DistinctFirstSeen<T(!new)>(s: seq<T>)
    ensures FirstSeen(s, Distinct(s))
  {
    if s != [] {
      var front := s[..|s| - 1];
      var last := s[|s| - 1];
      DistinctFirstSeen(front);
      var d := Distinct(s);
      var df := Distinct(front);
      forall p, q, i | 0 <= p < q < |d| && 0 <= i < |s| && s[i] == d[q]
        ensures exists i' :: 0 <= i' < i && s[i'] == d[p]
      {
        assert d[p] == df[p];
        if i < |s| - 1 && q < |df| {
          assert front[i] == s[i] && d[q] == df[q];
          FirstSeenAt(front, df, p, q, i);
          var i' :| 0 <= i' < i && front[i'] == df[p];
          assert s[i'] == d[p];
        } else if q < |df| {
          assert d[q] == df[q] && df[q] in front;
          var j :| 0 <= j < |front| && front[j] == df[q];
          FirstSeenAt(front, df, p, q, j);
          var i' :| 0 <= i' < j && front[i'] == df[p];
          assert s[i'] == d[p];
        } else {
          assert df[p] in front;
          var i' :| 0 <= i' < |front| && front[i'] == df[p];
          assert d[q] == last && d[q] !in front;
          assert forall j :: 0 <= j < |s| - 1 ==> s[j] == front[j] && front[j] in front;
          assert s[i'] == d[p];
        }
      }
    }
  }


  // ---------------------------------------------------------------------------
  // Grouping by risk type
  // ---------------------------------------------------------------------------

  /** The risk type of each risk, in order. */
  function Kinds(risks: seq<Risk>): (ks: seq<RiskKind>)
    ensures |ks| == |risks|
    ensures forall i :: 0 <= i < |risks| ==> ks[i] == risks[i].kind
  {
    seq(|risks|, i requires 0 <= i < |risks| => risks[i].kind)
  }

  /** The keys of the `risk_types` dict, in insertion order. */
  function KindOrder(risks: seq<Risk>): seq<RiskKind> {
    Distinct(Kinds(risks))
  }

  /** A type is a key exactly when some risk has it. */
  lemma InKindOrder(risks: seq<Risk>, k: RiskKind)
    ensures k in KindOrder(risks) <==> exists i :: 0 <= i < |risks| && risks[i].kind == k
  {
    var ks := Kinds(risks);
    if k in ks {
      var i :| 0 <= i < |ks| && ks[i] == k;
    } else {
      forall i | 0 <= i < |risks| ensures risks[i].kind != k {
        assert ks[i] in ks;
      }
    }
  }

  /** The group `risk_types[k]`: the risks of type `k`, in order. */
  function OfKind(risks: seq<Risk>, k: RiskKind): (g: seq<Risk>)
    ensures forall r :: r in g ==> r.kind == k
    ensures g == [] <==> forall i :: 0 <= i < |risks| ==> risks[i].kind != k
  {
    if risks == [] then []
    else
      var front := OfKind(risks[..|risks| - 1], k);
      var last := risks[|risks| - 1];
      assert forall i :: 0 <= i < |risks| - 1 ==> risks[..|risks| - 1][i] == risks[i];
      if last.kind == k then front + [last] else front
  }

  /** The `risk_types` dict after the first loop. */
  function Groups(risks: seq<Risk>): map<RiskKind, seq<Risk>> {
    map k | k in KindOrder(risks) :: OfKind(risks, k)
  }

  // ---------------------------------------------------------------------------
  // Clauses
  // ---------------------------------------------------------------------------

  /** One clause of the explanation: an injection clause with the count and the
      explanations it lists, or a PII/PHI clause with the count and the pattern names. */
  datatype Clause =
    | InjectionClause(count: nat, explanations: seq<string>)
    | DataClause(kind: RiskKind, count: nat, names: seq<string>)

  /** The f-strings of `generate_explanation`. */
  function Render(c: Clause): (s: string)
    ensures |s| > 9 && s[..9] == "Detected "
  {
    match c
    case InjectionClause(count, explanations) =>
      "Detected " + NatToString(count) + " prompt injection attempt(s): " + Join(", ", explanations)
    case DataClause(kind, count, names) =>
      "Detected " + NatToString(count) + " " + KindName(kind) + " item(s): " + Join(", ", names)
  }

  /** The explanation strings of some risks, in order. */
  function Explanations(rs: seq<Risk>): (es: seq<string>)
    ensures |es| == |rs|
    ensures forall i :: 0 <= i < |rs| ==> es[i] == rs[i].explanation
  {
    seq(|rs|, i requires 0 <= i < |rs| => rs[i].explanation)
  }

  /** The pattern names of some risks, in order. */
  function PatternNames(rs: seq<Risk>): (ns: seq<string>)
    ensures |ns| == |rs|
    ensures forall i :: 0 <= i < |rs| ==> ns[i] == rs[i].patternName
  {
    seq(|rs|, i requires 0 <= i < |rs| => rs[i].patternName)
  }

  /** `type_risks[:3]`. */
  function FirstThree(rs: seq<Risk>): seq<Risk> {
    if |rs| <= 3 then rs else rs[..3]
  }

  /** The clause a group contributes: prompt injection lists the first three
      explanations, PII and PHI the distinct pattern names, any other type nothing. */
  function ClauseFor(k: RiskKind, group: seq<Risk>): Option<Clause> {
    match k
    case Injection => Some(InjectionClause(|group|, Explanations(FirstThree(group))))
    case Pii => Some(DataClause(k, |group|, Distinct(PatternNames(group))))
    case Phi => Some(DataClause(k, |group|, Distinct(PatternNames(group))))
    case Unmapped(_) => None
  }

  /** The `explanations` list built by the second loop, over a prefix of the keys. */
  function Reported(order: seq<RiskKind>, risks: seq<Risk>): seq<string> {
    if order == [] then []
    else
      var k := order[|order| - 1];
      var c := ClauseFor(k, OfKind(risks, k));
      Reported(order[..|order| - 1], risks) + (if c.Some? then [Render(c.value)] else [])
  }

  /** One more key adds its clause, if it has one. */
  lemma ReportedSnoc(order: seq<RiskKind>, j: int, risks: seq<Risk>)
    requires 0 <= j < |order|
    ensures var c := ClauseFor(order[j], OfKind(risks, order[j]));
      Reported(order[..j + 1], risks) == Reported(order[..j], risks) + (if c.Some? then [Render(c.value)] else [])
  {
    assert order[..j + 1][..j] == order[..j];
  }

  /** `generate_explanation` as a function. */
  function ExplanationText(risks: seq<Risk>): string {
    if risks == [] then NoRisksMessage else Join("; ", Reported(KindOrder(risks), risks))
  }

  /** `generate_explanation`: group the risks by type, render one clause per reported
      type, join the clauses with "; ". */
  method GenerateExplanation(risks: seq<Risk>) returns (text: string)
    ensures text == ExplanationText(risks)
  {
    if |risks| == 0 {
      return NoRisksMessage;
    }
    var groups, order := GroupByKind(risks);
    var parts := ReportClauses(order, groups, risks);
    text := Join("; ", parts);
  }

  /** The first loop of `generate_explanation`: fills the `risk_types` dict, kept as a
      map and the order in which its keys were inserted. */
  method GroupByKind(risks: seq<Risk>) returns (groups: map<RiskKind, seq<Risk>>, order: seq<RiskKind>)
    ensures order == KindOrder(risks)
    ensures groups == Groups(risks)
  {
    groups := map[];
    order := [];
    for i := 0 to |risks|
      invariant order == KindOrder(risks[..i])
      invariant groups == Groups(risks[..i])
    {
      var risk := risks[i];
      GroupsSnoc(risks, i);
      KindOrderSnoc(risks, i);
      if risk.kind !in groups {
        order := order + [risk.kind];
        groups := groups[risk.kind := [risk]];
      } else {
        groups := groups[risk.kind := groups[risk.kind] + [risk]];
      }
    }
    assert risks[..|risks|] == risks;
  }

  /** The second loop of `generate_explanation`: one clause per key, in key order, for
      the types that have one. */
  method ReportClauses(order: seq<RiskKind>, groups: map<RiskKind, seq<Risk>>, risks: seq<Risk>)
    returns (parts: seq<string>)
    requires order == KindOrder(risks) && groups == Groups(risks)
    ensures parts == Reported(order, risks)
  {
    parts := [];
    for j := 0 to |order|
      invariant parts == Reported(order[..j], risks)
    {
      var kind := order[j];
      var group := groups[kind];
      var count := |group|;
      ReportedSnoc(order, j, risks);
      if kind == Injection {
        parts := parts + [Render(InjectionClause(count, Explanations(FirstThree(group))))];
      } else if kind == Pii || kind == Phi {
        parts := parts + [Render(DataClause(kind, count, Distinct(PatternNames(group))))];
      }
    }
    assert order[..|order|] == order;
  }

  /** One more risk appends its type to the keys when it is new, and itself to the
      group of its type. */
  lemma GroupsSnoc(risks: seq<Risk>, i: int)
    requires 0 <= i < |risks|
    ensures var g := Groups(risks[..i]);
      var k := risks[i].kind;
      Groups(risks[..i + 1]) == if k in g then g[k := g[k] + [risks[i]]] else g[k := [risks[i]]]
  {
    var k := risks[i].kind;
    var g := Groups(risks[..i]);
    var g' := Groups(risks[..i + 1]);
    var h := if k in g then g[k := g[k] + [risks[i]]] else g[k := [risks[i]]];
    KindOrderSnoc(risks, i);
    assert forall x :: x in g' <==> x in h;
    forall x | x in g' ensures g'[x] == h[x] {
      GroupSnoc(risks, i, x);
    }
    MapExtensional(g', h);
  }

  lemma MapExtensional<K, V>(a: map<K, V>, b: map<K, V>)
    requires forall x :: x in a <==> x in b
    requires forall x :: x in a ==> a[x] == b[x]
    ensures a == b
  {
  }

  /** The group of one key after one more risk. */
  lemma GroupSnoc(risks: seq<Risk>, i: int, x: RiskKind)
    requires 0 <= i < |risks|
    requires x in KindOrder(risks[..i + 1])
    ensures var g := Groups(risks[..i]);
      Groups(risks[..i + 1])[x] == (if x in g then g[x] else []) + (if risks[i].kind == x then [risks[i]] else [])
  {
    OfKindSnoc(risks, i, x);
    InKindOrder(risks[..i], x);
  }


  /** One more risk appends its type to the key order when the type is new. */
  lemma KindOrderSnoc(risks: seq<Risk>, i: int)
    requires 0 <= i < |risks|
    ensures var k := risks[i].kind;
      KindOrder(risks[..i + 1]) == KindOrder(risks[..i]) + (if k in KindOrder(risks[..i]) then [] else [k])
  {
    assert risks[..i + 1][..i] == risks[..i];
    var ks := Kinds(risks[..i + 1]);
    assert ks[..i] == Kinds(risks[..i]);
  }

  /** One more risk joins the group of its own type and no other. */
  lemma OfKindSnoc(risks: seq<Risk>, i: int, x: RiskKind)
    requires 0 <= i < |risks|
    ensures OfKind(risks[..i + 1], x) == OfKind(risks[..i], x) + (if risks[i].kind == x then [risks[i]] else [])
  {
    assert risks[..i + 1][..i] == risks[..i];
  }


  // ---------------------------------------------------------------------------
  // Properties
  // ---------------------------------------------------------------------------

  /** The groups come in first-seen order, once each, and there is one for every type
      that occurs. */
  lemma KindOrderFirstSeen(risks: seq<Risk>)
    ensures NoDuplicates(KindOrder(risks))
    ensures forall k :: k in KindOrder(risks) <==> exists i :: 0 <= i < |risks| && risks[i].kind == k
    ensures forall p, q, i :: 0 <= p < q < |KindOrder(risks)| && 0 <= i < |risks| && risks[i].kind == KindOrder(risks)[q] ==>
      exists i' :: 0 <= i' < i && risks[i'].kind == KindOrder(risks)[p]
  {
    var ks := Kinds(risks);
    var order := KindOrder(risks);
    DistinctFirstSeen(ks);
    forall p, q, i | 0 <= p < q < |order| && 0 <= i < |risks| && risks[i].kind == order[q]
      ensures exists i' :: 0 <= i' < i && risks[i'].kind == order[p]
    {
      FirstSeenAt(ks, order, p, q, i);
      var i' :| 0 <= i' < i && ks[i'] == order[p];
      assert risks[i'].kind == order[p];
    }
    assert forall p, q, i :: 0 <= p < q < |order| && 0 <= i < |risks| && risks[i].kind == order[q] ==>
      exists i' :: 0 <= i' < i && risks[i'].kind == order[p];
    forall k ensures k in KindOrder(risks) <==> exists i :: 0 <= i < |risks| && risks[i].kind == k {
      InKindOrder(risks, k);
    }
  }

  /** Each group holds exactly the risks of its type, as many times as they occur. */
  lemma {:induction false} OfKindCounts(risks: seq<Risk>, k: RiskKind)
    ensures forall r :: multiset(OfKind(risks, k))[r] == if r.kind == k then multiset(risks)[r] else 0
  {
    if risks != [] {
      var front := risks[..|risks| - 1];
      OfKindCounts(front, k);
      assert risks == front + [risks[|risks| - 1]];
    }
  }

  /** An injection clause counts the group and lists the explanations of its first
      three risks (all of them when there are fewer). */
  lemma InjectionClauseFirstThree(group: seq<Risk>)
    ensures ClauseFor(Injection, group).Some?
    ensures var c := ClauseFor(Injection, group).value;
      && c.InjectionClause?
      && c.count == |group|
      && |c.explanations| == (if |group| < 3 then |group| else 3)
      && forall i :: 0 <= i < |c.explanations| ==> c.explanations[i] == group[i].explanation
  {
  }

  /** A PII or PHI clause counts the group and names each pattern of the group
      exactly once. */
  lemma DataClauseNames(k: RiskKind, group: seq<Risk>)
    requires k == Pii || k == Phi
    ensures ClauseFor(k, group).Some?
    ensures var c := ClauseFor(k, group).value;
      && c == DataClause(k, |group|, c.names)
      && NoDuplicates(c.names)
      && forall n :: n in c.names <==> exists i :: 0 <= i < |group| && group[i].patternName == n
  {
    var names := PatternNames(group);
    forall n ensures n in names <==> exists i :: 0 <= i < |group| && group[i].patternName == n {
      if n in names {
        var i :| 0 <= i < |names| && names[i] == n;
      }
    }
  }

  /** `m` is `s` with some elements left out, the rest kept in order. */
  ghost predicate Subsequence<T>(m: seq<T>, s: seq<T>)
    decreases |s|
  {
    if m == [] then true
    else if s == [] then false
    else if m[|m| - 1] == s[|s| - 1] then Subsequence(m[..|m| - 1], s[..|s| - 1])
    else Subsequence(m, s[..|s| - 1])
  }

  /** The kinds of a key sequence that yield a clause: those kinds, in key order, each
      as often as among the keys. */
  function Reportable(order: seq<RiskKind>): (m: seq<RiskKind>)
    ensures forall k :: k in m <==> k in order && !k.Unmapped?
    ensures Subsequence(m, order)
    ensures NoDuplicates(order) ==> NoDuplicates(m)
  {
    if order == [] then []
    else
      var front := Reportable(order[..|order| - 1]);
      var k := order[|order| - 1];
      assert forall x :: x in order <==> x in order[..|order| - 1] || x == k by {
        assert order == order[..|order| - 1] + [k];
      }
      if k.Unmapped? then
        assert front != [] ==> front[|front| - 1] != k;
        front
      else
        assert (front + [k])[..|front|] == front;
        assert NoDuplicates(order) ==> k !in order[..|order| - 1];
        front + [k]
  }

  /** The explanation holds one clause per prompt-injection, PII or PHI group, in the
      order of the groups, and nothing for any other type. */
  lemma {:induction false} OneClausePerReportableKind(order: seq<RiskKind>, risks: seq<Risk>)
    ensures var m := Reportable(order);
      && |Reported(order, risks)| == |m|
      && forall p :: 0 <= p < |m| ==>
           ClauseFor(m[p], OfKind(risks, m[p])).Some?
           && Reported(order, risks)[p] == Render(ClauseFor(m[p], OfKind(risks, m[p])).value)
  {
    if order != [] {
      OneClausePerReportableKind(order[..|order| - 1], risks);
    }
  }

  /** The fixed message appears exactly when there are no risks: every other
      explanation is a join of clauses that start with "Detected ", or empty. */
  lemma NoRisksMessageIffNoRisks(risks: seq<Risk>)
    ensures ExplanationText(risks) == NoRisksMessage <==> risks == []
  {
    if risks != [] {
      var parts := Reported(KindOrder(risks), risks);
      if parts != [] {
        ReportedStartsWithDetected(KindOrder(risks), risks);
        JoinHead("; ", parts);
        assert ExplanationText(risks)[0] == 'D';
      }
    }
  }

  /** Every reported clause starts with "Detected ". */
  lemma {:induction false} ReportedStartsWithDetected(order: seq<RiskKind>, risks: seq<Risk>)
    ensures forall s :: s in Reported(order, risks) ==> |s| > 0 && s[0] == 'D'
  {
    if order != [] {
      ReportedStartsWithDetected(order[..|order| - 1], risks);
      var k := order[|order| - 1];
      var c := ClauseFor(k, OfKind(risks, k));
      if c.Some? {
        var s := Render(c.value);
        assert s[..9][0] == s[0];
      }
    }
  }

  /** A join starts with its first part. */
  lemma JoinHead(sep: string, parts: seq<string>)
    requires parts != [] && parts[0] != []
    ensures Join(sep, parts) != [] && Join(sep, parts)[0] == parts[0][0]
  {
  }

  /** A key sequence of other types only yields no clause. */
  lemma {:induction false} ReportableEmpty(order: seq<RiskKind>)
    requires forall k :: k in order ==> k.Unmapped?
    ensures Reportable(order) == []
  {
    if order != [] {
      var front := order[..|order| - 1];
      assert forall k :: k in front ==> k in order;
      assert order[|order| - 1] in order;
      ReportableEmpty(front);
    }
  }

  /** Risks of types outside prompt injection, PII and PHI alone explain nothing. */
  lemma OnlyUnreportableRisks(risks: seq<Risk>)
    requires risks != []
    requires forall i :: 0 <= i < |risks| ==> risks[i].kind.Unmapped?
    ensures ExplanationText(risks) == ""
  {
    var order := KindOrder(risks);
    forall k | k in order ensures k.Unmapped? {
      InKindOrder(risks, k);
    }
    ReportableEmpty(order);
    OneClausePerReportableKind(order, risks);
  }
}
