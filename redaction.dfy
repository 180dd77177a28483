/** `PolicyEngine.redact_text` (app/firewall/policy_engine.py): splice a placeholder
    over every risk span, walking the risks in order of their start and correcting
    each span by the running length drift of the replacements made so far. */
module Redaction {
  import opened Models
  import opened Text

  /** The placeholder written over a span: `"[" + upper(pattern_name) + "_REDACTED]"`. */
  function Token(patternName: string): (t: string)
    ensures |t| == |patternName| + 11
    ensures t[0] == '[' && t[|t| - 1] == ']'
  {
    "[" + Upper(patternName) + "_REDACTED]"
  }

  // ---------------------------------------------------------------------------
  // `sorted(risks, key=lambda r: r.start)`
  // ---------------------------------------------------------------------------

  /** Each risk starts no earlier than the one before it. */
  ghost predicate SortedByStart(s: seq<Risk>)
    decreases |s|
  {
    |s| <= 1 || (s[|s| - 2].start <= s[|s| - 1].start && SortedByStart(s[..|s| - 1]))
  }

  /** Appending an element whose start is at least the last one's keeps a sequence
      sorted. */
  lemma SortedSnoc(s: seq<Risk>, x: Risk)
    requires SortedByStart(s)
    requires s != [] ==> s[|s| - 1].start <= x.start
    ensures SortedByStart(s + [x])
  {
    assert (s + [x])[..|s|] == s;
  }

  /** Prepending an element whose start is at most the first one's keeps a sequence
      sorted. */
  lemma {:induction false} SortedCons(x: Risk, s: seq<Risk>)
    requires SortedByStart(s)
    requires s != [] ==> x.start <= s[0].start
    ensures SortedByStart([x] + s)
    decreases |s|
  {
    if |s| >= 2 {
      var init := s[..|s| - 1];
      assert init[0] == s[0];
      SortedCons(x, init);
      assert ([x] + s)[..|s|] == [x] + init;
    } else if |s| == 1 {
      assert ([x] + s)[..1] == [x];
    }
  }

  /** In a sorted sequence every risk starts no earlier than any before it. */
  lemma {:induction false} SortedPairwise(s: seq<Risk>)
    requires SortedByStart(s)
    ensures forall i, j :: 0 <= i < j < |s| ==> s[i].start <= s[j].start
    decreases |s|
  {
    if |s| >= 2 {
      var init := s[..|s| - 1];
      SortedPairwise(init);
      forall i, j | 0 <= i < j < |s| ensures s[i].start <= s[j].start {
        if j < |s| - 1 {
          assert s[i] == init[i] && s[j] == init[j];
        } else if i < |s| - 2 {
          assert s[i] == init[i] && s[|s| - 2] == init[|s| - 2];
        }
      }
    }
  }

  /** Places `r` after every element whose start is at most its own, which keeps the
      sort stable. */
  function InsertByStart(sorted: seq<Risk>, r: Risk): (res: seq<Risk>)
    ensures |res| == |sorted| + 1
    ensures multiset(res) == multiset(sorted) + multiset{r}
  {
    if sorted == [] then [r]
    else
      var last := sorted[|sorted| - 1];
      if last.start <= r.start then sorted + [r]
      else
        var init := sorted[..|sorted| - 1];
        MultisetSnoc(sorted);
        InsertByStart(init, r) + [last]
  }

  /** A sequence holds what its front holds, and its last element. */
  lemma MultisetSnoc(s: seq<Risk>)
    requires s != []
    ensures multiset(s) == multiset(s[..|s| - 1]) + multiset{s[|s| - 1]}
  {
    assert s == s[..|s| - 1] + [s[|s| - 1]];
  }

  /** The last element after an insertion is `r` or the old last element. */
  lemma InsertLast(sorted: seq<Risk>, r: Risk)
    ensures var res := InsertByStart(sorted, r);
      res[|res| - 1] == r || (sorted != [] && res[|res| - 1] == sorted[|sorted| - 1])
  {
  }

  /** Insertion into a sorted sequence gives a sorted sequence. */
  lemma {:induction false} InsertKeepsSorted(sorted: seq<Risk>, r: Risk)
    requires SortedByStart(sorted)
    ensures SortedByStart(InsertByStart(sorted, r))
  {
    if sorted != [] {
      var last := sorted[|sorted| - 1];
      if last.start <= r.start {
        SortedSnoc(sorted, r);
      } else {
        var init := sorted[..|sorted| - 1];
        InsertKeepsSorted(init, r);
        InsertLast(init, r);
        var front := InsertByStart(init, r);
        assert init != [] ==> init[|init| - 1] == sorted[|sorted| - 2];
        SortedSnoc(front, last);
      }
    }
  }

  /** Python's stable `sorted` by start, as an insertion sort. */
  function SortByStart(risks: seq<Risk>): (s: seq<Risk>)
    ensures SortedByStart(s)
    ensures multiset(s) == multiset(risks)
  {
    if risks == [] then []
    else
      var init := SortByStart(risks[..|risks| - 1]);
      InsertKeepsSorted(init, risks[|risks| - 1]);
      MultisetSnoc(risks);
      InsertByStart(init, risks[|risks| - 1])
  }

  /** A non-empty sequence is its front followed by its last element. */
  lemma SplitLast<T>(s: seq<T>)
    requires s != []
    ensures s[..|s| - 1] + [s[|s| - 1]] == s
  {
  }

  /** Sorting risks that are already in order of their start changes nothing. */
  lemma {:induction false} SortSortedUnchanged(risks: seq<Risk>)
    requires SortedByStart(risks)
    ensures SortByStart(risks) == risks
  {
    if risks != [] {
      var pre := risks[..|risks| - 1];
      var last := risks[|risks| - 1];
      SortSortedUnchanged(pre);
      calc {
        SortByStart(risks);
        InsertByStart(SortByStart(pre), last);
        InsertByStart(pre, last);
        { InsertAfterLast(pre, last); }
        pre + [last];
        { SplitLast(risks); }
        risks;
      }
    }
  }

  /** The risks of `s` that start at `v`, in their order in `s`. */
  ghost function WithStart(s: seq<Risk>, v: int): seq<Risk>
    decreases |s|
  {
    if s == [] then []
    else WithStart(s[..|s| - 1], v) + (if s[|s| - 1].start == v then [s[|s| - 1]] else [])
  }

  lemma WithStartSnoc(s: seq<Risk>, x: Risk, v: int)
    ensures WithStart(s + [x], v) == WithStart(s, v) + (if x.start == v then [x] else [])
  {
    assert (s + [x])[..|s|] == s;
  }

  /** Insertion places `r` after every risk with the same start. */
  lemma {:induction false} InsertWithStart(sorted: seq<Risk>, r: Risk, v: int)
    ensures WithStart(InsertByStart(sorted, r), v) == WithStart(sorted, v) + (if r.start == v then [r] else [])
    decreases |sorted|
  {
    if sorted == [] {
      WithStartSnoc([], r, v);
    } else {
      var last := sorted[|sorted| - 1];
      var init := sorted[..|sorted| - 1];
      assert sorted == init + [last];
      if last.start <= r.start {
        WithStartSnoc(sorted, r, v);
      } else {
        InsertWithStart(init, r, v);
        WithStartSnoc(InsertByStart(init, r), last, v);
        WithStartSnoc(init, last, v);
      }
    }
  }

  /** `sorted` is stable: the risks that share a start keep their relative order. */
  lemma {:induction false} SortStable(risks: seq<Risk>, v: int)
    ensures WithStart(SortByStart(risks), v) == WithStart(risks, v)
    decreases |risks|
  {
    if risks != [] {
      var init := risks[..|risks| - 1];
      var last := risks[|risks| - 1];
      SortStable(init, v);
      assert SortByStart(risks) == InsertByStart(SortByStart(init), last);
      InsertWithStart(SortByStart(init), last, v);
    }
  }

  /** Inserting an element whose start is at least the last one's appends it. */
  lemma InsertAfterLast(sorted: seq<Risk>, r: Risk)
    requires sorted != [] ==> sorted[|sorted| - 1].start <= r.start
    ensures InsertByStart(sorted, r) == sorted + [r]
  {
  }

  // ---------------------------------------------------------------------------
  // The splice loop
  // ---------------------------------------------------------------------------

  /** Where a Python slice bound `i` lands in a string of length `n`: negative bounds
      count from the end, and every bound is clamped to `[0, n]`. */
  function PyIndex(i: int, n: nat): (k: nat)
    ensures k <= n
    ensures 0 <= i <= n ==> k == i
  {
    if i < 0 then (if n + i < 0 then 0 else n + i)
    else if i > n then n
    else i
  }

  /** The loop state of `redact_text`: the text so far and the running offset. */
  datatype Cursor = Cursor(text: string, offset: int)

  /** One iteration: shift the span by the offset; skip the risk, changing nothing, when
      the shifted span leaves `[0, |text|]`; otherwise splice the placeholder over it
      and add the change in length to the offset. */
  function Step(c: Cursor, r: Risk): (d: Cursor)
    ensures r.start + c.offset < 0 || r.end + c.offset > |c.text| ==> d == c
    ensures r.start <= r.end ==> |d.text| - d.offset == |c.text| - c.offset
  {
    var start := r.start + c.offset;
    var end := r.end + c.offset;
    if start < 0 || end > |c.text| then c
    else
      var replacement := Token(r.patternName);
      Cursor(c.text[..PyIndex(start, |c.text|)] + replacement + c.text[PyIndex(end, |c.text|)..],
             c.offset + |replacement| - (end - start))
  }

  /** The remaining iterations, over the rest of the sorted risks. */
  function RedactAll(c: Cursor, risks: seq<Risk>): Cursor
    decreases |risks|
  {
    if risks == [] then c else RedactAll(Step(c, risks[0]), risks[1..])
  }

  /** `redact_text` as a function: the text unchanged when there are no risks,
      otherwise the loop run over the risks sorted by start from offset 0. */
  function Redacted(text: string, risks: seq<Risk>): (r: string)
    ensures risks == [] ==> r == text
  {
    if risks == [] then text else RedactAll(Cursor(text, 0), SortByStart(risks)).text
  }

  /** Every risk's span is ordered (`start <= end`), as every detector's output is. */
  ghost predicate SpansOrdered(risks: seq<Risk>) {
    forall r :: r in risks ==> r.start <= r.end
  }

  /** Sorting keeps exactly the same risks. */
  lemma SortedMembers(risks: seq<Risk>)
    ensures forall r :: r in SortByStart(risks) ==> r in risks
  {
    var s := SortByStart(risks);
    forall r | r in s ensures r in risks {
      assert r in multiset(s);
    }
  }

  /** The loop keeps `|redacted| - offset` fixed when every span is ordered, so
      `|redacted| == |text| + offset` holds after every iteration that starts from
      offset 0. */
  lemma {:induction false} RedactAllKeepsDrift(c: Cursor, risks: seq<Risk>)
    requires SpansOrdered(risks)
    ensures |RedactAll(c, risks).text| - RedactAll(c, risks).offset == |c.text| - c.offset
    decreases |risks|
  {
    if risks != [] {
      assert risks[0] in risks;
      assert forall r :: r in risks[1..] ==> r in risks;
      RedactAllKeepsDrift(Step(c, risks[0]), risks[1..]);
    }
  }

  /** One unfolding of the remaining iterations. */
  lemma RedactAllUnfold(c: Cursor, risks: seq<Risk>, i: nat)
    requires i < |risks|
    ensures RedactAll(c, risks[i..]) == RedactAll(Step(c, risks[i]), risks[i + 1..])
  {
    assert risks[i..][0] == risks[i] && risks[i..][1..] == risks[i + 1..];
  }

  /** The splice `redact_text` performs inside the loop is one `Step`. */
  lemma SpliceIsStep(c: Cursor, r: Risk, start: int, end: int, replacement: string, t: string, o: int)
    requires start == r.start + c.offset && end == r.end + c.offset
    requires 0 <= start && end <= |c.text|
    requires replacement == Token(r.patternName)
    requires t == c.text[..PyIndex(start, |c.text|)] + replacement + c.text[PyIndex(end, |c.text|)..]
    requires o == c.offset + |replacement| - (end - start)
    ensures Step(c, r) == Cursor(t, o)
  {
  }

  /** `redact_text`: the loop over the risks sorted by start. */
  method RedactText(text: string, risks: seq<Risk>) returns (redacted: string)
    ensures redacted == Redacted(text, risks)
  {
    if |risks| == 0 {
      return text;
    }
    redacted := text;
    var offset := 0;
    var sorted := SortByStart(risks);
    for i := 0 to |sorted|
      invariant RedactAll(Cursor(redacted, offset), sorted[i..]) == RedactAll(Cursor(text, 0), sorted)
    {
      var risk := sorted[i];
      RedactAllUnfold(Cursor(redacted, offset), sorted, i);
      var start := risk.start + offset;
      var end := risk.end + offset;
      if start < 0 || end > |redacted| {
        continue;
      }
      ghost var before := Cursor(redacted, offset);
      var replacement := Token(risk.patternName);
      redacted := redacted[..PyIndex(start, |redacted|)] + replacement + redacted[PyIndex(end, |redacted|)..];
      offset := offset + |replacement| - (end - start);
      SpliceIsStep(before, risk, start, end, replacement, redacted, offset);
    }
  }

  // ---------------------------------------------------------------------------
  // Non-overlapping spans
  // ---------------------------------------------------------------------------

  /** The spans, in order, lie inside `[pos, n]`, each ordered and none overlapping the
      next. */
  ghost predicate Chain(pos: int, risks: seq<Risk>, n: int)
    decreases |risks|
  {
    && 0 <= pos <= n
    && (risks != [] ==> pos <= risks[0].start <= risks[0].end && Chain(risks[0].end, risks[1..], n))
  }

  /** The text the spans of a chain leave between them, interleaved with the
      placeholders: what redaction ought to give. */
  ghost function Gaps(text: string, pos: int, risks: seq<Risk>): string
    requires Chain(pos, risks, |text|)
    decreases |risks|
  {
    if risks == [] then text[pos..]
    else
      assert Chain(risks[0].end, risks[1..], |text|);
      text[pos..risks[0].start] + Token(risks[0].patternName) + Gaps(text, risks[0].end, risks[1..])
  }

  /** A chain is sorted by start and starts at or after its position. */
  lemma {:induction false} ChainSorted(pos: int, risks: seq<Risk>, n: int)
    requires Chain(pos, risks, n)
    ensures SortedByStart(risks)
    ensures forall r :: r in risks ==> pos <= r.start
    decreases |risks|
  {
    if risks != [] {
      var rest := risks[1..];
      ChainSorted(risks[0].end, rest, n);
      assert rest != [] ==> rest[0] in rest;
      SortedCons(risks[0], rest);
      assert [risks[0]] + rest == risks;
    }
  }

  /** One iteration over an in-bounds span of the untouched rest of the text. */
  lemma ChainStep(text: string, done: string, pos: int, r: Risk)
    requires 0 <= pos <= r.start <= r.end <= |text|
    ensures Step(Cursor(done + text[pos..], |done| - pos), r)
         == Cursor(done + text[pos..r.start] + Token(r.patternName) + text[r.end..],
                   |done + text[pos..r.start] + Token(r.patternName)| - r.end)
  {
    var c := Cursor(done + text[pos..], |done| - pos);
    var start := r.start + c.offset;
    var end := r.end + c.offset;
    assert c.text[..start] == done + text[pos..r.start];
    assert c.text[end..] == text[r.end..];
    SpliceIsStep(c, r, start, end, Token(r.patternName), done + text[pos..r.start] + Token(r.patternName) + text[r.end..],
                 |done + text[pos..r.start] + Token(r.patternName)| - r.end);
  }

  /** Unfolds `Gaps` once. */
  lemma GapsCons(text: string, pos: int, risks: seq<Risk>)
    requires Chain(pos, risks, |text|) && risks != []
    ensures Chain(risks[0].end, risks[1..], |text|)
    ensures Gaps(text, pos, risks)
         == text[pos..risks[0].start] + Token(risks[0].patternName) + Gaps(text, risks[0].end, risks[1..])
  {
  }

  lemma AppendAssoc(a: string, b: string, c: string, d: string)
    ensures a + (b + c + d) == a + b + c + d
  {
  }

  /** Once the text is `done` followed by the untouched rest from `pos`, with the
      offset equal to the drift so far, the remaining iterations over a chain
      produce `done` followed by the gaps and placeholders of the rest. */
  lemma {:induction false} RedactAllChain(text: string, done: string, pos: int, risks: seq<Risk>)
    requires Chain(pos, risks, |text|)
    ensures 0 <= pos <= |text|
    ensures RedactAll(Cursor(done + text[pos..], |done| - pos), risks).text == done + Gaps(text, pos, risks)
    decreases |risks|
  {
    if risks != [] {
      var r := risks[0];
      var done' := done + text[pos..r.start] + Token(r.patternName);
      assert Chain(r.end, risks[1..], |text|);
      ChainStep(text, done, pos, r);
      RedactAllUnfold(Cursor(done + text[pos..], |done| - pos), risks, 0);
      assert risks[0..] == risks;
      RedactAllChain(text, done', r.end, risks[1..]);
      GapsCons(text, pos, risks);
      AppendAssoc(done, text[pos..r.start], Token(r.patternName), Gaps(text, r.end, risks[1..]));
    }
  }

  /** For spans sorted by start, non-overlapping and inside the text, redaction gives
      the text between the spans interleaved with one placeholder per span. */
  lemma RedactNonOverlapping(text: string, risks: seq<Risk>)
    requires Chain(0, risks, |text|)
    ensures Redacted(text, risks) == Gaps(text, 0, risks)
  {
    if risks != [] {
      ChainSorted(0, risks, |text|);
      SortSortedUnchanged(risks);
      RedactAllChain(text, "", 0, risks);
      assert "" + text[0..] == text;
    }
  }
}
