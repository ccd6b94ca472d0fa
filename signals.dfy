/** The signal extractors of `main.py`: distinct-pattern hit counts, the capped
    coverage ratio, the clause-scoped "required" test, and the salary ceiling
    parsed from the candidate tokens of the salary pattern. */
module Signals {
  import opened Wrappers
  import opened Text

  // ---------------------------------------------------------------------------
  // count_hits, ratio_cap

  /** `count_hits`: the number of patterns in the list that match the text; a
      pattern counts once however often it matches. */
  function CountHits(text: string, pats: seq<Regex>): (r: nat)
    ensures r <= |pats|
    ensures r == 0 <==> forall i :: 0 <= i < |pats| ==> !pats[i](text)
    ensures r == |pats| <==> forall i :: 0 <= i < |pats| ==> pats[i](text)
    decreases |pats|
  {
    if pats == [] then 0
    else
      var init := pats[..|pats| - 1];
      assert forall i :: 0 <= i < |init| ==> init[i] == pats[i];
      CountHits(text, init) + (if pats[|pats| - 1](text) then 1 else 0)
  }

  /** Counting over a concatenated pattern list (as the responsibility
      vocabulary is built) is the sum of the counts over its parts. */
  lemma {:induction false} CountHitsConcat(text: string, a: seq<Regex>, b: seq<Regex>)
    ensures CountHits(text, a + b) == CountHits(text, a) + CountHits(text, b)
    decreases |b|
  {
    if b == [] {
      assert a + b == a;
    } else {
      var ab := a + b;
      assert ab[..|ab| - 1] == a + b[..|b| - 1];
      assert ab[|ab| - 1] == b[|b| - 1];
      CountHitsConcat(text, a, b[..|b| - 1]);
    }
  }

  /** A text that every pattern matching `t1` also matches has at least as many
      hits: more matching vocabulary never lowers a count. */
  lemma {:induction false} CountHitsMonotone(t1: string, t2: string, pats: seq<Regex>)
    requires forall i :: 0 <= i < |pats| && pats[i](t1) ==> pats[i](t2)
    ensures CountHits(t1, pats) <= CountHits(t2, pats)
    decreases |pats|
  {
    if pats != [] {
      var init := pats[..|pats| - 1];
      assert forall i :: 0 <= i < |init| ==> init[i] == pats[i];
      CountHitsMonotone(t1, t2, init);
    }
  }

  /** `ratio_cap`, applied to the result of `count_hits`: `min(hits, cap) / cap`,
      or 0 when the cap is not positive. */
  function RatioCap(hits: nat, cap: int): (r: real)
    ensures 0.0 <= r <= 1.0
    ensures cap <= 0 ==> r == 0.0
    ensures cap > 0 && hits >= cap ==> r == 1.0
    ensures cap > 0 && hits < cap ==> r * cap as real == hits as real
  {
    if cap > 0 then (Min(hits, cap) as real) / (cap as real) else 0.0
  }

  lemma RatioCapMonotone(h1: nat, h2: nat, cap: int)
    requires h1 <= h2
    ensures RatioCap(h1, cap) <= RatioCap(h2, cap)
  {
    if cap > 0 {
      var c := cap as real;
      assert Min(h1, cap) as real <= Min(h2, cap) as real;
      assert RatioCap(h1, cap) * c <= RatioCap(h2, cap) * c;
    }
  }

  /** `any(p.search(text) for p in pats)`. */
  predicate AnyMatch(text: string, pats: seq<Regex>)
  {
    exists i :: 0 <= i < |pats| && pats[i](text)
  }

  lemma AnyMatchIffHits(text: string, pats: seq<Regex>)
    ensures AnyMatch(text, pats) <==> CountHits(text, pats) > 0
  {
  }

  // ---------------------------------------------------------------------------
  // in_required_line

  /** The requirement test as `in_required_line` promises it: the text is not
      empty and one of its clauses (split on `.`, newline, `;`) matches both the
      requirement pattern and the key pattern. */
  predicate RequiredContext(text: string, required: Regex, key: Regex)
  {
    var clauses := SplitClauses(text);
    text != [] && exists i :: 0 <= i < |clauses| && required(clauses[i]) && key(clauses[i])
  }

  /** `in_required_line`: false on empty text; otherwise scans the clauses and
      returns at the first that matches both patterns. */
  method InRequiredLine(text: string, required: Regex, key: Regex) returns (found: bool)
    ensures found <==> RequiredContext(text, required, key)
  {
    if text == [] {
      return false;
    }
    var clauses := SplitClauses(text);
    var i := 0;
    while i < |clauses|
      invariant 0 <= i <= |clauses|
      invariant forall j :: 0 <= j < i ==> !(required(clauses[j]) && key(clauses[j]))
    {
      if required(clauses[i]) && key(clauses[i]) {
        return true;
      }
      i := i + 1;
    }
    return false;
  }

  /** The test depends only on which clauses the text has, not on their order
      or on repetitions: reordering clauses keeps the answer. */
  lemma RequiredContextByClauses(t1: string, t2: string, required: Regex, key: Regex)
    requires t1 != [] && t2 != []
    requires forall c :: c in SplitClauses(t1) <==> c in SplitClauses(t2)
    ensures RequiredContext(t1, required, key) == RequiredContext(t2, required, key)
  {
    var c1, c2 := SplitClauses(t1), SplitClauses(t2);
    if RequiredContext(t1, required, key) {
      var i :| 0 <= i < |c1| && required(c1[i]) && key(c1[i]);
      assert c1[i] in c2;
    }
    if RequiredContext(t2, required, key) {
      var i :| 0 <= i < |c2| && required(c2[i]) && key(c2[i]);
      assert c2[i] in c1;
    }
  }

  /** A text without any break character is one clause, tested as a whole. */
  lemma RequiredContextSingleClause(text: string, required: Regex, key: Regex)
    requires text != []
    requires forall i :: 0 <= i < |text| ==> !IsClauseBreak(text[i])
    ensures RequiredContext(text, required, key) <==> required(text) && key(text)
  {
    SplitClausesRoundTrip(text);
    NoBreaks(text);
    assert SplitClauses(text)[0] == text;
  }

  lemma {:induction false} NoBreaks(s: string)
    requires forall i :: 0 <= i < |s| ==> !IsClauseBreak(s[i])
    ensures Breaks(s) == []
    decreases |s|
  {
    if s != [] {
      NoBreaks(s[1..]);
    }
  }

  // ---------------------------------------------------------------------------
  // max_salary_k

  predicate IsDigit(c: char) { '0' <= c <= '9' }

  /** The value of a string of decimal digits. */
  function DigitsValue(ds: string): (v: nat)
    requires forall i :: 0 <= i < |ds| ==> IsDigit(ds[i])
    ensures v < Power10(|ds|)
    decreases |ds|
  {
    if ds == [] then 0
    else
      var init := ds[..|ds| - 1];
      assert forall i :: 0 <= i < |init| ==> init[i] == ds[i];
      assert IsDigit(ds[|ds| - 1]);
      var d := ds[|ds| - 1] as int - '0' as int;
      DigitsValue(init) * 10 + d
  }

  function Power10(n: nat): (p: nat)
    ensures p >= 1
  {
    if n == 0 then 1 else 10 * Power10(n - 1)
  }

  /** `int(group)` on a captured salary group: a non-empty run of decimal digits
      parses; anything else raises, which the source catches and skips. */
  function ParseDecimal(s: string): (r: Option<nat>)
    ensures r.Some? <==> s != [] && forall i :: 0 <= i < |s| ==> IsDigit(s[i])
  {
    if s != [] && forall i :: 0 <= i < |s| ==> IsDigit(s[i]) then Some(DigitsValue(s)) else None
  }

  /** The values of the groups that parse, in order. */
  function Parsed(groups: seq<string>): (r: seq<int>)
    ensures forall v :: v in r ==> exists i :: 0 <= i < |groups| && ParseDecimal(groups[i]) == Some(v)
    ensures forall i :: 0 <= i < |groups| && ParseDecimal(groups[i]).Some? ==> ParseDecimal(groups[i]).value in r
    decreases |groups|
  {
    if groups == [] then []
    else
      var init := groups[..|groups| - 1];
      assert forall i :: 0 <= i < |init| ==> init[i] == groups[i];
      var last := ParseDecimal(groups[|groups| - 1]);
      Parsed(init) + (if last.Some? then [last.value] else [])
  }

  /** Python's `max` on a non-empty list: an element that bounds every other. */
  function MaxOf(xs: seq<int>): (m: int)
    requires xs != []
    ensures m in xs
    ensures forall x :: x in xs ==> x <= m
    decreases |xs|
  {
    if |xs| == 1 then xs[0]
    else
      var init := xs[..|xs| - 1];
      assert xs == init + [xs[|xs| - 1]];
      var m := MaxOf(init);
      if xs[|xs| - 1] > m then xs[|xs| - 1] else m
  }

  /** What `max_salary_k` returns: none when no token parses, and otherwise a
      parsed value that no other parsed value exceeds. */
  function SalaryCeiling(groups: seq<string>): (r: Option<int>)
    ensures r.None? <==> forall i :: 0 <= i < |groups| ==> ParseDecimal(groups[i]).None?
    ensures r.Some? ==> exists i :: 0 <= i < |groups| && ParseDecimal(groups[i]) == Some(r.value)
    ensures r.Some? ==> forall i :: 0 <= i < |groups| && ParseDecimal(groups[i]).Some? ==>
                          ParseDecimal(groups[i]).value <= r.value
  {
    var nums := Parsed(groups);
    if nums == [] then None else Some(MaxOf(nums))
  }

  /** `max_salary_k`, over the groups the salary pattern captured in order:
      each group is parsed and appended, or skipped when it does not parse;
      the maximum is returned, or none when nothing parsed. */
  method MaxSalaryK(groups: seq<string>) returns (r: Option<int>)
    ensures r == SalaryCeiling(groups)
  {
    var nums: seq<int> := [];
    var i := 0;
    while i < |groups|
      invariant 0 <= i <= |groups|
      invariant nums == Parsed(groups[..i])
    {
      assert groups[..i + 1][..i] == groups[..i];
      var parsed := ParseDecimal(groups[i]);
      if parsed.Some? {
        nums := nums + [parsed.value];
      }
      i := i + 1;
    }
    assert groups[..|groups|] == groups;
    r := if nums == [] then None else Some(MaxOf(nums));
  }

  // ---------------------------------------------------------------------------
  // The salary pattern as written and as intended

  /** The shape of a group that `(\d{{2,3}})` captures as written: in a raw,
      non-f string the doubled braces stay, so the group is one decimal digit
      (any Unicode digit `\d` accepts, so its first character is left free),
      then two or three `{`, then `}`. */
  predicate AsWrittenSalaryGroup(g: string)
  {
    4 <= |g| <= 5 && g[|g| - 1] == '}'
    && forall j :: 1 <= j < |g| - 1 ==> g[j] == '{'
  }

  /** As written, no captured group ever parses, so `max_salary_k` always
      returns none and the salary penalty can never apply. */
  lemma AsWrittenSalaryNeverParses(groups: seq<string>)
    requires forall i :: 0 <= i < |groups| ==> AsWrittenSalaryGroup(groups[i])
    ensures SalaryCeiling(groups) == None
  {
    forall i | 0 <= i < |groups|
      ensures ParseDecimal(groups[i]).None?
    {
      assert !IsDigit(groups[i][|groups[i]| - 1]);
    }
  }

  /** The shape `(\d{2,3})` evidently meant: two or three digits. */
  predicate IntendedSalaryGroup(g: string)
  {
    2 <= |g| <= 3 && forall j :: 0 <= j < |g| ==> IsDigit(g[j])
  }

  /** With the intended pattern every captured group parses to a value below
      1000, and a single such group is the salary ceiling. */
  lemma IntendedSalaryGroupParses(g: string)
    requires IntendedSalaryGroup(g)
    ensures ParseDecimal(g) == Some(DigitsValue(g))
    ensures DigitsValue(g) < 1000
    ensures SalaryCeiling([g]) == Some(DigitsValue(g) as int)
  {
    assert Power10(|g|) <= 1000 by {
      assert Power10(2) == 100;
      assert Power10(3) == 1000;
    }
    assert Parsed([g]) == [DigitsValue(g) as int] by {
      assert [g][..0] == [];
    }
  }

  /** The text `$95k` yields the group "95", which parses to 95. */
  lemma IntendedSalaryExample()
    ensures SalaryCeiling(["95"]) == Some(95)
  {
    IntendedSalaryGroupParses("95");
    assert DigitsValue("95") == 95 by {
      assert "95"[..1] == "9";
      assert "9"[..0] == "";
    }
  }
}
