/** The scoring engine of `main.py`: the signals of a posting are combined into a
    weighted base, two flat bonuses, an order-sensitive salary/locality penalty,
    the internship override, a clamp to [0, 92] and round-half-to-even; the
    decision tier is a step function of the resulting integer. */
module Scoring {
  import opened Wrappers
  import opened Text
  import opened Signals
  import opened Postings

  /** The fixed pattern configuration the scorer reads: one `search` test per
      pattern, lists for the vocabularies, and the groups the salary pattern
      captures from a text, in match order. */
  datatype Patterns = Patterns(
    required: Regex,
    sqlKey: Regex,
    crmKey: Regex,
    pmWords: seq<Regex>,
    agile: seq<Regex>,
    xfn: seq<Regex>,
    docs: seq<Regex>,
    exp: seq<Regex>,
    kpi: seq<Regex>,
    domain: seq<Regex>,
    ai: seq<Regex>,
    tools: seq<Regex>,
    bilingual: seq<Regex>,
    remote: Regex,
    intern: Regex,
    fulltime: Regex,
    far: seq<Regex>,
    salaryGroups: string -> seq<string>)

  /** The responsibility vocabulary: six lists joined in the source's order. */
  function Responsibility(cfg: Patterns): seq<Regex>
  {
    cfg.pmWords + cfg.agile + cfg.xfn + cfg.docs + cfg.exp + cfg.kpi
  }

  /** Everything the score depends on. */
  datatype SignalBundle = SignalBundle(
    sqlRequired: bool,
    crmRequired: bool,
    respHits: nat,
    domainHits: nat,
    toolHits: nat,
    bilingual: bool,
    ai: bool,
    salaryK: Option<int>,
    farOnSite: bool,
    intern: bool,
    fulltime: bool)

  /** The signals of a posting, each read from the text the source reads it
      from: the description, description + " " + salary for the salary groups,
      description + " " + location for the far localities. */
  function Extract(cfg: Patterns, p: Posting): SignalBundle
  {
    var jd := p.description;
    var remote := cfg.remote(jd) || cfg.remote(p.location);
    SignalBundle(
      sqlRequired := RequiredContext(jd, cfg.required, cfg.sqlKey),
      crmRequired := RequiredContext(jd, cfg.required, cfg.crmKey),
      respHits := CountHits(jd, Responsibility(cfg)),
      domainHits := CountHits(jd, cfg.domain),
      toolHits := CountHits(jd, cfg.tools),
      bilingual := AnyMatch(jd, cfg.bilingual),
      ai := AnyMatch(jd, cfg.ai),
      salaryK := SalaryCeiling(cfg.salaryGroups(jd + " " + p.salary)),
      farOnSite := !remote && AnyMatch(jd + " " + p.location, cfg.far),
      intern := cfg.intern(jd),
      fulltime := cfg.fulltime(jd))
  }

  const SqlPenalty := 25
  const CrmPenalty := 18
  const SeniorScore := 100
  const RespCap := 8
  const DomainCap := 6
  const ToolCap := 8
  const BilingualBonus := 8.0
  const AiBonus := 4.0
  const SalaryLimitK := 120
  const PenaltyFactor := 0.70
  const MaxScore := 92

  /** `required_score`: 100 less 25 for SQL and 18 for a CRM tool, each asked
      for in a requirement clause; the floor at 0 never bites. */
  function RequiredScore(sql: bool, crm: bool): (r: int)
    ensures r in {57, 75, 82, 100}
    ensures r == 100 <==> !sql && !crm
    ensures r == 57 <==> sql && crm
    ensures r == 75 <==> sql && !crm
    ensures r == 82 <==> !sql && crm
  {
    Max(0, 100 - ((if sql then SqlPenalty else 0) + (if crm then CrmPenalty else 0)))
  }

  /** The weighted linear part of the score, before bonuses. */
  function WeightedBase(b: SignalBundle): (r: real)
    ensures 34.95 <= r <= 100.0
  {
    0.35 * RequiredScore(b.sqlRequired, b.crmRequired) as real
    + 0.10 * SeniorScore as real
    + 0.20 * (100.0 * RatioCap(b.respHits, RespCap))
    + 0.20 * (100.0 * RatioCap(b.domainHits, DomainCap))
    + 0.10 * (100.0 * RatioCap(b.toolHits, ToolCap))
    + 0.05 * 100.0
  }

  function Bonus(b: SignalBundle): real
  {
    (if b.bilingual then BilingualBonus else 0.0) + (if b.ai then AiBonus else 0.0)
  }

  /** The ×0.70 penalty applies only to a salary ceiling that exists, is at
      most 120 (thousands), on a far on-site posting. */
  predicate SalaryPenalty(b: SignalBundle)
  {
    b.salaryK.Some? && b.salaryK.value <= SalaryLimitK && b.farOnSite
  }

  predicate InternOverride(b: SignalBundle)
  {
    b.intern && !b.fulltime
  }

  /** The unclamped score: zero under the internship override; otherwise the
      weighted base plus the bonuses, the whole sum scaled by the penalty. */
  function RawScore(b: SignalBundle): real
  {
    if InternOverride(b) then 0.0
    else if SalaryPenalty(b) then (WeightedBase(b) + Bonus(b)) * PenaltyFactor
    else WeightedBase(b) + Bonus(b)
  }

  /** `max(0, min(92, x))`. */
  function Clamp(x: real): (r: real)
    ensures 0.0 <= r <= MaxScore as real
    ensures 0.0 <= x <= MaxScore as real ==> r == x
  {
    if x < 0.0 then 0.0 else if x > MaxScore as real then MaxScore as real else x
  }

  lemma ClampMonotone(x: real, y: real)
    requires x <= y
    ensures Clamp(x) <= Clamp(y)
  {
  }

  /** Python's `round` on a number: the nearest integer, a tie going to the
      even neighbour. */
  function RoundHalfEven(x: real): (r: int)
    ensures x - 0.5 <= r as real <= x + 0.5
    ensures (r as real - x == 0.5 || x - r as real == 0.5) ==> r % 2 == 0
  {
    var f := x.Floor;
    var d := x - f as real;
    if d < 0.5 then f
    else if d > 0.5 then f + 1
    else if f % 2 == 0 then f
    else f + 1
  }

  /** The two properties of `RoundHalfEven` determine it: any integer within
      one half of `x`, even when exactly one half away, is that result. */
  lemma RoundHalfEvenUnique(x: real, n: int)
    requires x - 0.5 <= n as real <= x + 0.5
    requires (n as real - x == 0.5 || x - n as real == 0.5) ==> n % 2 == 0
    ensures n == RoundHalfEven(x)
  {
  }

  lemma RoundHalfEvenMonotone(x: real, y: real)
    requires x <= y
    ensures RoundHalfEven(x) <= RoundHalfEven(y)
  {
  }

  /** `acceptance_score` on a signal bundle: an integer in [0, 92], and zero
      exactly when the internship override holds. */
  function Score(b: SignalBundle): (r: int)
    ensures 0 <= r <= MaxScore
    ensures r == 0 <==> InternOverride(b)
  {
    RoundHalfEven(Clamp(RawScore(b)))
  }

  /** `acceptance_score`, step by step as the source computes it. */
  method AcceptanceScore(cfg: Patterns, p: Posting) returns (score: int)
    ensures score == Score(Extract(cfg, p))
  {
    ghost var b := Extract(cfg, p);
    var jd, loc, sal := p.description, p.location, p.salary;
    var requiredPenalty := 0;
    var sqlRequired := InRequiredLine(jd, cfg.required, cfg.sqlKey);
    if sqlRequired {
      requiredPenalty := requiredPenalty + SqlPenalty;
    }
    var crmRequired := InRequiredLine(jd, cfg.required, cfg.crmKey);
    if crmRequired {
      requiredPenalty := requiredPenalty + CrmPenalty;
    }
    var requiredScore := Max(0, 100 - requiredPenalty);
    assert requiredScore == RequiredScore(b.sqlRequired, b.crmRequired);
    var seniorScore := SeniorScore;
    var respCov := RatioCap(CountHits(jd, Responsibility(cfg)), RespCap);
    var domCov := RatioCap(CountHits(jd, cfg.domain), DomainCap);
    var toolCov := RatioCap(CountHits(jd, cfg.tools), ToolCap);
    var base := 0.35 * requiredScore as real + 0.10 * seniorScore as real
      + 0.20 * (100.0 * respCov) + 0.20 * (100.0 * domCov) + 0.10 * (100.0 * toolCov)
      + 0.05 * 100.0;
    assert base == WeightedBase(b);
    if AnyMatch(jd, cfg.bilingual) {
      base := base + BilingualBonus;
    }
    if AnyMatch(jd, cfg.ai) {
      base := base + AiBonus;
    }
    assert base == WeightedBase(b) + Bonus(b);
    var salK := MaxSalaryK(cfg.salaryGroups(jd + " " + sal));
    var remote := cfg.remote(jd) || cfg.remote(loc);
    var farOnSite := !remote && AnyMatch(jd + " " + loc, cfg.far);
    assert salK == b.salaryK && farOnSite == b.farOnSite;
    if salK.Some? && salK.value <= SalaryLimitK && farOnSite {
      base := base * PenaltyFactor;
    }
    if cfg.intern(jd) && !cfg.fulltime(jd) {
      base := 0.0;
    }
    assert base == RawScore(b);
    score := RoundHalfEven(Clamp(base));
  }

  // ---------------------------------------------------------------------------
  // Properties of the score

  /** More coverage never lowers the score: a bundle that differs only in
      having at least as many hits in each vocabulary scores at least as high. */
  lemma ScoreMonotoneInCoverage(b1: SignalBundle, b2: SignalBundle)
    requires b1.respHits <= b2.respHits && b1.domainHits <= b2.domainHits && b1.toolHits <= b2.toolHits
    requires b2 == b1.(respHits := b2.respHits, domainHits := b2.domainHits, toolHits := b2.toolHits)
    ensures Score(b1) <= Score(b2)
  {
    RatioCapMonotone(b1.respHits, b2.respHits, RespCap);
    RatioCapMonotone(b1.domainHits, b2.domainHits, DomainCap);
    RatioCapMonotone(b1.toolHits, b2.toolHits, ToolCap);
    assert WeightedBase(b1) <= WeightedBase(b2);
    assert RawScore(b1) <= RawScore(b2);
    ClampMonotone(RawScore(b1), RawScore(b2));
    RoundHalfEvenMonotone(Clamp(RawScore(b1)), Clamp(RawScore(b2)));
  }

  /** The penalty multiplies the bonuses too: under it a bonus is worth 70% of
      its face value, because it is added before the penalty applies. */
  lemma BonusScaledByPenalty(b: SignalBundle)
    requires !InternOverride(b)
    ensures RawScore(b.(ai := true)) - RawScore(b.(ai := false))
         == if SalaryPenalty(b) then PenaltyFactor * AiBonus else AiBonus
    ensures RawScore(b.(bilingual := true)) - RawScore(b.(bilingual := false))
         == if SalaryPenalty(b) then PenaltyFactor * BilingualBonus else BilingualBonus
  {
    var a1, a0 := b.(ai := true), b.(ai := false);
    assert WeightedBase(a1) == WeightedBase(a0) == WeightedBase(b);
    assert Bonus(a1) == Bonus(a0) + AiBonus;
    var k1, k0 := b.(bilingual := true), b.(bilingual := false);
    assert WeightedBase(k1) == WeightedBase(k0) == WeightedBase(b);
    assert Bonus(k1) == Bonus(k0) + BilingualBonus;
  }

  /** Without the override the score never falls below 35, or 24 under the
      salary penalty: a posting with no matching vocabulary at all still scores 50. */
  lemma ScoreFloor(b: SignalBundle)
    requires !InternOverride(b)
    ensures Score(b) >= if SalaryPenalty(b) then 24 else 35
  {
  }

  /** The score of a posting with no signal at all. */
  lemma NoSignalScore(b: SignalBundle)
    requires b == SignalBundle(false, false, 0, 0, 0, false, false, None, false, false, false)
    ensures Score(b) == 50
  {
    assert RawScore(b) == 50.0;
    RoundHalfEvenUnique(50.0, 50);
  }

  /** A remote posting is never far on-site, so it is never penalised. */
  lemma RemoteNeverPenalised(cfg: Patterns, p: Posting)
    requires cfg.remote(p.description) || cfg.remote(p.location)
    ensures !SalaryPenalty(Extract(cfg, p))
  {
  }

  /** As written, the salary pattern captures only groups that never parse, so
      the salary penalty never applies whatever the posting says. */
  lemma AsWrittenPenaltyUnreachable(cfg: Patterns, p: Posting)
    requires forall i :: 0 <= i < |cfg.salaryGroups(p.description + " " + p.salary)| ==>
               AsWrittenSalaryGroup(cfg.salaryGroups(p.description + " " + p.salary)[i])
    ensures !SalaryPenalty(Extract(cfg, p))
  {
    AsWrittenSalaryNeverParses(cfg.salaryGroups(p.description + " " + p.salary));
  }

  /** A description asking for SQL in a requirement clause, with four
      responsibility, three domain and three tool hits and nothing else, scores
      65; a far on-site location changes nothing while no salary parses. */
  lemma ExampleSqlRequired(far: bool)
    ensures Score(SignalBundle(true, false, 4, 3, 3, false, false, None, far, false, false)) == 65
  {
    var b := SignalBundle(true, false, 4, 3, 3, false, false, None, far, false, false);
    assert RawScore(b) == 65.0;
    RoundHalfEvenUnique(65.0, 65);
  }

  /** The same signals with the intended salary ceiling of 95 and a far on-site
      location: 65 × 0.70 = 45.5, which rounds to the even 46. */
  lemma ExampleIntendedSalaryPenalty()
    ensures Score(SignalBundle(true, false, 4, 3, 3, false, false, Some(95), true, false, false)) == 46
  {
    var b := SignalBundle(true, false, 4, 3, 3, false, false, Some(95), true, false, false);
    assert RawScore(b) == 45.5;
    RoundHalfEvenUnique(45.5, 46);
  }

  // ---------------------------------------------------------------------------
  // The decision tier

  datatype Tier = Skip | Apply | ApplyPriority
  {
    /** The decision text written to the output. */
    function Label(): string
    {
      match this
      case Skip => "Skip"
      case Apply => "Apply"
      case ApplyPriority => "Apply (Priority)"
    }

    function Rank(): nat
    {
      match this
      case Skip => 0
      case Apply => 1
      case ApplyPriority => 2
    }
  }

  const PriorityThreshold := 80
  const ApplyThreshold := 70

  /** The decision for a score: priority from 80, apply from 70, skip below. */
  function Decision(s: int): (t: Tier)
    ensures t == ApplyPriority <==> s >= PriorityThreshold
    ensures t == Apply <==> ApplyThreshold <= s < PriorityThreshold
    ensures t == Skip <==> s < ApplyThreshold
  {
    if s >= PriorityThreshold then ApplyPriority
    else if s >= ApplyThreshold then Apply
    else Skip
  }

  /** A higher score never gets a lower tier. */
  lemma DecisionMonotone(s1: int, s2: int)
    requires s1 <= s2
    ensures Decision(s1).Rank() <= Decision(s2).Rank()
  {
  }

  /** The three labels differ, so the written text determines the tier. */
  lemma LabelsDistinct(t1: Tier, t2: Tier)
    requires t1.Label() == t2.Label()
    ensures t1 == t2
  {
  }

  /** An internship posting without full-time wording is always skipped. */
  lemma InternshipSkipped(b: SignalBundle)
    requires InternOverride(b)
    ensures Decision(Score(b)) == Skip
  {
  }
}
