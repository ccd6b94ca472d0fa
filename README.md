# Job-posting scorer and resume synthesizer — a Dafny model

`main.py` reads job postings and scores each one against a fixed candidate
profile. Each posting has a description, location, salary text, title, company
and url. The score is an integer in [0, 92]:

- a requirement score (100, less 25 when SQL and 18 when a CRM tool is asked
  for inside a requirement clause);
- plus capped coverage ratios of responsibility, domain and tooling
  vocabularies;
- plus flat bonuses for bilingual and AI wording;
- times 0.70 when a parsed salary ceiling of at most 120k meets a far on-site
  location;
- forced to 0 for an internship without full-time wording;
- then clamped and rounded half to even.

The score decides a tier: Skip, Apply, or Apply (Priority). For scores of 70
and above the program also writes a resume fragment:

- a summary;
- a `"; "`-joined skills list;
- up to six `"• "` bullets, made of at most two theme sentences of the posting
  followed by five fixed achievements, whitespace-normalised and
  de-duplicated ignoring case.

The model has six modules:

- `Text`: the Python string operations the program relies on: `strip`,
  whitespace collapse, `lower`, `join`, `[:n]`, and the clause split on `.`,
  newline and `;`.
- `Signals`: `count_hits`, `ratio_cap`, `in_required_line`, `max_salary_k`.
- `Scoring`: `acceptance_score` and the decision tier.
- `Resume`: `pick_sentences` and `make_cv`.
- `Postings`: the posting record.
- `Wrappers`: `Option`.

The model does not include a regex engine. A compiled pattern is a value of
type `Regex = string -> bool`, its `search` test. The pattern tables become
fields of configuration datatypes (`Scoring.Patterns`, `Resume.CvPatterns`).
The groups that `finditer` captures for the salary pattern, and the sentence
splitter, are function-valued fields of those datatypes too.

The loops of the source are methods with loop invariants:

- `max_salary_k`
- `in_required_line`
- `pick_sentences`
- the bullet loop of `make_cv`

`acceptance_score` has no loop. It is a method that updates its variables
step by step, in the source's order. `make_cv` is a method too.

Each method is proved equal to a pure specification function, and the
properties are proved about those functions.

Where the design description of the program and its code disagree, the
model follows the code:

- The description's worked example is "Required: SQL. Must manage roadmap,
  backlog, sprint, KPI, API, e-commerce, SaaS, JIRA, Tableau.", with no
  location or salary. The description says it lands in Apply (Priority). The
  formula gives 65, which is Skip (`Scoring.ExampleSqlRequired`).
- The description says empty input scores 0. The formula gives 50: the
  requirement, seniority and constant terms alone are worth 50
  (`Scoring.NoSignalScore`).

## Model

| member | source | states |
|---|---|---|
| Text.Take | main.py:104 | `xs[:n]` has `min(len(xs), n)` elements and is a prefix of `xs` |
| Text.StripCharsFacts | main.py:100 | `s.strip(chars)` is the slice of `s` left after removing every leading and trailing character of the set; everything removed is in the set and the result neither starts nor ends with one |
| Text.StripCharsIdempotent | main.py:100 | stripping twice is stripping once |
| Text.CollapseSpaces | main.py:100 | `re.sub(r"\s+", " ", s)` keeps the words (maximal non-whitespace runs) and the non-whitespace characters in order; it is empty iff `s` is, starts and ends with whitespace iff `s` does, leaves only plain spaces and never two whitespace characters side by side |
| Text.CollapseSpacesCanonical | main.py:100 | those properties fix the result: any text with only plain spaces, none adjacent, the words of `s` and the same empty/start/end status is the collapse of `s` |
| Text.Lower | main.py:101 | `lower()` on ASCII letters keeps the length, leaves no upper-case ASCII letter and keeps every character that is not one |
| Text.LowerIdempotent | main.py:101 | lowering a key again changes nothing |
| Text.LowerSameKey | main.py:101 | two texts get the same key iff they have the same length and agree position by position up to ASCII case |
| Text.JoinSeparatorCount | main.py:104 | joining entries free of a character with a separator holding it once puts exactly one such character between each two entries |
| Text.SplitClauses | main.py:41 | `re.split(r"[.\n;]", s)` yields at least one piece and no piece contains a break character |
| Text.SplitClausesRoundTrip | main.py:41 | there is one more piece than break characters, and re-inserting the breaks between the pieces gives back the text |
| Signals.CountHits | main.py:31 | the count of distinct matching patterns is at most the list length, 0 iff none matches, the full length iff all match |
| Signals.CountHitsConcat | main.py:53 | counting over the concatenated responsibility lists is the sum of the per-list counts |
| Signals.CountHitsMonotone | main.py:31 | a text matched by every pattern that matches another has at least as many hits |
| Signals.RatioCap | main.py:32 | the ratio lies in [0, 1], is 0 for a non-positive cap, 1 once hits reach the cap, and `hits / cap` below it |
| Signals.RatioCapMonotone | main.py:32 | more hits never lower the ratio |
| Signals.AnyMatchIffHits | main.py:57-58 | `any(p.search(...))` holds iff the hit count is positive |
| Signals.InRequiredLine | main.py:39-44 | returns true iff the text is non-empty and some clause matches both the requirement pattern and the key pattern |
| Signals.RequiredContextByClauses | main.py:39-44 | the answer depends only on the set of clauses, not their order or repetition |
| Signals.RequiredContextSingleClause | main.py:39-44 | a non-empty text without break characters is tested as one clause |
| Signals.ParseDecimal | main.py:36 | `int(group)` succeeds iff the group is a non-empty run of decimal digits |
| Signals.Parsed | main.py:34-37 | the collected numbers are exactly the values of the groups that parse |
| Signals.MaxOf | main.py:38 | `max(nums)` is an element of the list that bounds every element |
| Signals.SalaryCeiling | main.py:33-38 | none iff no group parses; otherwise a parsed value no other parsed value exceeds |
| Signals.MaxSalaryK | main.py:33-38 | the loop over the captured groups returns the salary ceiling |
| Signals.AsWrittenSalaryNeverParses | main.py:28 | every group the pattern as written captures (one digit of any script, two or three `{`, then `}`) fails `int()`, so the ceiling is always none |
| Signals.IntendedSalaryGroupParses | main.py:28 | with the intended two-or-three-digit group, every group parses, to a value below 1000, which is the ceiling |
| Signals.IntendedSalaryExample | main.py:28 | the intended group "95" of "$95k" gives the ceiling 95 |
| Scoring.RequiredScore | main.py:48-51 | the requirement score is 100, 82, 75 or 57, each for exactly one combination of the SQL and CRM penalties |
| Scoring.WeightedBase | main.py:52-56 | the weighted base lies between 34.95 and 100 |
| Scoring.Clamp | main.py:63 | `max(0, min(92, x))` lies in [0, 92] and is `x` inside that range |
| Scoring.ClampMonotone | main.py:63 | the clamp is monotone |
| Scoring.RoundHalfEven | main.py:63 | `round(x)` is within one half of `x`, and a tie goes to the even neighbour |
| Scoring.RoundHalfEvenUnique | main.py:63 | those two properties determine the rounded value |
| Scoring.RoundHalfEvenMonotone | main.py:63 | rounding is monotone |
| Scoring.Score | main.py:46-63 | the score is an integer in [0, 92], and 0 exactly under the internship override |
| Scoring.AcceptanceScore | main.py:46-63 | computing step by step (penalties, base, bonuses, salary penalty, override, clamp, round) yields the score of the extracted signals |
| Scoring.ScoreMonotoneInCoverage | main.py:53-56 | more responsibility, domain or tool hits never lower the score |
| Scoring.BonusScaledByPenalty | main.py:57-61 | the bonuses are added before the ×0.70 penalty, so under it each is worth 70% of its face value |
| Scoring.ScoreFloor | main.py:56-63 | without the override the score is at least 35, or 24 under the salary penalty |
| Scoring.NoSignalScore | main.py:46-63 | a posting with no signal at all scores 50 |
| Scoring.RemoteNeverPenalised | main.py:59-61 | a remote posting (description or location) is never penalised |
| Scoring.AsWrittenPenaltyUnreachable | main.py:59-61 | with the salary pattern as written, the salary penalty never applies |
| Scoring.ExampleSqlRequired | main.py:46-63 | a SQL requirement with 4/3/3 coverage hits scores 65, whether or not the location is far |
| Scoring.ExampleIntendedSalaryPenalty | main.py:59-63 | the same posting with the intended salary ceiling 95 and a far location scores 46 (45.5 rounded to even) |
| Scoring.Decision | main.py:122 | Apply (Priority) iff the score is at least 80, Apply iff it is in [70, 80), Skip iff below 70 |
| Scoring.DecisionMonotone | main.py:122 | a higher score never gets a lower tier |
| Scoring.LabelsDistinct | main.py:122 | the three decision texts are distinct |
| Scoring.InternshipSkipped | main.py:62 | an internship without full-time wording is always skipped |
| Resume.DedupByKeeps | main.py:71 | de-duplication loses only repeats: every element read has its key among the kept ones |
| Resume.DedupByKeysDistinct | main.py:71 | de-duplication keeps no two elements with the same key |
| Resume.DedupByFrom | main.py:71 | de-duplication keeps only elements of its input |
| Resume.DedupByPrefix | main.py:73 | reading more input only extends what was kept |
| Resume.Candidates | main.py:68-71 | every candidate sentence has 20 to 180 characters |
| Resume.CandidatesComplete | main.py:68-71 | every matching sentence of 20 to 180 stripped characters is a candidate, stripped |
| Resume.CandidatesFrom | main.py:68-71 | every candidate is a matching sentence of the text, stripped |
| Resume.PickSentences | main.py:65-74 | the loop with its early exit returns the first `n` distinct candidates, or for `n <= 0` the candidate of the first sentence only |
| Resume.PickedShape | main.py:65-74 | at most `n` sentences (at most one for `n <= 0`), forming a prefix of the distinct candidates in source order; for `n >= 1` the stop at `n` hits only cuts off later candidates, and for `n <= 0` only the first sentence can be picked, since the stop check holds after one sentence |
| Resume.PickedDistinct | main.py:71 | the picked sentences are pairwise distinct |
| Resume.PickedComplete | main.py:67-73 | when fewer than `n` sentences are picked, every matching sentence of 20 to 180 stripped characters is picked, stripped |
| Resume.PickedFromSentences | main.py:68-72 | each picked sentence is a matching sentence of the text, stripped, 20 to 180 characters long |
| Resume.NormalizeFacts | main.py:100 | a normalised bullet neither starts nor ends with whitespace or `•`, its only whitespace is the plain space, and the final `strip()` removes nothing |
| Resume.Bodies | main.py:100-101 | only non-empty normalised bullets are considered |
| Resume.BodiesComplete | main.py:99-101 | every entry whose normalised form is non-empty is considered |
| Resume.BodiesFrom | main.py:100 | each considered bullet is the normalised form of an entry of the pool |
| Resume.BuildBullets | main.py:98-103 | the bullet loop with `seen` and its stop at six yields the first six case-insensitively distinct normalised bullets, each prefixed with `• ` |
| Resume.BulletLinesFacts | main.py:98-104 | at most six lines, each `• ` followed by a normalised entry of the pool, no two equal ignoring case |
| Resume.BulletLinesComplete | main.py:99-103 | with fewer than six lines, every entry whose normalised form is non-empty has a line equal to it ignoring case |
| Resume.BulletLineHasNoNewline | main.py:100-103 | no bullet line contains a newline |
| Resume.BulletTextLines | main.py:104 | the newline-joined bullet text holds one newline fewer than there are lines (none when there are none), at most five, so it splits back into its at most six lines |
| Resume.SummaryIgnoresTitleAndCompany | main.py:85 | as written, the summary is the same for every title and company and ends with the literal placeholders |
| Resume.StripOr | main.py:78 | `s.strip() or fallback` is the stripped text when it is non-empty, otherwise the fallback ("Product Manager" for the title, "the company" for the company), and never empty when the fallback is not |
| Resume.IntendedSummaryNamesRole | main.py:85 | with the placeholders substituted, two postings with the same description and company get the same summary iff their titles agree |
| Resume.SkillListFacts | main.py:87-89 | 8 to 10 skills, so `[:10]` drops none; the AI skill sits at index 2 iff asked for, the bilingual skill is last iff asked for, and the base skills keep their order |
| Resume.SkillsFreeOfSemicolon | main.py:87-89 | no skill text contains `;` |
| Resume.SkillsTextEntries | main.py:104 | the `"; "`-joined skills text holds exactly one `;` fewer than there are skills, between 7 and 9, so it splits back into its 8 to 10 entries |
| Resume.MakeCv | main.py:76-104 | all three outputs are empty iff the score is below 70; otherwise the summary, the joined skill list (with fewer than ten `;`) and the newline-joined bullet lines (with fewer than six newlines) built from the two picked theme sentences and the five fixed achievements |

## Left out

- Regular expressions: each pattern is modelled as its `search` test, a function from text to bool. The pattern strings themselves (the vocabularies, `re.I`, word boundaries) are not interpreted.
- `finditer` over the salary pattern is modelled as a function from text to the captured groups. The model relates the group shape as written and as intended to parsing, not the matching itself.
- The sentence splitter `re.split(r"(?<=[.!?])\s+|\n+", ...)` is modelled as a given function from text to sentences.
- Floating point: the score is computed on exact reals. An IEEE-754 product that lands a hair off an exact `.5` could round differently from the exact value.
- Text.Lower: lowers the ASCII letters A to Z only. Python's `lower()` lowers every cased character (`É` to `é`), so two bullets that differ only in the case of a non-ASCII letter are both kept here.
- Signals.ParseDecimal: accepts ASCII digit runs only. Python's `int()` also accepts surrounding whitespace, a sign, underscores and the decimal digits of other scripts. A `\d` in a pattern over `str` captures such digits too, so with the intended pattern the text "٩٥k" gives 95 in Python and no value here. With the pattern as written no group parses either way, because every group ends in `}`.
- Scoring.RequiredScore: the `max(0, ...)` floor is kept, but it never bites, because the largest penalty is 43.
- Resume.MakeCv: models the summary as written, with the literal placeholders. The intended summary is a separate definition (see Findings).
- Posting fields are strings. `str()` of missing or NaN table cells, and `text or ""` for `None`, are not modelled.
- `main()` is not modelled: reading the Excel or CSV input, filling absent columns, sorting by score, writing the three output files, the `accept_score >= 70` filter and `print`. It is file I/O around the core.

## Findings

| source | as written | input that shows it | evidently intended | confidence | as-written member | corrected member |
|---|---|---|---|---|---|---|
| main.py:28 | `r"...(\d{{2,3}})..."` is a raw string, not an f-string, so the braces stay doubled. The group is one digit, then two or three `{`, then `}`, and `int()` rejects every such group. | Salary text "$95k": no group is captured, so the salary ceiling is none and the ×0.70 penalty never applies to any posting. | `(\d{2,3})`: "$95k" gives 95, and a far on-site posting at or below 120k is penalised. The example posting drops from 65 to 46. | not executed; high | Signals.AsWrittenSalaryNeverParses | Signals.IntendedSalaryGroupParses |
| main.py:85 | `{{title}}` and `{{company}}` inside an f-string print literal braces. The summary ends "Ready to drive outcomes as {title} at {company}.", and the title and company computed on line 78 go unused. | Any posting with score ≥ 70 and title "Growth PM". | "Ready to drive outcomes as Growth PM at <company>.", so postings with different titles get different summaries. | not executed; high | Resume.SummaryIgnoresTitleAndCompany | Resume.IntendedSummaryNamesRole |
