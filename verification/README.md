# Career-guidance core: exam calculator and program recommender

This project models the decision logic of a career-guidance web application for
Russian university applicants, and proves properties about it. The logic has
two parts.

- **Exam calculator** (`app/calc.py`). Each program of study publishes a subject
  requirement in a compact notation. For example, `"М/Р+Ф"` means "math or
  Russian, and physics". Each requirement has a passing threshold (the 2024
  score), which may be missing. The calculator does three things:
  - it parses the requirement into an AND-list of OR-groups of subject keys;
  - it adds up the best exam score of each group;
  - it reports whether the user meets the threshold and an admission
    probability, a linear ramp from 0% at 30 points below the threshold to
    100% at 30 points above it.
- **Career test** (`app/career_utils.py`). The answers to the questionnaire are
  turned into per-direction interest totals, and the directions are ordered by
  interest. A direction is then recommended: the most interesting direction
  whose program the user's exam results admit, or, when none does, simply the
  most interesting direction.

Modules:

- `Wrappers`: `Option`.
- `Text`: Python's `str.split` on one character and `str.strip` with Python's
  whitespace set.
- `Calc`: the subject table, the parser and its inverse, the aggregator, and
  the eligibility and probability rule.
- `Pairs`: an insertion-ordered dictionary from directions to integers.
- `Interest`: the interest scorer.
- `Ordering`: the stable descending sort.
- `Recommend`: the recommender.

Python dictionaries whose iteration order matters are modelled as sequences of
`(key, value)` pairs. The types do not rule out a repeated key, and the
ordering and recommending operations accept any such sequence. The interest
scorer's output is proved free of duplicates (Interest.InterestScoresDistinct).
The exam-score dictionary and the program table are modelled as Dafny maps.

`Calc.IsSubject` writes out the seven subject keys instead of reading them
from the code table, because that is cheaper for the prover.
Calc.SubjectsAreTableValues is the consistency check between the two.

## Model

| member | source | states |
|---|---|---|
| Calc.SubjectsAreTableValues | app/calc.py:6-14 | the subject keys the model works with are exactly the values of the seven-letter code table |
| Calc.CodeOf | app/calc.py:6-14 | every subject key has a one-letter code; the table maps that code back to the key; the code is neither whitespace nor a separator |
| Calc.ParseSubjects | app/calc.py:17-28 | the parser only ever produces non-empty groups of known subject keys, at most one group per `+`-separated part |
| Calc.Recognize | app/calc.py:21-25 | one token: strip it, and if it is a single character with an entry in the code table, give that subject key; a recognised name is always a known subject key and always came from a one-character stripped token |
| Calc.ParseGroup | app/calc.py:21-25 | one `+`-part: split it on `/` and keep the recognised names in token order (properties in Calc.Recognized and Calc.UnknownTokenDropped) |
| Calc.Recognized | app/calc.py:21-25 | the recognised names are known subject keys, at most one per token |
| Calc.ParseGroups | app/calc.py:19-27 | parts with no recognised token are dropped, so every group kept is non-empty and well formed |
| Calc.UnknownTokenDropped | app/calc.py:22-25 | a token that is not a code (after stripping whitespace) is skipped wherever it occurs, without error |
| Calc.ParseGroupsCons | app/calc.py:19-27 | the groups of a leading `+`-part come first, or nothing when it has no recognised token, followed by the groups of the remaining parts |
| Calc.EmptyGroupOmitted | app/calc.py:26-27 | a `+`-part with no recognised alternative contributes no group at all |
| Calc.ParseRender | app/calc.py:17-28 | round trip: every well-formed requirement, written back in the compact notation, parses back to itself |
| Calc.ParseExample | app/calc.py:17-28 | `"М/Р+Ф"` parses to `[[math, russian], [physics]]` |
| Calc.Best | app/calc.py:34 | `max(scores.get(s, 0) for s in group)` over a non-empty group (properties in Calc.BestIsMax) |
| Calc.BestIsMax | app/calc.py:34 | a group's best score is at least the score of every alternative and equal to one of them; an exam not taken counts as 0 |
| Calc.ProgramScore | app/calc.py:31-35 | the total is defined exactly when no group is empty (Python's `max` raises on an empty group); an empty requirement totals 0 |
| Calc.ProgramScoreCons | app/calc.py:33-34 | prepending a non-empty group adds that group's best score to the total |
| Calc.ProgramScoreAppend | app/calc.py:31-35 | the total is additive over concatenated requirement lists |
| Calc.ProgramScoreMonotone | app/calc.py:31-35 | raising exam scores pointwise never lowers the total |
| Calc.RaiseOneSubject | app/calc.py:31-35 | raising a single subject's score never lowers the total |
| Calc.ProgramScoreNonNegative | app/calc.py:31-35 | non-negative exam scores give a non-negative total |
| Calc.ProgramScoreBounded | app/calc.py:31-35 | with every score at most m, the total is at most m per group |
| Calc.UserScore | app/calc.py:60-61 | a program's score for the user: its parsed requirement totalled against the exam map, which is always defined because the parser never yields an empty group (Calc.ParsedZero); the recommender uses the same total at app/career_utils.py:88-89 |
| Calc.ProgramScoreZero | app/calc.py:31-35 | all-zero or missing exams total 0 |
| Calc.ParsedZero | app/calc.py:58-61 | any program's parsed requirement, scored against all-zero exams, totals 0 (the parser never yields the empty group that would raise) |
| Calc.ScoreExample | app/calc.py:31-35 | with math 70, russian 50, physics 90, `(math or russian) and physics` scores 160 |
| Calc.RoundTenths | app/calc.py:66 | the probability in tenths of a percent is the integer nearest to gap·50/3, that is, `round(gap / 60 * 100, 1)` |
| Calc.Clamp | app/calc.py:66 | `max(lo, min(hi, x))`: the result lies in [lo, hi], equals x inside that range, and equals the crossed bound outside it |
| Calc.Assess | app/calc.py:62-66 | eligible exactly when a threshold is published and the score meets it; a probability exactly when a threshold is published; the probability lies in 0..100% |
| Calc.ProbabilityMonotone | app/calc.py:66 | a higher score never gives a lower probability |
| Calc.ProbabilitySaturates | app/calc.py:66 | 30 points above the threshold is 100%, 30 points below is 0% |
| Calc.EligibleIffHalf | app/calc.py:63-66 | with a threshold, the user is eligible exactly when the probability is at least 50% |
| Calc.AssessExample | app/calc.py:62-66 | a score of 160 against a threshold of 150 is eligible at 66.7% |
| Calc.EvaluatePrograms | app/calc.py:58-67 | one row per program, in order; each row carries the program's aggregated score and the verdict of the eligibility and probability rule (Calc.Assess) for that score and the program's threshold, so the probability, when present, lies in 0..100% |
| Text.Split | app/calc.py:19-21 | `str.split` on one character: exactly one more part than separators, and no part contains the separator |
| Text.JoinSplit | app/calc.py:19-21 | joining the parts of a split with the separator restores the string |
| Text.SplitJoin | app/calc.py:19-21 | splitting a join of separator-free parts restores the parts |
| Text.StripShape | app/calc.py:22 | `str.strip` removes a whitespace prefix and suffix and leaves a result that neither starts nor ends with whitespace |
| Text.StripPadded | app/calc.py:22 | stripping whitespace padding around a core that starts and ends with non-whitespace gives back the core |
| Pairs.Add | app/career_utils.py:54 | `totals[d] = totals.get(d, 0) + w`: d's value grows by w and no other key changes; an existing key keeps its position, a new key goes last |
| Pairs.AddDistinct | app/career_utils.py:54 | an update never creates a duplicate key |
| Pairs.AddAll | app/career_utils.py:53-54 | the inner loop: fold each `(direction, weight)` of an option into the totals with Pairs.Add (properties in Pairs.AddAllGet, Pairs.AddAllKeys, Pairs.AddAllDistinct) |
| Pairs.AddAllGet | app/career_utils.py:53-54 | after folding in a weight list, each key's value is its old value plus the sum of its weights in the list |
| Pairs.AddAllKeys | app/career_utils.py:53-54 | keys are kept in first-insertion order: old keys, then new keys in the order they first appear |
| Pairs.GetIsTotal | app/career_utils.py:54 | in a dictionary without duplicate keys, the lookup is the sum over all entries for that key |
| Interest.Chosen | app/career_utils.py:46-52 | an option is chosen exactly when the question was answered and the index lies in `[0, len(options))`, and it is the option at that index |
| Interest.Step | app/career_utils.py:47-54 | one question: when an option is validly chosen (Interest.Chosen), add its weights to the totals, otherwise leave them unchanged |
| Interest.Tally | app/career_utils.py:45-54 | the outer loop: apply Interest.Step to each question in order (Interest.TallyAppend) |
| Interest.InterestScores | app/career_utils.py:44-55 | the loop started from an empty dictionary; its value, keys, order and lack of duplicates are stated by the four lemmas below |
| Interest.InterestScoresValue | app/career_utils.py:34-55 | each direction's total is the sum of its weights over the validly chosen options |
| Interest.InterestScoresKeys | app/career_utils.py:34-55 | a direction has a total exactly when some validly chosen option weights it |
| Interest.InterestScoresOrder | app/career_utils.py:44-55 | directions appear in the order they are first met while scanning the questions and their weights |
| Interest.InterestScoresDistinct | app/career_utils.py:44-55 | the result has no duplicate directions |
| Interest.SkippedQuestion | app/career_utils.py:47-51 | an unanswered question, or one answered with an out-of-range index, has no effect on the result |
| Interest.NoAnswersNoScores | app/career_utils.py:44-55 | with no answers the totals are empty |
| Interest.TallyAppend | app/career_utils.py:45-54 | the scoring loop over concatenated question lists is the loop over the second list, started from the first list's totals |
| Ordering.Insert | app/career_utils.py:58-60 | place one entry before the first entry whose score is not greater, which is how a stable descending sort places an earlier entry; one entry longer than its input |
| Ordering.OrderScores | app/career_utils.py:58-60 | `sorted(scores.items(), key=lambda x: x[1], reverse=True)` as an insertion sort; as long as its input (properties in Ordering.OrderScoresSpec) |
| Ordering.OrderScoresSpec | app/career_utils.py:58-60 | the result is sorted by descending score, is a permutation of the input, and keeps entries with equal scores in their input order |
| Ordering.OrderScoresCharacterized | app/career_utils.py:58-60 | any sorted list with the same per-score classes as the input is the result, so the three properties pin it down |
| Ordering.OrderScoresHeadIsMax | app/career_utils.py:58-60 | the first entry has a maximal score |
| Ordering.OrderExample | tests/test_career_utils.py:27-30 | `{A: 1, B: 3, C: 2}` orders as B, C, A |
| Recommend.FirstMatch | app/career_utils.py:79-91 | the walk stops at the first direction that passes the test; every direction before it fails |
| Recommend.Select | app/career_utils.py:73-95 | None exactly when there are no scores |
| Recommend.SelectInScores | app/career_utils.py:76-95 | with scores, the answer is one of the scored directions |
| Recommend.Qualifies | app/career_utils.py:80-90 | the loop's test for one direction: it has a program, the program has a threshold, and the user's score for it meets the threshold |
| Recommend.QualifiesIsEligible | app/career_utils.py:80-90 | the recommender's test is the calculator's eligibility verdict for the direction's program |
| Recommend.RecommendProgram | app/career_utils.py:63-95 | `None` exactly when the interest scores are empty |
| Recommend.RecommendInScores | app/career_utils.py:76-95 | with interest scores, the recommendation is one of the scored directions |
| Recommend.RecommendFirstEligible | app/career_utils.py:76-91 | when some direction qualifies, the answer is the first qualifying direction in descending interest order |
| Recommend.RecommendMaximalEligible | app/career_utils.py:76-91 | when some direction qualifies, the answer qualifies and has the highest interest among the qualifying directions |
| Recommend.RecommendFallback | app/career_utils.py:76-77 | when nothing qualifies, the answer is the head of the order, a direction of maximal interest |
| Recommend.NonQualifyingOnlyByFallback | app/career_utils.py:80-95 | a direction without a program, without a threshold, or with an unmet threshold is returned only when nothing qualifies, and then it heads the order |
| Recommend.FallbackScenario | app/career_utils.py:84-95 | a direction without a threshold is never preferred over a higher-interest direction just because nothing else matched |

## Left out

- `load_structure` (`app/career_utils.py:10-31`): reading the questionnaire and program files, the regular expressions and the JSON. Questions and programs are inputs to the model.
- `ensure_career_test`, the database models, the Flask routes and templates, the admin and API views, authentication and configuration. They are persistence and presentation.
- The calculator's form handling (`app/calc.py:42-56`): `int()` coercion of form fields, the `ValueError` fallback to 0, and the defaults taken from the logged-in user. The exam scores are an input map.
- The program list `EGE_PROGRAMS` is data, and it is an input. Question and option texts are not modelled, because only ids, options and weights affect the result.
- Calc.RoundTenths: the probability is an exact integer count of tenths of a percent, not a Python float. Inside the unclamped window the exact result is the nearest tenth. The model does not represent binary floating-point error, nor the float formatting of the result.
- Calc.ProgramScore: Python's `ValueError` from `max` over an empty group is modelled as `None`. It is never raised on the parser's output (Calc.ParsedZero, Calc.ParseSubjects), so `UserScore` takes the value directly.
- Calc.Assess: Python's `/` on two integers at `app/calc.py:66` raises `OverflowError` when the quotient is beyond the float range, which happens once the gap between score and threshold exceeds about 1.08e310. `int()` of a form field (`app/calc.py:54`) can produce such a score. The model has no error case there: for those gaps it gives 0% or 100%, as for any gap beyond 30 points (Calc.ProbabilitySaturates).
- Recommend.Qualifies: the source's `if not info` also skips a program entry that is an empty dictionary. A `Program` record is never empty, so that case is not represented.
- Recommend.RecommendProgram: the function's docstring says that directions without a passing score are "considered" once nothing else matches. The code never picks such a direction for that reason: it skips it and falls back to the top-interest direction. The model follows the code (Recommend.FallbackScenario).
