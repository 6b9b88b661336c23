/**
 `recommend_program`: chooses a direction of study from the interest scores,
 preferring the most interesting direction whose program admits the user's
 exam results, and otherwise the most interesting direction outright.

 The walk over the ordered directions is written once, for any admission test
 `ok`; RecommendProgram instantiates it with the program-threshold test.
 */
module Recommend {
  import opened Wrappers
  import Pairs
  import Calc
  import Ordering

  // ---------------------------------------------------------------------------
  // The selection walk, for an arbitrary admission test
  // ---------------------------------------------------------------------------

  /** Position of the first entry of `ordered` whose direction passes `ok`. */
  function FirstMatch(ordered: seq<Pairs.Entry>, ok: string -> bool): (k: Option<nat>)
    ensures k.Some? ==> k.value < |ordered| && ok(ordered[k.value].0)
    ensures k.Some? ==> forall j :: 0 <= j < k.value ==> !ok(ordered[j].0)
    ensures k.None? ==> forall j :: 0 <= j < |ordered| ==> !ok(ordered[j].0)
  {
    if |ordered| == 0 then None
    else if ok(ordered[0].0) then Some(0)
    else
      match FirstMatch(ordered[1..], ok)
      case None => None
      case Some(k) => Some(k + 1)
  }

  lemma {:induction false} InOrdered(scores: seq<Pairs.Entry>, k: int)
    requires 0 <= k < |Ordering.OrderScores(scores)|
    ensures Ordering.OrderScores(scores)[k] in scores
    ensures Ordering.OrderScores(scores)[k].0 in Pairs.Keys(scores)
  {
    var ordered := Ordering.OrderScores(scores);
    Ordering.OrderScoresSpec(scores);
    assert ordered[k] in multiset(ordered);
    var i :| 0 <= i < |scores| && scores[i] == ordered[k];
    assert Pairs.Keys(scores)[i] == ordered[k].0;
  }

  lemma {:induction false} FromScores(scores: seq<Pairs.Entry>, i: int) returns (m: int)
    requires 0 <= i < |scores|
    ensures 0 <= m < |Ordering.OrderScores(scores)| && Ordering.OrderScores(scores)[m] == scores[i]
  {
    var ordered := Ordering.OrderScores(scores);
    Ordering.OrderScoresSpec(scores);
    assert scores[i] in multiset(scores);
    m :| 0 <= m < |ordered| && ordered[m] == scores[i];
  }

  /**
   None without scores; otherwise the first direction passing `ok` in stable
   descending score order, or failing that the first direction of that order.
   */
  function Select(scores: seq<Pairs.Entry>, ok: string -> bool): (r: Option<string>)
    ensures r.None? <==> |scores| == 0
  {
    if |scores| == 0 then None
    else
      var ordered := Ordering.OrderScores(scores);
      Some(ordered[FirstMatch(ordered, ok).GetOr(0)].0)
  }

  /** The answer is always one of the scored directions. */
  lemma {:induction false} SelectInScores(scores: seq<Pairs.Entry>, ok: string -> bool)
    requires |scores| > 0
    ensures Select(scores, ok).value in Pairs.Keys(scores)
  {
    InOrdered(scores, FirstMatch(Ordering.OrderScores(scores), ok).GetOr(0));
  }

  lemma {:induction false} SelectFirst(scores: seq<Pairs.Entry>, ok: string -> bool)
    requires exists i :: 0 <= i < |scores| && ok(scores[i].0)
    ensures var ordered := Ordering.OrderScores(scores);
            exists k :: 0 <= k < |ordered| && Select(scores, ok) == Some(ordered[k].0)
                        && ok(ordered[k].0) && forall j :: 0 <= j < k ==> !ok(ordered[j].0)
  {
    var ordered := Ordering.OrderScores(scores);
    var i :| 0 <= i < |scores| && ok(scores[i].0);
    var m := FromScores(scores, i);
    var k := FirstMatch(ordered, ok).value;
    assert Select(scores, ok) == Some(ordered[k].0);
  }

  lemma {:induction false} SelectMaximal(scores: seq<Pairs.Entry>, ok: string -> bool)
    requires exists i :: 0 <= i < |scores| && ok(scores[i].0)
    ensures exists e :: e in scores && Some(e.0) == Select(scores, ok) && ok(e.0)
                        && forall i :: 0 <= i < |scores| && ok(scores[i].0) ==> e.1 >= scores[i].1
  {
    var ordered := Ordering.OrderScores(scores);
    var i0 :| 0 <= i0 < |scores| && ok(scores[i0].0);
    var m0 := FromScores(scores, i0);
    var k := FirstMatch(ordered, ok).value;
    InOrdered(scores, k);
    Ordering.OrderScoresSpec(scores);
    forall i | 0 <= i < |scores| && ok(scores[i].0)
      ensures ordered[k].1 >= scores[i].1
    {
      var m := FromScores(scores, i);
      assert k <= m;
    }
    assert Select(scores, ok) == Some(ordered[k].0);
  }

  lemma {:induction false} SelectFallback(scores: seq<Pairs.Entry>, ok: string -> bool)
    requires |scores| > 0
    requires forall i :: 0 <= i < |scores| ==> !ok(scores[i].0)
    ensures |Ordering.OrderScores(scores)| > 0
    ensures Select(scores, ok) == Some(Ordering.OrderScores(scores)[0].0)
    ensures forall i :: 0 <= i < |scores| ==> Ordering.OrderScores(scores)[0].1 >= scores[i].1
  {
    var ordered := Ordering.OrderScores(scores);
    Ordering.OrderScoresHeadIsMax(scores, 0);
    if FirstMatch(ordered, ok).Some? {
      InOrdered(scores, FirstMatch(ordered, ok).value);
      assert false;
    }
    forall i | 0 <= i < |scores|
      ensures ordered[0].1 >= scores[i].1
    {
      Ordering.OrderScoresHeadIsMax(scores, i);
    }
  }

  lemma {:induction false} SelectNonMatching(scores: seq<Pairs.Entry>, ok: string -> bool)
    requires |scores| > 0
    requires !ok(Select(scores, ok).value)
    ensures forall i :: 0 <= i < |scores| ==> !ok(scores[i].0)
    ensures Select(scores, ok) == Some(Ordering.OrderScores(scores)[0].0)
  {
    if exists i :: 0 <= i < |scores| && ok(scores[i].0) {
      SelectFirst(scores, ok);
    }
    SelectFallback(scores, ok);
  }

  // ---------------------------------------------------------------------------
  // The recommendation
  // ---------------------------------------------------------------------------

  /**
   A direction qualifies when it has a program entry, that entry publishes a
   threshold, and the user's aggregated exam score for it meets the threshold.
   */
  predicate Qualifies(direction: string, exams: map<string, int>, programs: map<string, Calc.Program>)
  {
    && direction in programs
    && programs[direction].threshold.Some?
    && Calc.UserScore(programs[direction], exams) >= programs[direction].threshold.value
  }

  /** Qualifies, as the test handed to the selection walk. */
  function Admits(exams: map<string, int>, programs: map<string, Calc.Program>): string -> bool
  {
    d => Qualifies(d, exams, programs)
  }

  /** The selector's test is the calculator's eligibility verdict for the direction's program. */
  lemma {:induction false} QualifiesIsEligible(direction: string, exams: map<string, int>, programs: map<string, Calc.Program>)
    requires direction in programs
    ensures Qualifies(direction, exams, programs)
            == Calc.Assess(Calc.UserScore(programs[direction], exams), programs[direction].threshold).eligible
  {
  }

  /** `recommend_program`. */
  function RecommendProgram(scores: seq<Pairs.Entry>, exams: map<string, int>, programs: map<string, Calc.Program>): (r: Option<string>)
    ensures r.None? <==> |scores| == 0
  {
    Select(scores, Admits(exams, programs))
  }

  /** The recommendation is always one of the scored directions. */
  lemma {:induction false} RecommendInScores(scores: seq<Pairs.Entry>, exams: map<string, int>, programs: map<string, Calc.Program>)
    requires |scores| > 0
    ensures RecommendProgram(scores, exams, programs).value in Pairs.Keys(scores)
  {
    SelectInScores(scores, Admits(exams, programs));
  }

  /**
   When some direction qualifies, the answer is the first qualifying one in
   descending interest order: every direction before it lacks a program, lacks
   a threshold, or is not met.
   */
  lemma {:induction false} RecommendFirstEligible(scores: seq<Pairs.Entry>, exams: map<string, int>, programs: map<string, Calc.Program>)
    requires exists i :: 0 <= i < |scores| && Qualifies(scores[i].0, exams, programs)
    ensures var ordered := Ordering.OrderScores(scores);
            exists k :: 0 <= k < |ordered|
                        && RecommendProgram(scores, exams, programs) == Some(ordered[k].0)
                        && Qualifies(ordered[k].0, exams, programs)
                        && forall j :: 0 <= j < k ==> !Qualifies(ordered[j].0, exams, programs)
  {
    SelectFirst(scores, Admits(exams, programs));
  }

  /** The qualifying answer has the highest interest among all qualifying directions. */
  lemma {:induction false} RecommendMaximalEligible(scores: seq<Pairs.Entry>, exams: map<string, int>, programs: map<string, Calc.Program>)
    requires exists i :: 0 <= i < |scores| && Qualifies(scores[i].0, exams, programs)
    ensures exists e :: e in scores && Some(e.0) == RecommendProgram(scores, exams, programs)
                        && Qualifies(e.0, exams, programs)
                        && forall i :: 0 <= i < |scores| && Qualifies(scores[i].0, exams, programs) ==> e.1 >= scores[i].1
  {
    SelectMaximal(scores, Admits(exams, programs));
  }

  /**
   When no direction qualifies, the answer is the first direction of the
   stable descending order, a direction of maximal interest.
   */
  lemma {:induction false} RecommendFallback(scores: seq<Pairs.Entry>, exams: map<string, int>, programs: map<string, Calc.Program>)
    requires |scores| > 0
    requires forall i :: 0 <= i < |scores| ==> !Qualifies(scores[i].0, exams, programs)
    ensures |Ordering.OrderScores(scores)| > 0
    ensures RecommendProgram(scores, exams, programs) == Some(Ordering.OrderScores(scores)[0].0)
    ensures forall i :: 0 <= i < |scores| ==> Ordering.OrderScores(scores)[0].1 >= scores[i].1
  {
    SelectFallback(scores, Admits(exams, programs));
  }

  /**
   A direction that does not qualify (no program, no threshold, or not met)
   is chosen only through the fallback: nothing qualifies and it heads the order.
   */
  lemma {:induction false} NonQualifyingOnlyByFallback(scores: seq<Pairs.Entry>, exams: map<string, int>, programs: map<string, Calc.Program>)
    requires |scores| > 0
    requires !Qualifies(RecommendProgram(scores, exams, programs).value, exams, programs)
    ensures forall i :: 0 <= i < |scores| ==> !Qualifies(scores[i].0, exams, programs)
    ensures RecommendProgram(scores, exams, programs) == Some(Ordering.OrderScores(scores)[0].0)
  {
    SelectNonMatching(scores, Admits(exams, programs));
  }

  /**
   The fallback scenario: "Прикладная информатика" (interest 12) has a
   threshold the exams miss and "X" (interest 11) has no threshold; the
   answer is the top-interest direction, not the threshold-less one.
   */
  lemma {:induction false} FallbackScenario(exams: map<string, int>, programs: map<string, Calc.Program>)
    requires !Qualifies("Прикладная информатика", exams, programs)
    requires "X" in programs ==> programs["X"].threshold.None?
    ensures RecommendProgram([("Прикладная информатика", 12), ("X", 11)], exams, programs)
            == Some("Прикладная информатика")
  {
    var scores := [("Прикладная информатика", 12), ("X", 11)];
    assert Ordering.OrderScores(scores[1..]) == [("X", 11)];
    assert Ordering.OrderScores(scores) == scores;
    RecommendFallback(scores, exams, programs);
  }
}
