/**
 The career questionnaire's interest scorer: each answered question
 contributes the direction weights of the option the user picked.
 */
module Interest {
  import opened Wrappers
  import Pairs

  /** An answer option: its weight for each direction (display text is not modelled). */
  datatype Choice = Choice(weights: seq<Pairs.Entry>)

  /** A question: its identifier and its options, indexed from 0. */
  datatype Question = Question(id: int, options: seq<Choice>)

  /**
   The option an answer picks, or None when the question has no answer or the
   index is outside `[0, len(options))`; neither case is an error.
   */
  function Chosen(q: Question, answers: map<int, int>): (c: Option<Choice>)
    ensures c.Some? <==> q.id in answers && 0 <= answers[q.id] < |q.options|
    ensures c.Some? ==> c.value == q.options[answers[q.id]]
  {
    if q.id !in answers then None
    else
      var idx := answers[q.id];
      if !(0 <= idx < |q.options|) then None else Some(q.options[idx])
  }

  /** One pass of the scorer's loop body. */
  function Step(totals: seq<Pairs.Entry>, q: Question, answers: map<int, int>): seq<Pairs.Entry>
  {
    match Chosen(q, answers)
    case None => totals
    case Some(c) => Pairs.AddAll(totals, c.weights)
  }

  /** The scorer's loop over the questions, in order. */
  function Tally(totals: seq<Pairs.Entry>, questions: seq<Question>, answers: map<int, int>): seq<Pairs.Entry>
    decreases |questions|
  {
    if |questions| == 0 then totals
    else Tally(Step(totals, questions[0], answers), questions[1..], answers)
  }

  /** `calculate_interest_scores`: the per-direction totals, starting from an empty dictionary. */
  function InterestScores(questions: seq<Question>, answers: map<int, int>): seq<Pairs.Entry>
  {
    Tally([], questions, answers)
  }

  // ---------------------------------------------------------------------------
  // Reference description: the validly chosen options and their weights
  // ---------------------------------------------------------------------------

  /** The options actually chosen, in question order. */
  function Selected(questions: seq<Question>, answers: map<int, int>): seq<Choice>
  {
    if |questions| == 0 then []
    else
      match Chosen(questions[0], answers)
      case None => Selected(questions[1..], answers)
      case Some(c) => [c] + Selected(questions[1..], answers)
  }

  /** All weights of the chosen options, one after the other. */
  function Weights(choices: seq<Choice>): seq<Pairs.Entry>
  {
    if |choices| == 0 then [] else choices[0].weights + Weights(choices[1..])
  }

  /** The sum, over the chosen options, of their weight for `direction` (absent = 0). */
  function WeightSum(choices: seq<Choice>, direction: string): int
  {
    if |choices| == 0 then 0 else Pairs.Total(choices[0].weights, direction) + WeightSum(choices[1..], direction)
  }

  lemma {:induction false} WeightsTotal(choices: seq<Choice>, direction: string)
    ensures Pairs.Total(Weights(choices), direction) == WeightSum(choices, direction)
  {
    if |choices| > 0 {
      Pairs.TotalAppend(choices[0].weights, Weights(choices[1..]), direction);
      WeightsTotal(choices[1..], direction);
    }
  }

  lemma {:induction false} AddAllAppend(t: seq<Pairs.Entry>, a: seq<Pairs.Entry>, b: seq<Pairs.Entry>)
    ensures Pairs.AddAll(t, a + b) == Pairs.AddAll(Pairs.AddAll(t, a), b)
    decreases |a|
  {
    if |a| == 0 {
      assert a + b == b;
    } else {
      assert (a + b)[1..] == a[1..] + b;
      AddAllAppend(Pairs.Add(t, a[0].0, a[0].1), a[1..], b);
    }
  }

  /** The loop adds exactly the weights of the chosen options, in order. */
  lemma {:induction false} TallyIsAddAll(totals: seq<Pairs.Entry>, questions: seq<Question>, answers: map<int, int>)
    ensures Tally(totals, questions, answers) == Pairs.AddAll(totals, Weights(Selected(questions, answers)))
    decreases |questions|
  {
    if |questions| > 0 {
      var q := questions[0];
      TallyIsAddAll(Step(totals, q, answers), questions[1..], answers);
      match Chosen(q, answers)
      case None =>
      case Some(c) =>
        assert Weights(Selected(questions, answers)) == c.weights + Weights(Selected(questions[1..], answers));
        AddAllAppend(totals, c.weights, Weights(Selected(questions[1..], answers)));
    }
  }

  /** The result is a dictionary: no direction appears twice. */
  lemma {:induction false} InterestScoresDistinct(questions: seq<Question>, answers: map<int, int>)
    ensures Pairs.Distinct(InterestScores(questions, answers))
  {
    TallyIsAddAll([], questions, answers);
    Pairs.AddAllDistinct([], Weights(Selected(questions, answers)));
  }

  /** Each direction's total is the sum of its weights over the chosen options. */
  lemma {:induction false} InterestScoresValue(questions: seq<Question>, answers: map<int, int>, direction: string)
    ensures Pairs.Get(InterestScores(questions, answers), direction) == WeightSum(Selected(questions, answers), direction)
  {
    var ws := Weights(Selected(questions, answers));
    TallyIsAddAll([], questions, answers);
    Pairs.AddAllGet([], ws, direction);
    WeightsTotal(Selected(questions, answers), direction);
  }

  /** The directions present are exactly those weighted by some chosen option. */
  lemma {:induction false} InterestScoresKeys(questions: seq<Question>, answers: map<int, int>, direction: string)
    ensures direction in Pairs.Keys(InterestScores(questions, answers))
            <==> exists c :: c in Selected(questions, answers) && direction in Pairs.Keys(c.weights)
  {
    var chosen := Selected(questions, answers);
    TallyIsAddAll([], questions, answers);
    Pairs.AddAllKeySet([], Weights(chosen), direction);
    WeightsKeys(chosen, direction);
  }

  lemma {:induction false} WeightsKeys(choices: seq<Choice>, direction: string)
    ensures direction in Pairs.Keys(Weights(choices))
            <==> exists c :: c in choices && direction in Pairs.Keys(c.weights)
  {
    if |choices| > 0 {
      WeightsKeys(choices[1..], direction);
      var a, b := choices[0].weights, Weights(choices[1..]);
      assert Pairs.Keys(a + b) == Pairs.Keys(a) + Pairs.Keys(b);
      if direction in Pairs.Keys(b) {
        var c :| c in choices[1..] && direction in Pairs.Keys(c.weights);
        assert c in choices;
      }
      forall c | c in choices && direction in Pairs.Keys(c.weights)
        ensures direction in Pairs.Keys(a) + Pairs.Keys(b)
      {
        if c != choices[0] {
          assert c in choices[1..];
        }
      }
    }
  }

  /** Directions appear in the order in which the chosen options first mention them. */
  lemma {:induction false} InterestScoresOrder(questions: seq<Question>, answers: map<int, int>)
    ensures Pairs.Keys(InterestScores(questions, answers))
            == Pairs.NewKeys([], Pairs.Keys(Weights(Selected(questions, answers))))
  {
    TallyIsAddAll([], questions, answers);
    Pairs.AddAllKeys([], Weights(Selected(questions, answers)));
  }

  /** No answers at all give an empty dictionary. */
  lemma {:induction false} NoAnswersNoScores(questions: seq<Question>)
    ensures InterestScores(questions, map[]) == []
  {
    NothingSelected(questions);
    TallyIsAddAll([], questions, map[]);
  }

  lemma {:induction false} NothingSelected(questions: seq<Question>)
    ensures Selected(questions, map[]) == []
  {
    if |questions| > 0 {
      NothingSelected(questions[1..]);
    }
  }

  lemma {:induction false} TallyAppend(totals: seq<Pairs.Entry>, a: seq<Question>, b: seq<Question>, answers: map<int, int>)
    ensures Tally(totals, a + b, answers) == Tally(Tally(totals, a, answers), b, answers)
    decreases |a|
  {
    if |a| == 0 {
      assert a + b == b;
    } else {
      assert (a + b)[1..] == a[1..] + b;
      TallyAppend(Step(totals, a[0], answers), a[1..], b, answers);
    }
  }

  /** A question with no answer, or with an index out of range, is skipped wherever it stands. */
  lemma {:induction false} SkippedQuestion(a: seq<Question>, q: Question, b: seq<Question>, answers: map<int, int>)
    requires q.id !in answers || !(0 <= answers[q.id] < |q.options|)
    ensures InterestScores(a + [q] + b, answers) == InterestScores(a + b, answers)
  {
    TallyAppend([], a + [q], b, answers);
    TallyAppend([], a, [q], answers);
    TallyAppend([], a, b, answers);
  }
}
