/**
 The exam-score side of the application: the subject-requirement parser, the
 score aggregator and the eligibility / admission-probability estimate shown
 by the exam calculator page.
 */
module Calc {
  import opened Wrappers
  import Text

  /**
   The fixed table of exam codes (Cyrillic capital letters) and the subject
   keys they stand for. Its keys are one-character strings, so a token matches
   exactly when it is that single character.
   */
  const SubjectMap: map<char, string> := map[
    'М' := "math",
    'Р' := "russian",
    'Ф' := "physics",
    'И' := "informatics",
    'Х' := "chemistry",
    'О' := "social",
    'А' := "language"
  ]

  /**
   A subject key the parser can produce. The seven keys are written out rather
   than read from `SubjectMap.Values`, which is costlier for the prover;
   SubjectsAreTableValues shows the two agree.
   */
  predicate IsSubject(name: string)
  {
    name in {"math", "russian", "physics", "informatics", "chemistry", "social", "language"}
  }

  /** The subject keys are exactly the values of the code table. */
  lemma {:induction false} SubjectsAreTableValues(name: string)
    ensures IsSubject(name) <==> name in SubjectMap.Values
  {
    if IsSubject(name) {
      assert SubjectMap[CodeOf(name)] == name;
    }
    if name in SubjectMap.Values {
      var code :| code in SubjectMap && SubjectMap[code] == name;
    }
  }

  /** Alternative subjects of one requirement group (any one of them counts). */
  type Group = seq<string>

  /** What the parser guarantees: every group non-empty and made only of known subject keys. */
  predicate WellFormed(groups: seq<Group>)
  {
    forall g :: 0 <= g < |groups| ==>
      |groups[g]| > 0 && forall i :: 0 <= i < |groups[g]| ==> IsSubject(groups[g][i])
  }

  /** A program of study: its requirement expression and its published threshold, if any. */
  datatype Program = Program(subjects: string, threshold: Option<int>)

  // ---------------------------------------------------------------------------
  // Requirement parser
  // ---------------------------------------------------------------------------

  /** Looks a token up in the code table once surrounding whitespace is removed. */
  function Recognize(token: string): (name: Option<string>)
    ensures name.Some? ==> IsSubject(name.value)
    ensures name.Some? ==> |Text.Strip(token)| == 1
  {
    var t := Text.Strip(token);
    if |t| == 1 && t[0] in SubjectMap then Some(SubjectMap[t[0]]) else None
  }

  /** The subject keys of the recognised tokens, in token order; unknown tokens are dropped. */
  function Recognized(tokens: seq<string>): (names: Group)
    ensures |names| <= |tokens|
    ensures forall i :: 0 <= i < |names| ==> IsSubject(names[i])
  {
    if |tokens| == 0 then []
    else
      match Recognize(tokens[0])
      case Some(n) => [n] + Recognized(tokens[1..])
      case None => Recognized(tokens[1..])
  }

  /** One `+`-separated part: its `/`-separated alternatives. */
  function ParseGroup(part: string): Group
  {
    Recognized(Text.Split(part, '/'))
  }

  /** Parses each part, leaving out the parts in which no token was recognised. */
  function ParseGroups(parts: seq<string>): (groups: seq<Group>)
    ensures |groups| <= |parts|
    ensures WellFormed(groups)
  {
    if |parts| == 0 then []
    else
      var g := ParseGroup(parts[0]);
      if |g| > 0 then [g] + ParseGroups(parts[1..]) else ParseGroups(parts[1..])
  }

  /** `parse_subjects`: a requirement expression such as "М/Р+Ф" as its AND-list of OR-groups. */
  function ParseSubjects(s: string): (groups: seq<Group>)
    ensures WellFormed(groups)
    ensures |groups| <= Text.Count(s, '+') + 1
  {
    ParseGroups(Text.Split(s, '+'))
  }

  /** Recognition distributes over concatenation of token lists. */
  lemma {:induction false} RecognizedAppend(a: seq<string>, b: seq<string>)
    ensures Recognized(a + b) == Recognized(a) + Recognized(b)
  {
    if |a| > 0 {
      assert (a + b)[1..] == a[1..] + b;
      RecognizedAppend(a[1..], b);
    } else {
      assert a + b == b;
    }
  }

  /** A token outside the code table is dropped wherever it stands, without error. */
  lemma {:induction false} UnknownTokenDropped(a: seq<string>, t: string, b: seq<string>)
    requires Recognize(t).None?
    ensures Recognized(a + [t] + b) == Recognized(a + b)
  {
    RecognizedAppend(a + [t], b);
    RecognizedAppend(a, [t]);
    RecognizedAppend(a, b);
  }

  /** One step of ParseGroups: the first part's group, if it has one, then the rest. */
  lemma {:induction false} ParseGroupsCons(p: string, rest: seq<string>)
    ensures ParseGroups([p] + rest) == (if |ParseGroup(p)| > 0 then [ParseGroup(p)] else []) + ParseGroups(rest)
  {
    assert ([p] + rest)[1..] == rest;
  }

  /** Parsing distributes over concatenation of parts. */
  lemma {:induction false} ParseGroupsAppend(a: seq<string>, b: seq<string>)
    ensures ParseGroups(a + b) == ParseGroups(a) + ParseGroups(b)
  {
    if |a| > 0 {
      var p, rest := a[0], a[1..];
      assert a == [p] + rest;
      assert a + b == [p] + (rest + b);
      ParseGroupsAppend(rest, b);
      ParseGroupsCons(p, rest);
      ParseGroupsCons(p, rest + b);
    } else {
      assert a + b == b;
    }
  }

  /** A part left with no recognised token is omitted; it never shows up as an empty group. */
  lemma {:induction false} EmptyGroupOmitted(a: seq<string>, p: string, b: seq<string>)
    requires ParseGroup(p) == []
    ensures ParseGroups(a + [p] + b) == ParseGroups(a + b)
  {
    var left := a + [p];
    assert ParseGroups([p]) == [] by {
      ParseGroupsCons(p, []);
      assert [p] + [] == [p];
    }
    assert ParseGroups(left) == ParseGroups(a) by {
      ParseGroupsAppend(a, [p]);
    }
    ParseGroupsAppend(left, b);
    ParseGroupsAppend(a, b);
  }

  // ---------------------------------------------------------------------------
  // Rendering, the parser's inverse on well-formed requirements
  // ---------------------------------------------------------------------------

  /** The code letter of a subject key. */
  function CodeOf(name: string): (code: char)
    requires IsSubject(name)
    ensures code in SubjectMap && SubjectMap[code] == name
    ensures !Text.IsSpace(code) && code != '/' && code != '+'
  {
    if name == "math" then 'М'
    else if name == "russian" then 'Р'
    else if name == "physics" then 'Ф'
    else if name == "informatics" then 'И'
    else if name == "chemistry" then 'Х'
    else if name == "social" then 'О'
    else 'А'
  }

  function Codes(g: Group): seq<string>
    requires forall i :: 0 <= i < |g| ==> IsSubject(g[i])
  {
    if |g| == 0 then [] else [[CodeOf(g[0])]] + Codes(g[1..])
  }

  function RenderGroups(groups: seq<Group>): seq<string>
    requires WellFormed(groups)
  {
    if |groups| == 0 then [] else [Text.Join(Codes(groups[0]), '/')] + RenderGroups(groups[1..])
  }

  /** Writes a requirement back in the compact notation, e.g. "М/Р+Ф". */
  function Render(groups: seq<Group>): string
    requires WellFormed(groups)
  {
    Text.Join(RenderGroups(groups), '+')
  }

  lemma {:induction false} JoinAvoids(parts: seq<string>, sep: char, c: char)
    requires c != sep
    requires forall i :: 0 <= i < |parts| ==> c !in parts[i]
    ensures c !in Text.Join(parts, sep)
  {
    if |parts| > 1 {
      JoinAvoids(parts[1..], sep, c);
    }
  }

  lemma {:induction false} CodesShape(g: Group)
    requires forall i :: 0 <= i < |g| ==> IsSubject(g[i])
    ensures |Codes(g)| == |g|
    ensures forall i :: 0 <= i < |g| ==> Codes(g)[i] == [CodeOf(g[i])]
  {
    if |g| > 0 {
      CodesShape(g[1..]);
    }
  }

  lemma {:induction false} RecognizeCode(name: string)
    requires IsSubject(name)
    ensures Recognize([CodeOf(name)]) == Some(name)
  {
    var code := [CodeOf(name)];
    Text.StripPadded("", code, "");
    assert "" + code + "" == code;
  }

  lemma {:induction false} RecognizeCodes(g: Group)
    requires forall i :: 0 <= i < |g| ==> IsSubject(g[i])
    ensures Recognized(Codes(g)) == g
  {
    if |g| > 0 {
      RecognizeCode(g[0]);
      RecognizeCodes(g[1..]);
      assert [g[0]] + g[1..] == g;
    }
  }

  /** No code contains a separator character. */
  lemma {:induction false} CodesAvoid(g: Group, c: char)
    requires forall i :: 0 <= i < |g| ==> IsSubject(g[i])
    requires c == '/' || c == '+'
    ensures |Codes(g)| == |g|
    ensures forall i :: 0 <= i < |Codes(g)| ==> c !in Codes(g)[i]
  {
    if |g| > 0 {
      CodesAvoid(g[1..], c);
    }
  }

  lemma {:induction false} ParseJoinedTokens(tokens: seq<string>)
    requires |tokens| >= 1
    requires forall i :: 0 <= i < |tokens| ==> '/' !in tokens[i]
    ensures ParseGroup(Text.Join(tokens, '/')) == Recognized(tokens)
  {
    Text.SplitJoin(tokens, '/');
  }

  lemma {:induction false} ParseRenderedGroup(g: Group)
    requires |g| > 0 && forall i :: 0 <= i < |g| ==> IsSubject(g[i])
    ensures ParseGroup(Text.Join(Codes(g), '/')) == g
  {
    CodesAvoid(g, '/');
    ParseJoinedTokens(Codes(g));
    RecognizeCodes(g);
  }

  lemma {:induction false} ParseRenderedGroups(groups: seq<Group>)
    requires WellFormed(groups)
    ensures |RenderGroups(groups)| == |groups|
    ensures forall i :: 0 <= i < |groups| ==> '+' !in RenderGroups(groups)[i]
    ensures ParseGroups(RenderGroups(groups)) == groups
  {
    if |groups| > 0 {
      var g := groups[0];
      CodesShape(g);
      JoinAvoids(Codes(g), '/', '+');
      ParseRenderedGroup(g);
      ParseRenderedGroups(groups[1..]);
      var rs := RenderGroups(groups);
      assert rs[1..] == RenderGroups(groups[1..]);
      assert [groups[0]] + groups[1..] == groups;
    }
  }

  /** Round trip: every well-formed requirement is parsed back from its rendering. */
  lemma {:induction false} ParseRender(groups: seq<Group>)
    requires WellFormed(groups)
    ensures ParseSubjects(Render(groups)) == groups
  {
    if |groups| == 0 {
      assert Render(groups) == "";
      assert Text.Split("", '/') == [""];
      assert Text.Strip("") == "";
      assert ParseGroup("") == [];
    } else {
      ParseRenderedGroups(groups);
      Text.SplitJoin(RenderGroups(groups), '+');
    }
  }

  /** The worked example: "М/Р+Ф" is (math or russian) and physics. */
  lemma {:induction false} ParseExample()
    ensures ParseSubjects("М/Р+Ф") == [["math", "russian"], ["physics"]]
  {
    var groups: seq<Group> := [["math", "russian"], ["physics"]];
    assert WellFormed(groups);
    assert Codes(["math", "russian"]) == ["М", "Р"];
    assert Codes(["physics"]) == ["Ф"];
    assert Text.Join(["М", "Р"], '/') == "М/Р";
    assert RenderGroups(groups) == ["М/Р", "Ф"];
    assert Render(groups) == "М/Р+Ф";
    ParseRender(groups);
  }

  // ---------------------------------------------------------------------------
  // Score aggregator
  // ---------------------------------------------------------------------------

  /** `scores.get(subject, 0)`: an exam that was not taken counts as 0. */
  function ScoreOf(scores: map<string, int>, subject: string): int
  {
    if subject in scores then scores[subject] else 0
  }

  /** The best score among a group's alternatives (Python `max` over the group). */
  function Best(group: Group, scores: map<string, int>): int
    requires |group| > 0
  {
    if |group| == 1 then ScoreOf(scores, group[0])
    else
      var rest := Best(group[1..], scores);
      var here := ScoreOf(scores, group[0]);
      if here >= rest then here else rest
  }

  /**
   The best score is the maximum: at least every alternative's score and equal
   to one of them. Returns the position of an alternative that attains it.
   */
  lemma {:induction false} BestIsMax(group: Group, scores: map<string, int>) returns (w: nat)
    requires |group| > 0
    ensures forall i :: 0 <= i < |group| ==> ScoreOf(scores, group[i]) <= Best(group, scores)
    ensures w < |group| && ScoreOf(scores, group[w]) == Best(group, scores)
  {
    if |group| == 1 {
      w := 0;
    } else {
      var k := BestIsMax(group[1..], scores);
      w := if ScoreOf(scores, group[0]) >= Best(group[1..], scores) then 0 else k + 1;
      assert forall i :: 1 <= i < |group| ==> group[i] == group[1..][i - 1];
    }
  }

  /**
   `calc_program_score`: the sum over the groups of each group's best score.
   Python's `max` raises on an empty group, modelled as None.
   */
  function ProgramScore(groups: seq<Group>, scores: map<string, int>): (total: Option<int>)
    ensures total.Some? <==> forall g :: 0 <= g < |groups| ==> |groups[g]| > 0
    ensures |groups| == 0 ==> total == Some(0)
  {
    if |groups| == 0 then Some(0)
    else if |groups[0]| == 0 then None
    else
      match ProgramScore(groups[1..], scores)
      case None => None
      case Some(rest) => Some(Best(groups[0], scores) + rest)
  }

  /** The aggregated exam score a program's requirement gives the user; parsed groups are never empty. */
  function UserScore(p: Program, scores: map<string, int>): int
  {
    ProgramScore(ParseSubjects(p.subjects), scores).value
  }

  /** Prepending a non-empty group adds its best score to the total. */
  lemma {:induction false} ProgramScoreCons(g: Group, rest: seq<Group>, scores: map<string, int>)
    requires |g| > 0 && ProgramScore(rest, scores).Some?
    ensures ProgramScore([g] + rest, scores) == Some(Best(g, scores) + ProgramScore(rest, scores).value)
  {
    assert ([g] + rest)[1..] == rest;
  }

  /** The total is additive over concatenation of requirement lists. */
  lemma {:induction false} ProgramScoreAppend(a: seq<Group>, b: seq<Group>, scores: map<string, int>)
    requires ProgramScore(a, scores).Some? && ProgramScore(b, scores).Some?
    ensures ProgramScore(a + b, scores) == Some(ProgramScore(a, scores).value + ProgramScore(b, scores).value)
  {
    if |a| == 0 {
      assert a + b == b;
    } else {
      var g, rest := a[0], a[1..];
      assert a == [g] + rest;
      assert a + b == [g] + (rest + b);
      ProgramScoreAppend(rest, b, scores);
      ProgramScoreCons(g, rest, scores);
      ProgramScoreCons(g, rest + b, scores);
    }
  }

  /** Raising scores pointwise never lowers a group's best score. */
  lemma {:induction false} BestMonotone(group: Group, lo: map<string, int>, hi: map<string, int>)
    requires |group| > 0
    requires forall s :: ScoreOf(lo, s) <= ScoreOf(hi, s)
    ensures Best(group, lo) <= Best(group, hi)
  {
    var i := BestIsMax(group, lo);
    var _ := BestIsMax(group, hi);
  }

  /** Monotonicity: raising scores pointwise never lowers the total. */
  lemma {:induction false} ProgramScoreMonotone(groups: seq<Group>, lo: map<string, int>, hi: map<string, int>)
    requires forall s :: ScoreOf(lo, s) <= ScoreOf(hi, s)
    requires ProgramScore(groups, lo).Some?
    ensures ProgramScore(groups, hi).Some?
    ensures ProgramScore(groups, lo).value <= ProgramScore(groups, hi).value
  {
    if |groups| > 0 {
      ProgramScoreMonotone(groups[1..], lo, hi);
      BestMonotone(groups[0], lo, hi);
    }
  }

  /** Raising one subject's score never lowers the total. */
  lemma {:induction false} RaiseOneSubject(groups: seq<Group>, scores: map<string, int>, subject: string, v: int)
    requires ProgramScore(groups, scores).Some?
    requires v >= ScoreOf(scores, subject)
    ensures ProgramScore(groups, scores[subject := v]).value >= ProgramScore(groups, scores).value
  {
    var raised := scores[subject := v];
    assert forall s :: ScoreOf(scores, s) <= ScoreOf(raised, s);
    ProgramScoreMonotone(groups, scores, raised);
  }

  /** Non-negative exam scores give a non-negative total. */
  lemma {:induction false} ProgramScoreNonNegative(groups: seq<Group>, scores: map<string, int>)
    requires forall s :: s in scores ==> scores[s] >= 0
    requires ProgramScore(groups, scores).Some?
    ensures ProgramScore(groups, scores).value >= 0
  {
    if |groups| > 0 {
      ProgramScoreNonNegative(groups[1..], scores);
      assert ScoreOf(scores, groups[0][0]) >= 0;
    }
  }

  /** With every score at most `m` (and `m` not below the default 0) the total is at most `m` per group. */
  lemma {:induction false} ProgramScoreBounded(groups: seq<Group>, scores: map<string, int>, m: int)
    requires m >= 0
    requires forall s :: s in scores ==> scores[s] <= m
    requires ProgramScore(groups, scores).Some?
    ensures ProgramScore(groups, scores).value <= |groups| * m
  {
    if |groups| > 0 {
      var n := |groups|;
      ProgramScoreBounded(groups[1..], scores, m);
      var rest := ProgramScore(groups[1..], scores).value;
      assert rest <= (n - 1) * m;
      var i := BestIsMax(groups[0], scores);
      assert Best(groups[0], scores) <= m;
      assert ProgramScore(groups, scores).value == Best(groups[0], scores) + rest;
      assert (n - 1) * m + m == n * m;
    }
  }

  /** All-zero (or absent) scores give a total of 0, whatever the requirement. */
  lemma {:induction false} ProgramScoreZero(groups: seq<Group>, scores: map<string, int>)
    requires forall s :: s in scores ==> scores[s] == 0
    requires ProgramScore(groups, scores).Some?
    ensures ProgramScore(groups, scores) == Some(0)
  {
    if |groups| > 0 {
      ProgramScoreZero(groups[1..], scores);
      var i := BestIsMax(groups[0], scores);
    }
  }

  /** Any parsed requirement, scored against all-zero exams, totals 0. */
  lemma {:induction false} ParsedZero(s: string, scores: map<string, int>)
    requires forall k :: k in scores ==> scores[k] == 0
    ensures UserScore(Program(s, None), scores) == 0
  {
    ProgramScoreZero(ParseSubjects(s), scores);
  }

  /** The worked example, continued: the groups of "М/Р+Ф" with 70, 50, 90 score max(70, 50) + 90. */
  lemma {:induction false} ScoreExample()
    ensures ProgramScore([["math", "russian"], ["physics"]], map["math" := 70, "russian" := 50, "physics" := 90])
            == Some(160)
  {
    var scores := map["math" := 70, "russian" := 50, "physics" := 90];
    assert ScoreOf(scores, "math") == 70;
    assert ScoreOf(scores, "russian") == 50;
    assert ScoreOf(scores, "physics") == 90;
  }

  // ---------------------------------------------------------------------------
  // Eligibility and admission probability
  // ---------------------------------------------------------------------------

  /**
   The calculator's verdict for one program. The probability is kept in tenths
   of a percent (667 stands for 66.7%), the precision it is rounded to.
   */
  datatype Assessment = Assessment(eligible: bool, probability: Option<int>)

  /**
   `round(gap / 60 * 100, 1)` in tenths of a percent: the integer nearest to
   gap * 50 / 3. A remainder of a third never makes a tie, so nearest is unique.
   */
  function RoundTenths(gap: int): (t: int)
    ensures -3 < 6 * t - 100 * gap <= 3
  {
    (100 * gap + 3) / 6
  }

  function Clamp(x: int, lo: int, hi: int): (r: int)
    requires lo <= hi
    ensures lo <= r <= hi
    ensures lo <= x <= hi ==> r == x
    ensures x < lo ==> r == lo
    ensures x > hi ==> r == hi
  {
    if x < lo then lo else if x > hi then hi else x
  }

  /**
   Eligibility and probability of admission: not eligible and no probability
   without a published threshold; otherwise a linear ramp from 0% at 30 points
   below the threshold to 100% at 30 points above it, clamped to [0, 100]%.
   */
  function Assess(userScore: int, needed: Option<int>): (a: Assessment)
    ensures a.eligible <==> needed.Some? && userScore >= needed.value
    ensures a.probability.None? <==> needed.None?
    ensures a.probability.Some? ==> 0 <= a.probability.value <= 1000
  {
    match needed
    case None => Assessment(false, None)
    case Some(n) =>
      Assessment(userScore >= n, Some(Clamp(RoundTenths(userScore - n + 30), 0, 1000)))
  }

  /** The probability never decreases as the user's score rises. */
  lemma {:induction false} ProbabilityMonotone(u1: int, u2: int, n: int)
    requires u1 <= u2
    ensures Assess(u1, Some(n)).probability.value <= Assess(u2, Some(n)).probability.value
  {
    var g1, g2 := u1 - n + 30, u2 - n + 30;
    assert RoundTenths(g1) <= RoundTenths(g2) by {
      assert 100 * g1 + 3 <= 100 * g2 + 3;
    }
  }

  /** 30 points above the threshold the probability is 100%; 30 below it is 0%. */
  lemma {:induction false} ProbabilitySaturates(u: int, n: int)
    ensures u >= n + 30 ==> Assess(u, Some(n)).probability == Some(1000)
    ensures u <= n - 30 ==> Assess(u, Some(n)).probability == Some(0)
  {
  }

  /** With a published threshold, eligible exactly when the probability is at least 50%. */
  lemma {:induction false} EligibleIffHalf(u: int, n: int)
    ensures Assess(u, Some(n)).eligible <==> Assess(u, Some(n)).probability.value >= 500
  {
  }

  /** The worked example: 160 against a threshold of 150 is eligible at 66.7%. */
  lemma {:induction false} AssessExample()
    ensures Assess(160, Some(150)) == Assessment(true, Some(667))
  {
  }

  /** One row of the calculator table. */
  datatype Row = Row(program: Program, userScore: int, assessment: Assessment)

  /** The calculator's loop over the program list: score and assess each program, in order. */
  function EvaluatePrograms(programs: seq<Program>, scores: map<string, int>): (rows: seq<Row>)
    ensures |rows| == |programs|
    ensures forall i :: 0 <= i < |rows| ==>
      && rows[i].program == programs[i]
      && rows[i].userScore == UserScore(programs[i], scores)
      && rows[i].assessment == Assess(rows[i].userScore, programs[i].threshold)
      && (rows[i].assessment.probability.Some? ==> 0 <= rows[i].assessment.probability.value <= 1000)
      && (rows[i].assessment.eligible <==>
           programs[i].threshold.Some? && rows[i].userScore >= programs[i].threshold.value)
      && (rows[i].assessment.probability.None? <==> programs[i].threshold.None?)
  {
    if |programs| == 0 then []
    else
      var p := programs[0];
      var u := UserScore(p, scores);
      [Row(p, u, Assess(u, p.threshold))] + EvaluatePrograms(programs[1..], scores)
  }
}
