/** `Survey.get_statistics` (database.py): per question, the number of
    submissions, and for a choice question the count and percentage of each
    option, for a text question the list of answers with who gave them. Only
    answers that belong to one of the survey's own submissions count. */
module Statistics {

  import opened Records

  /** A percentage before `round(..., 2)`: `count / denominator * 100` as the
      exact fraction `num / den`, or the literal 0 when the denominator is 0. */
  datatype Percentage = Zero | Fraction(num: nat, den: nat)

  datatype OptionStat = OptionStat(text: string, count: nat, percent: Percentage)

  /** One entry of `text_answers`: the answer, the student's username and
      student number. */
  datatype TextEntry = TextEntry(answer: Option<string>, username: string, studentNumber: Option<string>)

  /** The dict `question_stats`; `textAnswers` is present only for a text
      question. */
  datatype QuestionStats = QuestionStats(
    text: string,
    qtype: string,
    totalResponses: nat,
    options: seq<OptionStat>,
    textAnswers: Option<seq<TextEntry>>)

  /** `SurveyResponse.query.filter_by(survey_id=...).count()`. */
  function SubmissionCount(subs: seq<Submission>, survey: nat): nat
  {
    if subs == [] then 0
    else SubmissionCount(subs[..|subs| - 1], survey) + (if subs[|subs| - 1].surveyId == survey then 1 else 0)
  }

  /** `survey_response_ids`: the ids of the survey's submissions. */
  function SubmissionIds(subs: seq<Submission>, survey: nat): set<nat>
  {
    set k | 0 <= k < |subs| && subs[k].surveyId == survey :: subs[k].id
  }

  /** The filter of the answer queries: this survey, this question, and a
      submission of this survey. */
  predicate Counted(a: Answer, survey: nat, qid: nat, ids: set<nat>)
  {
    a.surveyId == survey && a.questionId == qid && a.submissionId in ids
  }

  /** The answers that pass the filter, in table order. */
  function QuestionAnswers(answers: seq<Answer>, survey: nat, qid: nat, ids: set<nat>): (r: seq<Answer>)
    ensures |r| <= |answers|
  {
    if answers == [] then []
    else
      var a := answers[|answers| - 1];
      QuestionAnswers(answers[..|answers| - 1], survey, qid, ids) + (if Counted(a, survey, qid, ids) then [a] else [])
  }

  /** The per-option count query: rows that selected option `oid`. */
  function CountOption(rows: seq<Answer>, oid: nat): (n: nat)
    ensures n <= |rows|
  {
    if rows == [] then 0
    else CountOption(rows[..|rows| - 1], oid) + (if rows[|rows| - 1].optionId == Some(oid) then 1 else 0)
  }

  /** `set(r.survey_response_id for r in responses)`. */
  function Respondents(rows: seq<Answer>): set<nat>
  {
    set k | 0 <= k < |rows| :: rows[k].submissionId
  }

  function Percent(count: nat, den: nat): Percentage
  {
    if den > 0 then Fraction(count * 100, den) else Zero
  }

  /** One entry per option, in the question's option order. */
  function OptionStats(os: seq<OptionRow>, rows: seq<Answer>, den: nat): (r: seq<OptionStat>)
    ensures |r| == |os|
  {
    if os == [] then []
    else
      var o := os[|os| - 1];
      OptionStats(os[..|os| - 1], rows, den) + [OptionStat(o.text, CountOption(rows, o.id), Percent(CountOption(rows, o.id), den))]
  }

  /** The `text_answers` comprehension; `studentOf` is the `student`
      relationship of an answer row. */
  function TextEntries(rows: seq<Answer>, studentOf: nat -> User): (r: seq<TextEntry>)
    ensures |r| == |rows|
  {
    if rows == [] then []
    else
      var u := studentOf(rows[|rows| - 1].studentId);
      TextEntries(rows[..|rows| - 1], studentOf) + [TextEntry(rows[|rows| - 1].textAnswer, u.username, u.studentId)]
  }

  /** The statistics of one question. */
  function StatsOf(q: Question, survey: nat, total: nat, ids: set<nat>, answers: seq<Answer>,
                   studentOf: nat -> User): QuestionStats
  {
    var rows := QuestionAnswers(answers, survey, q.id, ids);
    if q.qtype == SINGLE then
      QuestionStats(q.text, q.qtype, total, OptionStats(q.options, rows, |Respondents(rows)|), None)
    else if q.qtype == MULTIPLE then
      QuestionStats(q.text, q.qtype, total, OptionStats(q.options, rows, |rows|), None)
    else if q.qtype == TEXT then
      QuestionStats(q.text, q.qtype, total, [], Some(TextEntries(rows, studentOf)))
    else
      QuestionStats(q.text, q.qtype, total, [], None)
  }

  /** The `stats` dict, filled question by question under each question's
      id. */
  function StatsMap(qs: seq<Question>, survey: nat, total: nat, ids: set<nat>, answers: seq<Answer>,
                    studentOf: nat -> User): map<nat, QuestionStats>
  {
    if qs == [] then map[]
    else
      var q := qs[|qs| - 1];
      StatsMap(qs[..|qs| - 1], survey, total, ids, answers, studentOf)[q.id := StatsOf(q, survey, total, ids, answers, studentOf)]
  }

  function Statistics(s: Survey, subs: seq<Submission>, answers: seq<Answer>, studentOf: nat -> User)
    : map<nat, QuestionStats>
  {
    StatsMap(s.questions, s.id, SubmissionCount(subs, s.id), SubmissionIds(subs, s.id), answers, studentOf)
  }

  /** The option loop of `get_statistics` for one choice question. */
  method OptionStatistics(os: seq<OptionRow>, rows: seq<Answer>, den: nat) returns (out: seq<OptionStat>)
    ensures out == OptionStats(os, rows, den)
  {
    out := [];
    var j := 0;
    while j < |os|
      invariant j <= |os|
      invariant out == OptionStats(os[..j], rows, den)
    {
      assert os[..j + 1][..j] == os[..j];
      var o := os[j];
      var count := CountOption(rows, o.id);
      var percent := if den > 0 then Fraction(count * 100, den) else Zero;
      out := out + [OptionStat(o.text, count, percent)];
      j := j + 1;
    }
    assert os[..j] == os;
  }

  /** The body of the question loop of `get_statistics`. */
  method QuestionStatistics(q: Question, survey: nat, total: nat, ids: set<nat>, answers: seq<Answer>,
                            studentOf: nat -> User) returns (r: QuestionStats)
    ensures r == StatsOf(q, survey, total, ids, answers, studentOf)
  {
    var options: seq<OptionStat> := [];
    var texts: Option<seq<TextEntry>> := None;
    if q.qtype == SINGLE || q.qtype == MULTIPLE {
      var rows := QuestionAnswers(answers, survey, q.id, ids);
      if q.qtype == SINGLE {
        var responding := |Respondents(rows)|;
        options := OptionStatistics(q.options, rows, responding);
      } else {
        var totalSelections := |rows|;
        options := OptionStatistics(q.options, rows, totalSelections);
      }
    } else if q.qtype == TEXT {
      var rows := QuestionAnswers(answers, survey, q.id, ids);
      texts := Some(TextEntries(rows, studentOf));
    }
    r := QuestionStats(q.text, q.qtype, total, options, texts);
  }

  /** `Survey.get_statistics`. */
  method GetStatistics(s: Survey, subs: seq<Submission>, answers: seq<Answer>, studentOf: nat -> User)
    returns (stats: map<nat, QuestionStats>)
    ensures stats == Statistics(s, subs, answers, studentOf)
  {
    stats := map[];
    var total := SubmissionCount(subs, s.id);
    var ids := SubmissionIds(subs, s.id);
    var qs := s.questions;
    var i := 0;
    while i < |qs|
      invariant i <= |qs|
      invariant stats == StatsMap(qs[..i], s.id, total, ids, answers, studentOf)
    {
      assert qs[..i + 1][..i] == qs[..i];
      var entry := QuestionStatistics(qs[i], s.id, total, ids, answers, studentOf);
      stats := stats[qs[i].id := entry];
      i := i + 1;
    }
    assert qs[..i] == qs;
  }

  // ---------------------------------------------------------------------
  // Properties

  /** The stats map has an entry for exactly the ids of the survey's
      questions. */
  lemma {:induction false} StatsKeys(qs: seq<Question>, survey: nat, total: nat, ids: set<nat>, answers: seq<Answer>,
                                     studentOf: nat -> User, id: nat)
    ensures id in StatsMap(qs, survey, total, ids, answers, studentOf) <==> exists k :: 0 <= k < |qs| && qs[k].id == id
  {
    if qs != [] {
      var front := qs[..|qs| - 1];
      StatsKeys(front, survey, total, ids, answers, studentOf, id);
      if exists k :: 0 <= k < |front| && front[k].id == id {
        var k :| 0 <= k < |front| && front[k].id == id;
        assert qs[k] == front[k];
      }
      if exists k :: 0 <= k < |qs| && qs[k].id == id {
        var k :| 0 <= k < |qs| && qs[k].id == id;
        if k < |front| {
          assert front[k] == qs[k];
        }
      }
    }
  }

  /** With distinct question ids, each question's entry holds its own
      statistics. */
  lemma {:induction false} StatsEntry(qs: seq<Question>, survey: nat, total: nat, ids: set<nat>, answers: seq<Answer>,
                                      studentOf: nat -> User, k: nat)
    requires forall i, j :: 0 <= i < j < |qs| ==> qs[i].id != qs[j].id
    requires k < |qs|
    ensures qs[k].id in StatsMap(qs, survey, total, ids, answers, studentOf)
    ensures StatsMap(qs, survey, total, ids, answers, studentOf)[qs[k].id] == StatsOf(qs[k], survey, total, ids, answers, studentOf)
  {
    if k < |qs| - 1 {
      var front := qs[..|qs| - 1];
      assert front[k] == qs[k];
      StatsEntry(front, survey, total, ids, answers, studentOf, k);
    }
  }

  /** Every entry reports the same `total_responses`: the number of the
      survey's submissions. */
  lemma {:induction false} SameTotalEverywhere(qs: seq<Question>, survey: nat, total: nat, ids: set<nat>,
                                               answers: seq<Answer>, studentOf: nat -> User, id: nat)
    requires id in StatsMap(qs, survey, total, ids, answers, studentOf)
    ensures StatsMap(qs, survey, total, ids, answers, studentOf)[id].totalResponses == total
  {
    if id != qs[|qs| - 1].id {
      SameTotalEverywhere(qs[..|qs| - 1], survey, total, ids, answers, studentOf, id);
    }
  }

  /** Option entry `k` names option `k`, with the count of rows that selected
      it and its share of the denominator. */
  lemma {:induction false} OptionStatsAt(os: seq<OptionRow>, rows: seq<Answer>, den: nat, k: nat)
    requires k < |os|
    ensures OptionStats(os, rows, den)[k]
         == OptionStat(os[k].text, CountOption(rows, os[k].id), Percent(CountOption(rows, os[k].id), den))
  {
    if k < |os| - 1 {
      OptionStatsAt(os[..|os| - 1], rows, den, k);
    }
  }

  /** The per-question entry: a single choice question divides by the number
      of distinct submissions that answered it, a multiple choice question by
      the number of rows (selections), a text question lists its answers and
      has no option entries; a zero denominator gives percentage 0. */
  lemma Denominators(q: Question, survey: nat, total: nat, ids: set<nat>, answers: seq<Answer>,
                     studentOf: nat -> User, k: nat)
    ensures var st := StatsOf(q, survey, total, ids, answers, studentOf);
      var rows := QuestionAnswers(answers, survey, q.id, ids);
      st.text == q.text && st.qtype == q.qtype && st.totalResponses == total
      && (IsChoice(q.qtype) ==> |st.options| == |q.options| && st.textAnswers.None?)
      && (q.qtype == SINGLE && k < |q.options| ==>
            st.options[k] == OptionStat(q.options[k].text, CountOption(rows, q.options[k].id),
                                        if |Respondents(rows)| > 0
                                        then Fraction(CountOption(rows, q.options[k].id) * 100, |Respondents(rows)|)
                                        else Zero))
      && (q.qtype == MULTIPLE && k < |q.options| ==>
            st.options[k] == OptionStat(q.options[k].text, CountOption(rows, q.options[k].id),
                                        if |rows| > 0 then Fraction(CountOption(rows, q.options[k].id) * 100, |rows|) else Zero))
      && (q.qtype == TEXT ==> st.options == [] && st.textAnswers == Some(TextEntries(rows, studentOf)))
      && (!IsChoice(q.qtype) && q.qtype != TEXT ==> st.options == [] && st.textAnswers.None?)
  {
    var rows := QuestionAnswers(answers, survey, q.id, ids);
    if k < |q.options| {
      OptionStatsAt(q.options, rows, |Respondents(rows)|, k);
      OptionStatsAt(q.options, rows, |rows|, k);
    }
  }

  /** The rows that are counted are exactly the answers that pass the
      filter, in table order: an answer of a submission of another survey (or
      of none) is never counted. */
  lemma {:induction false} QuestionAnswersFilter(answers: seq<Answer>, survey: nat, qid: nat, ids: set<nat>)
    ensures forall k :: 0 <= k < |QuestionAnswers(answers, survey, qid, ids)| ==>
      QuestionAnswers(answers, survey, qid, ids)[k] in answers && Counted(QuestionAnswers(answers, survey, qid, ids)[k], survey, qid, ids)
    ensures forall k :: 0 <= k < |answers| && Counted(answers[k], survey, qid, ids) ==> answers[k] in QuestionAnswers(answers, survey, qid, ids)
  {
    if answers != [] {
      var front := answers[..|answers| - 1];
      var last := answers[|answers| - 1];
      QuestionAnswersFilter(front, survey, qid, ids);
      var r := QuestionAnswers(answers, survey, qid, ids);
      var rf := QuestionAnswers(front, survey, qid, ids);
      assert answers == front + [last];
      assert r == rf + (if Counted(last, survey, qid, ids) then [last] else []);
      forall k | 0 <= k < |r| ensures r[k] in answers && Counted(r[k], survey, qid, ids) {
        if k < |rf| {
          assert r[k] == rf[k];
          assert rf[k] in front;
        } else {
          assert r[k] == last;
        }
      }
      forall k | 0 <= k < |answers| && Counted(answers[k], survey, qid, ids) ensures answers[k] in r {
        if k < |front| {
          assert answers[k] == front[k];
          assert front[k] in rf;
        }
      }
    }
  }

  /** An answer row whose submission is not one of the survey's submissions
      changes nothing in the statistics. */
  lemma ForeignAnswerIgnored(s: Survey, subs: seq<Submission>, answers: seq<Answer>, a: Answer, studentOf: nat -> User)
    requires a.submissionId !in SubmissionIds(subs, s.id)
    ensures Statistics(s, subs, answers + [a], studentOf) == Statistics(s, subs, answers, studentOf)
  {
    var ids := SubmissionIds(subs, s.id);
    var total := SubmissionCount(subs, s.id);
    assert (answers + [a])[..|answers|] == answers;
    forall q: Question
      ensures StatsOf(q, s.id, total, ids, answers + [a], studentOf) == StatsOf(q, s.id, total, ids, answers, studentOf)
    {
      assert QuestionAnswers(answers + [a], s.id, q.id, ids) == QuestionAnswers(answers, s.id, q.id, ids);
    }
    StatsMapPointwise(s.questions, s.id, total, ids, answers + [a], answers, studentOf);
  }

  /** Two answer tables that give every question the same statistics give
      the same stats map. */
  lemma {:induction false} StatsMapPointwise(qs: seq<Question>, survey: nat, total: nat, ids: set<nat>,
                                             a1: seq<Answer>, a2: seq<Answer>, studentOf: nat -> User)
    requires forall q: Question :: StatsOf(q, survey, total, ids, a1, studentOf) == StatsOf(q, survey, total, ids, a2, studentOf)
    ensures StatsMap(qs, survey, total, ids, a1, studentOf) == StatsMap(qs, survey, total, ids, a2, studentOf)
  {
    if qs != [] {
      StatsMapPointwise(qs[..|qs| - 1], survey, total, ids, a1, a2, studentOf);
    }
  }

  lemma {:induction false} NoSubmissionsNoIds(subs: seq<Submission>, survey: nat)
    requires SubmissionCount(subs, survey) == 0
    ensures forall k :: 0 <= k < |subs| ==> subs[k].surveyId != survey
    ensures SubmissionIds(subs, survey) == {}
  {
    if subs != [] {
      var front := subs[..|subs| - 1];
      NoSubmissionsNoIds(front, survey);
      forall k | 0 <= k < |subs| ensures subs[k].surveyId != survey {
        if k < |front| {
          assert front[k] == subs[k];
        }
      }
    }
  }

  lemma {:induction false} NothingCountedWithoutIds(answers: seq<Answer>, survey: nat, qid: nat)
    ensures QuestionAnswers(answers, survey, qid, {}) == []
  {
    if answers != [] {
      NothingCountedWithoutIds(answers[..|answers| - 1], survey, qid);
    }
  }

  /** A survey without submissions reports zero responses, and count 0 with
      percentage 0 for every option of every choice question, whatever rows
      the answer table holds. */
  lemma ZeroSubmissions(s: Survey, subs: seq<Submission>, answers: seq<Answer>, studentOf: nat -> User, i: nat, k: nat)
    requires SubmissionCount(subs, s.id) == 0
    requires forall x, y :: 0 <= x < y < |s.questions| ==> s.questions[x].id != s.questions[y].id
    requires i < |s.questions| && IsChoice(s.questions[i].qtype) && k < |s.questions[i].options|
    ensures var stats, q := Statistics(s, subs, answers, studentOf), s.questions[i];
      q.id in stats && stats[q.id].totalResponses == 0
      && k < |stats[q.id].options| && stats[q.id].options[k] == OptionStat(q.options[k].text, 0, Zero)
  {
    var q := s.questions[i];
    NoSubmissionsNoIds(subs, s.id);
    NothingCountedWithoutIds(answers, s.id, q.id);
    StatsEntry(s.questions, s.id, 0, {}, answers, studentOf, i);
    Denominators(q, s.id, 0, {}, answers, studentOf, k);
  }

  /** Text answer entry `k` is answer row `k`, with its student's username
      and student number. */
  lemma {:induction false} TextEntriesAt(rows: seq<Answer>, studentOf: nat -> User, k: nat)
    requires k < |rows|
    ensures TextEntries(rows, studentOf)[k]
         == TextEntry(rows[k].textAnswer, studentOf(rows[k].studentId).username, studentOf(rows[k].studentId).studentId)
  {
    if k < |rows| - 1 {
      TextEntriesAt(rows[..|rows| - 1], studentOf, k);
    }
  }

  /** How many options of `os` the value `x` selects. */
  function Matches(os: seq<OptionRow>, x: Option<nat>): nat
  {
    if os == [] then 0 else Matches(os[..|os| - 1], x) + (if x == Some(os[|os| - 1].id) then 1 else 0)
  }

  /** The sum of the option counts of `os`. */
  function SumCounts(os: seq<OptionRow>, rows: seq<Answer>): nat
  {
    if os == [] then 0 else SumCounts(os[..|os| - 1], rows) + CountOption(rows, os[|os| - 1].id)
  }

  lemma {:induction false} MatchesNone(os: seq<OptionRow>, x: Option<nat>)
    requires forall k :: 0 <= k < |os| ==> x != Some(os[k].id)
    ensures Matches(os, x) == 0
  {
    if os != [] {
      MatchesNone(os[..|os| - 1], x);
    }
  }

  lemma {:induction false} MatchesAtMostOne(os: seq<OptionRow>, x: Option<nat>)
    requires forall i, j :: 0 <= i < j < |os| ==> os[i].id != os[j].id
    ensures Matches(os, x) <= 1
  {
    if os != [] {
      var front := os[..|os| - 1];
      if x == Some(os[|os| - 1].id) {
        MatchesNone(front, x);
      } else {
        MatchesAtMostOne(front, x);
      }
    }
  }

  lemma {:induction false} SumCountsSnoc(os: seq<OptionRow>, rows: seq<Answer>, a: Answer)
    ensures SumCounts(os, rows + [a]) == SumCounts(os, rows) + Matches(os, a.optionId)
  {
    assert (rows + [a])[..|rows|] == rows;
    if os != [] {
      SumCountsSnoc(os[..|os| - 1], rows, a);
    }
  }

  /** With distinct option ids (primary keys), the option counts of a
      question add up to at most its number of rows, the multiple choice
      denominator: each row selects at most one option. */
  lemma {:induction false} CountsWithinSelections(os: seq<OptionRow>, rows: seq<Answer>)
    requires forall i, j :: 0 <= i < j < |os| ==> os[i].id != os[j].id
    ensures SumCounts(os, rows) <= |rows|
  {
    if rows != [] {
      var front := rows[..|rows| - 1];
      CountsWithinSelections(os, front);
      SumCountsSnoc(os, front, rows[|rows| - 1]);
      MatchesAtMostOne(os, rows[|rows| - 1].optionId);
      assert front + [rows[|rows| - 1]] == rows;
    } else {
      SumCountsEmpty(os);
    }
  }

  lemma {:induction false} SumCountsEmpty(os: seq<OptionRow>)
    ensures SumCounts(os, []) == 0
  {
    if os != [] {
      SumCountsEmpty(os[..|os| - 1]);
    }
  }

  /** The numerators of the percentages of `st`, added up; for percentages
      over one denominator this is their sum times that denominator. */
  function PercentNumerators(st: seq<OptionStat>): nat
  {
    if st == [] then 0
    else PercentNumerators(st[..|st| - 1]) + (if st[|st| - 1].percent.Fraction? then st[|st| - 1].percent.num else 0)
  }

  lemma {:induction false} OptionStatsNumerators(os: seq<OptionRow>, rows: seq<Answer>, den: nat)
    ensures PercentNumerators(OptionStats(os, rows, den)) == if den > 0 then 100 * SumCounts(os, rows) else 0
  {
    if os != [] {
      var st := OptionStats(os, rows, den);
      OptionStatsNumerators(os[..|os| - 1], rows, den);
      assert st[..|st| - 1] == OptionStats(os[..|os| - 1], rows, den);
    }
  }

  /** The percentages of a multiple choice question share the number of
      selections as denominator and add up to at most 100: their numerators
      sum to at most 100 times that denominator. */
  lemma MultiplePercentagesWithin100(q: Question, survey: nat, total: nat, ids: set<nat>, answers: seq<Answer>,
                                     studentOf: nat -> User)
    requires q.qtype == MULTIPLE
    requires forall i, j :: 0 <= i < j < |q.options| ==> q.options[i].id != q.options[j].id
    ensures var st, rows := StatsOf(q, survey, total, ids, answers, studentOf), QuestionAnswers(answers, survey, q.id, ids);
      (forall k :: 0 <= k < |st.options| && st.options[k].percent.Fraction? ==> st.options[k].percent.den == |rows|)
      && PercentNumerators(st.options) <= 100 * |rows|
  {
    var rows := QuestionAnswers(answers, survey, q.id, ids);
    forall k | 0 <= k < |q.options| {
      OptionStatsAt(q.options, rows, |rows|, k);
    }
    OptionStatsNumerators(q.options, rows, |rows|);
    CountsWithinSelections(q.options, rows);
  }

  // A survey with one single choice question, answered "A", "A" and "B" by
  // three students.

  function ExampleQuestion(): Question
  {
    Question(2, "Pick", SINGLE, 1, [OptionRow(3, "A", 1), OptionRow(4, "B", 2)])
  }

  function ExampleSubmissions(): seq<Submission>
  {
    [Submission(10, 20, 1), Submission(11, 21, 1), Submission(12, 22, 1)]
  }

  function ExampleAnswers(): seq<Answer>
  {
    [Answer(13, 20, 1, 2, Some(3), None, 10), Answer(14, 21, 1, 2, Some(3), None, 11),
     Answer(15, 22, 1, 2, Some(4), None, 12)]
  }

  lemma ExampleRows()
    ensures SubmissionCount(ExampleSubmissions(), 1) == 3
    ensures QuestionAnswers(ExampleAnswers(), 1, 2, SubmissionIds(ExampleSubmissions(), 1)) == ExampleAnswers()
  {
    var subs, answers := ExampleSubmissions(), ExampleAnswers();
    var ids := SubmissionIds(subs, 1);
    assert subs[0].id in ids && subs[1].id in ids && subs[2].id in ids;
    assert subs[..1][..0] == [] && subs[..2][..1] == subs[..1] && subs[..3] == subs;
    assert SubmissionCount(subs[..1], 1) == 1;
    assert SubmissionCount(subs[..2], 1) == 2;
    assert answers[..1][..0] == [] && answers[..2][..1] == answers[..1] && answers[..3] == answers;
    assert QuestionAnswers(answers[..1], 1, 2, ids) == answers[..1];
    assert QuestionAnswers(answers[..2], 1, 2, ids) == answers[..2];
  }

  lemma ExampleCounts()
    ensures CountOption(ExampleAnswers(), 3) == 2 && CountOption(ExampleAnswers(), 4) == 1
    ensures |Respondents(ExampleAnswers())| == 3
  {
    var rows := ExampleAnswers();
    assert rows[..1][..0] == [] && rows[..2][..1] == rows[..1] && rows[..3] == rows;
    assert CountOption(rows[..1], 3) == 1 && CountOption(rows[..2], 3) == 2;
    assert CountOption(rows[..1], 4) == 0 && CountOption(rows[..2], 4) == 0;
    assert rows[0].submissionId == 10 && rows[1].submissionId == 11 && rows[2].submissionId == 12;
    assert 10 in Respondents(rows) && 11 in Respondents(rows) && 12 in Respondents(rows);
    assert Respondents(rows) == {10, 11, 12};
  }

  lemma ExampleOptionStats()
    ensures OptionStats(ExampleQuestion().options, ExampleAnswers(), 3)
         == [OptionStat("A", 2, Fraction(200, 3)), OptionStat("B", 1, Fraction(100, 3))]
  {
    ExampleCounts();
    var os := ExampleQuestion().options;
    assert os[..1] == [os[0]] && os[..1][..0] == [];
    assert OptionStats(os[..1], ExampleAnswers(), 3) == [OptionStat("A", 2, Fraction(200, 3))];
  }

  /** Three students answer a single choice question "A", "A" and "B": the
      counts are 2 and 1 and the percentages 200/3 and 100/3, out of 3
      responses. */
  lemma SingleChoiceExample(studentOf: nat -> User)
    ensures Statistics(Survey(1, "Quiz", 7, true, None, [ExampleQuestion()]), ExampleSubmissions(), ExampleAnswers(), studentOf)
         == map[2 := QuestionStats("Pick", SINGLE, 3,
                                   [OptionStat("A", 2, Fraction(200, 3)), OptionStat("B", 1, Fraction(100, 3))], None)]
  {
    var q, subs, answers := ExampleQuestion(), ExampleSubmissions(), ExampleAnswers();
    var ids := SubmissionIds(subs, 1);
    ExampleRows();
    ExampleCounts();
    ExampleOptionStats();
    assert StatsOf(q, 1, 3, ids, answers, studentOf)
        == QuestionStats("Pick", SINGLE, 3, [OptionStat("A", 2, Fraction(200, 3)), OptionStat("B", 1, Fraction(100, 3))], None);
    assert [q][..0] == [];
    var s := Survey(1, "Quiz", 7, true, None, [q]);
    assert Statistics(s, subs, answers, studentOf) == StatsMap([q], 1, 3, ids, answers, studentOf);
  }
}
