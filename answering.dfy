/** Answering a survey (app.py `take_survey`) and reading one submission back
    (app.py `view_response`): the answer rows a submitted form becomes, and
    the per-question answer map the result page is given. */
module Answering {

  import opened Records

  /** The answer fields of the `take_survey` form, per question id:
      `answers[{id}]` as text (read for text questions), the same field
      already parsed by `int()` when it is present and non-empty (read for
      single choice questions), and the list `answers[{id}][]` of parsed
      option ids (read for multiple choice questions). */
  datatype AnswerForm = AnswerForm(
    texts: map<nat, string>,
    picked: map<nat, nat>,
    picks: map<nat, seq<nat>>)

  /** `request.form.getlist(f'answers[{id}][]')`: an absent list is empty. */
  function PicksOf(form: AnswerForm, qid: nat): seq<nat>
  {
    if qid in form.picks then form.picks[qid] else []
  }

  /** The content of one answer row, without its keys. */
  datatype AnswerDraft = AnswerDraft(questionId: nat, optionId: Option<nat>, textAnswer: Option<string>)

  /** One row per selected option id, in submitted order. */
  function PickDrafts(qid: nat, ids: seq<nat>): (r: seq<AnswerDraft>)
    ensures |r| == |ids|
  {
    if ids == [] then []
    else PickDrafts(qid, ids[..|ids| - 1]) + [AnswerDraft(qid, Some(ids[|ids| - 1]), None)]
  }

  lemma {:induction false} PickDraftsAt(qid: nat, ids: seq<nat>, k: nat)
    requires k < |ids|
    ensures PickDrafts(qid, ids)[k] == AnswerDraft(qid, Some(ids[k]), None)
  {
    if k < |ids| - 1 {
      PickDraftsAt(qid, ids[..|ids| - 1], k);
    }
  }

  /** The rows one question contributes. */
  function QuestionDrafts(q: Question, form: AnswerForm): seq<AnswerDraft>
  {
    if q.qtype == TEXT then
      if q.id in form.texts && form.texts[q.id] != "" then [AnswerDraft(q.id, None, Some(form.texts[q.id]))] else []
    else if q.qtype == MULTIPLE then PickDrafts(q.id, PicksOf(form, q.id))
    else if q.id in form.picked then [AnswerDraft(q.id, Some(form.picked[q.id]), None)]
    else []
  }

  /** A text question yields one row exactly when its answer is non-empty,
      a multiple choice question one row per selected option id in submitted
      order, and every other type (single choice, or an unknown type) one row
      exactly when an option id was given; every row names its question. */
  lemma QuestionRows(q: Question, form: AnswerForm)
    ensures var r := QuestionDrafts(q, form);
      (forall k :: 0 <= k < |r| ==> r[k].questionId == q.id)
      && (q.qtype == TEXT ==>
            |r| <= 1 && (|r| == 1 <==> q.id in form.texts && form.texts[q.id] != "")
            && (|r| == 1 ==> r[0].optionId.None? && r[0].textAnswer == Some(form.texts[q.id])))
      && (q.qtype == MULTIPLE ==>
            |r| == |PicksOf(form, q.id)|
            && forall k :: 0 <= k < |r| ==> r[k].optionId == Some(PicksOf(form, q.id)[k]) && r[k].textAnswer.None?)
      && (q.qtype != TEXT && q.qtype != MULTIPLE ==>
            |r| <= 1 && (|r| == 1 <==> q.id in form.picked)
            && (|r| == 1 ==> r[0].optionId == Some(form.picked[q.id]) && r[0].textAnswer.None?))
  {
    if q.qtype == MULTIPLE {
      forall k | 0 <= k < |PicksOf(form, q.id)| {
        PickDraftsAt(q.id, PicksOf(form, q.id), k);
      }
    }
  }

  /** The rows of a whole submission, question by question in the survey's
      question order. */
  function Drafts(qs: seq<Question>, form: AnswerForm): seq<AnswerDraft>
  {
    if qs == [] then [] else Drafts(qs[..|qs| - 1], form) + QuestionDrafts(qs[|qs| - 1], form)
  }

  function Row(d: AnswerDraft, id: nat, student: nat, survey: nat, sub: nat): Answer
  {
    Answer(id, student, survey, d.questionId, d.optionId, d.textAnswer, sub)
  }

  /** The stored rows: primary keys from `next` on, each carrying the
      student, the survey and the submission. */
  function Stamp(ds: seq<AnswerDraft>, next: nat, student: nat, survey: nat, sub: nat): (r: seq<Answer>)
    ensures |r| == |ds|
  {
    if ds == [] then []
    else Stamp(ds[..|ds| - 1], next, student, survey, sub) + [Row(ds[|ds| - 1], next + |ds| - 1, student, survey, sub)]
  }

  /** Row `k` of a submission has key `next + k` and carries the student,
      the survey and the submission id. */
  lemma {:induction false} StampAt(ds: seq<AnswerDraft>, next: nat, student: nat, survey: nat, sub: nat, k: nat)
    requires k < |ds|
    ensures Stamp(ds, next, student, survey, sub)[k] == Row(ds[k], next + k, student, survey, sub)
  {
    if k < |ds| - 1 {
      StampAt(ds[..|ds| - 1], next, student, survey, sub, k);
    }
  }

  lemma StampSnoc(ds: seq<AnswerDraft>, d: AnswerDraft, next: nat, student: nat, survey: nat, sub: nat)
    ensures Stamp(ds + [d], next, student, survey, sub)
         == Stamp(ds, next, student, survey, sub) + [Row(d, next + |ds|, student, survey, sub)]
  {
    assert (ds + [d])[..|ds|] == ds;
  }

  lemma {:induction false} StampAppend(a: seq<AnswerDraft>, b: seq<AnswerDraft>, next: nat, student: nat, survey: nat, sub: nat)
    ensures Stamp(a + b, next, student, survey, sub)
         == Stamp(a, next, student, survey, sub) + Stamp(b, next + |a|, student, survey, sub)
    decreases |b|
  {
    if b == [] {
      assert a + b == a;
    } else {
      var front := b[..|b| - 1];
      StampAppend(a, front, next, student, survey, sub);
      assert (a + b)[..|a + b| - 1] == a + front;
    }
  }

  lemma StampSingle(ds: seq<AnswerDraft>, next: nat, student: nat, survey: nat, sub: nat)
    requires |ds| <= 1
    ensures Stamp(ds, next, student, survey, sub) == if ds == [] then [] else [Row(ds[0], next, student, survey, sub)]
  {
    if ds != [] { assert ds[..0] == []; }
  }

  lemma DraftsSnoc(qs: seq<Question>, q: Question, form: AnswerForm)
    ensures Drafts(qs + [q], form) == Drafts(qs, form) + QuestionDrafts(q, form)
  {
    assert (qs + [q])[..|qs|] == qs;
  }

  /** The inner loop of `take_survey` for a multiple choice question: one
      row per selected option id, keys from `next`. */
  method RecordPicks(qid: nat, ids: seq<nat>, student: nat, survey: nat, sub: nat, next: nat)
    returns (rows: seq<Answer>)
    ensures rows == Stamp(PickDrafts(qid, ids), next, student, survey, sub)
  {
    rows := [];
    var j := 0;
    while j < |ids|
      invariant j <= |ids|
      invariant rows == Stamp(PickDrafts(qid, ids[..j]), next, student, survey, sub)
    {
      var d := AnswerDraft(qid, Some(ids[j]), None);
      assert ids[..j + 1][..j] == ids[..j];
      StampSnoc(PickDrafts(qid, ids[..j]), d, next, student, survey, sub);
      rows := rows + [Row(d, next + j, student, survey, sub)];
      j := j + 1;
    }
    assert ids[..j] == ids;
  }

  /** The rows `take_survey` writes for one question, keys from `next`. */
  method RecordQuestion(q: Question, form: AnswerForm, student: nat, survey: nat, sub: nat, next: nat)
    returns (more: seq<Answer>)
    ensures more == Stamp(QuestionDrafts(q, form), next, student, survey, sub)
  {
    more := [];
    if q.qtype == TEXT {
      if q.id in form.texts && form.texts[q.id] != "" {
        more := [Row(AnswerDraft(q.id, None, Some(form.texts[q.id])), next, student, survey, sub)];
      }
    } else if q.qtype == MULTIPLE {
      more := RecordPicks(q.id, PicksOf(form, q.id), student, survey, sub, next);
    } else if q.id in form.picked {
      more := [Row(AnswerDraft(q.id, Some(form.picked[q.id]), None), next, student, survey, sub)];
    }
    if q.qtype != MULTIPLE {
      StampSingle(QuestionDrafts(q, form), next, student, survey, sub);
    }
  }

  /** The loop of `take_survey` that writes one answer row per answered
      question (per selected option for a multiple choice question), with
      primary keys from `next`. */
  method RecordAnswers(qs: seq<Question>, form: AnswerForm, student: nat, survey: nat, sub: nat, next: nat)
    returns (rows: seq<Answer>)
    ensures rows == Stamp(Drafts(qs, form), next, student, survey, sub)
  {
    rows := [];
    var i := 0;
    while i < |qs|
      invariant i <= |qs|
      invariant rows == Stamp(Drafts(qs[..i], form), next, student, survey, sub)
    {
      var q := qs[i];
      assert qs[..i + 1] == qs[..i] + [q];
      DraftsSnoc(qs[..i], q, form);
      var done := Drafts(qs[..i], form);
      var more := RecordQuestion(q, form, student, survey, sub, next + |rows|);
      StampAppend(done, QuestionDrafts(q, form), next, student, survey, sub);
      rows := rows + more;
      i := i + 1;
    }
    assert qs[..i] == qs;
  }

  // ---------------------------------------------------------------------
  // view_response

  /** A value of the `answers` dict: the list of option ids of a multiple
      choice question, or for any other question the option id when it is
      truthy and otherwise the text answer. */
  datatype AnswerValue = Ids(ids: seq<Option<nat>>) | OptionId(id: nat) | TextValue(text: Option<string>)

  /** One iteration of `view_response`'s loop; `typeOf` is the question type
      reached through each row's `question` relationship. */
  function Step(m: map<nat, AnswerValue>, a: Answer, typeOf: nat -> string): map<nat, AnswerValue>
  {
    var q := a.questionId;
    if typeOf(q) == MULTIPLE then
      m[q := Ids((if q in m && m[q].Ids? then m[q].ids else []) + [a.optionId])]
    else
      m[q := if a.optionId.Some? && a.optionId.value != 0 then OptionId(a.optionId.value) else TextValue(a.textAnswer)]
  }

  /** The map built from `m` by the rows of `table` that belong to
      submission `sub`, in table order. */
  function Collect(m: map<nat, AnswerValue>, table: seq<Answer>, typeOf: nat -> string, sub: nat): map<nat, AnswerValue>
  {
    if table == [] then m
    else
      var front := Collect(m, table[..|table| - 1], typeOf, sub);
      var a := table[|table| - 1];
      if a.submissionId == sub then Step(front, a, typeOf) else front
  }

  /** The loop of `view_response` over `Response.query.filter_by(survey_response_id=...)`. */
  method CollectAnswers(table: seq<Answer>, typeOf: nat -> string, sub: nat) returns (answers: map<nat, AnswerValue>)
    ensures answers == Collect(map[], table, typeOf, sub)
  {
    answers := map[];
    var i := 0;
    while i < |table|
      invariant i <= |table|
      invariant answers == Collect(map[], table[..i], typeOf, sub)
    {
      assert table[..i + 1][..i] == table[..i];
      var a := table[i];
      if a.submissionId == sub {
        var q := a.questionId;
        if typeOf(q) == MULTIPLE {
          if q !in answers || !answers[q].Ids? {
            answers := answers[q := Ids([])];
          }
          answers := answers[q := Ids(answers[q].ids + [a.optionId])];
        } else {
          answers := answers[q := if a.optionId.Some? && a.optionId.value != 0 then OptionId(a.optionId.value) else TextValue(a.textAnswer)];
        }
      }
      i := i + 1;
    }
    assert table[..i] == table;
  }

  datatype ViewOutcome =
    | LoginRequired
    | NotFound
    | Shown(submission: Submission, answers: map<nat, AnswerValue>)

  /** `view_response`: any signed-in user may open any submission by its
      id; the page gets the submission (and through it its survey) and the
      answer map. */
  method ViewResponse(session: Session, submissions: seq<Submission>, table: seq<Answer>,
                      typeOf: nat -> string, responseId: nat) returns (r: ViewOutcome)
    ensures session.Anonymous? ==> r == LoginRequired
    ensures session.SignedIn? && FindSubmission(submissions, responseId).None? ==> r == NotFound
    ensures r.Shown? ==>
      session.SignedIn? && FindSubmission(submissions, responseId).Some?
      && r.submission == submissions[FindSubmission(submissions, responseId).value]
      && r.answers == Collect(map[], table, typeOf, responseId)
    ensures session.SignedIn? && FindSubmission(submissions, responseId).Some? ==> r.Shown?
  {
    if session.Anonymous? {
      return LoginRequired;
    }
    var k := FindSubmission(submissions, responseId);
    if k.None? {
      return NotFound;
    }
    var answers := CollectAnswers(table, typeOf, responseId);
    r := Shown(submissions[k.value], answers);
  }

  // ---------------------------------------------------------------------
  // Round trip: what view_response shows of a submission is what the form said

  function Somes(ids: seq<nat>): (r: seq<Option<nat>>)
    ensures |r| == |ids|
  {
    if ids == [] then [] else Somes(ids[..|ids| - 1]) + [Some(ids[|ids| - 1])]
  }

  /** The entry one question's answer adds to `m`: the non-empty text,
      the non-empty list of selected option ids, or the single option id (an
      id of 0, being falsy, reads back as "no text"); an unanswered question
      adds none. */
  function ExpectedStep(m: map<nat, AnswerValue>, q: Question, form: AnswerForm): map<nat, AnswerValue>
  {
    if q.qtype == TEXT then
      if q.id in form.texts && form.texts[q.id] != "" then m[q.id := TextValue(Some(form.texts[q.id]))] else m
    else if q.qtype == MULTIPLE then
      if PicksOf(form, q.id) != [] then m[q.id := Ids(Somes(PicksOf(form, q.id)))] else m
    else if q.id in form.picked then
      m[q.id := if form.picked[q.id] != 0 then OptionId(form.picked[q.id]) else TextValue(None)]
    else m
  }

  /** What the student submitted, per question id. */
  function Expected(qs: seq<Question>, form: AnswerForm): map<nat, AnswerValue>
  {
    if qs == [] then map[] else ExpectedStep(Expected(qs[..|qs| - 1], form), qs[|qs| - 1], form)
  }

  /** Only the questions' own ids are keys of the expected map. */
  lemma {:induction false} ExpectedKeys(qs: seq<Question>, form: AnswerForm, id: nat)
    requires forall k :: 0 <= k < |qs| ==> qs[k].id != id
    ensures id !in Expected(qs, form)
  {
    if qs != [] {
      ExpectedKeys(qs[..|qs| - 1], form, id);
    }
  }

  lemma {:induction false} CollectAppend(m: map<nat, AnswerValue>, a: seq<Answer>, b: seq<Answer>, typeOf: nat -> string, sub: nat)
    ensures Collect(m, a + b, typeOf, sub) == Collect(Collect(m, a, typeOf, sub), b, typeOf, sub)
    decreases |b|
  {
    if b == [] {
      assert a + b == a;
    } else {
      CollectAppend(m, a, b[..|b| - 1], typeOf, sub);
      assert (a + b)[..|a + b| - 1] == a + b[..|b| - 1];
    }
  }

  /** Rows of other submissions leave the map as it is. */
  lemma {:induction false} CollectOthers(m: map<nat, AnswerValue>, table: seq<Answer>, typeOf: nat -> string, sub: nat)
    requires forall k :: 0 <= k < |table| ==> table[k].submissionId != sub
    ensures Collect(m, table, typeOf, sub) == m
  {
    if table != [] {
      CollectOthers(m, table[..|table| - 1], typeOf, sub);
    }
  }

  /** The rows of a multiple choice question, read back one by one, build
      the list of its option ids. */
  lemma {:induction false} CollectPicks(m: map<nat, AnswerValue>, qid: nat, ids: seq<nat>, typeOf: nat -> string,
                                        next: nat, student: nat, survey: nat, sub: nat)
    requires qid !in m && typeOf(qid) == MULTIPLE
    ensures Collect(m, Stamp(PickDrafts(qid, ids), next, student, survey, sub), typeOf, sub)
         == if ids == [] then m else m[qid := Ids(Somes(ids))]
    decreases |ids|
  {
    if ids != [] {
      var front := ids[..|ids| - 1];
      var d := AnswerDraft(qid, Some(ids[|ids| - 1]), None);
      assert PickDrafts(qid, ids) == PickDrafts(qid, front) + [d];
      StampSnoc(PickDrafts(qid, front), d, next, student, survey, sub);
      CollectPicks(m, qid, front, typeOf, next, student, survey, sub);
      var rows := Stamp(PickDrafts(qid, ids), next, student, survey, sub);
      assert rows[..|rows| - 1] == Stamp(PickDrafts(qid, front), next, student, survey, sub);
    }
  }

  /** Reading back the rows of one question adds that question's entry. */
  lemma CollectQuestion(m: map<nat, AnswerValue>, q: Question, form: AnswerForm, typeOf: nat -> string,
                        next: nat, student: nat, survey: nat, sub: nat)
    requires q.id !in m && typeOf(q.id) == q.qtype
    ensures Collect(m, Stamp(QuestionDrafts(q, form), next, student, survey, sub), typeOf, sub)
         == ExpectedStep(m, q, form)
  {
    if q.qtype == MULTIPLE {
      CollectPicks(m, q.id, PicksOf(form, q.id), typeOf, next, student, survey, sub);
    } else {
      var ds := QuestionDrafts(q, form);
      StampSingle(ds, next, student, survey, sub);
      if ds != [] {
        var rows := Stamp(ds, next, student, survey, sub);
        assert rows[..0] == [];
        assert Collect(m, rows, typeOf, sub) == Step(m, rows[0], typeOf);
      }
    }
  }

  /** A submission's own rows, read back, give the answers of its form. */
  lemma {:induction false} CollectOwnRows(qs: seq<Question>, form: AnswerForm, typeOf: nat -> string,
                                          next: nat, student: nat, survey: nat, sub: nat)
    requires forall i, j :: 0 <= i < j < |qs| ==> qs[i].id != qs[j].id
    requires forall k :: 0 <= k < |qs| ==> typeOf(qs[k].id) == qs[k].qtype
    ensures Collect(map[], Stamp(Drafts(qs, form), next, student, survey, sub), typeOf, sub) == Expected(qs, form)
    decreases |qs|
  {
    if qs != [] {
      var front := qs[..|qs| - 1];
      var q := qs[|qs| - 1];
      var done := Drafts(front, form);
      var own := QuestionDrafts(q, form);
      assert Drafts(qs, form) == done + own;
      forall i, j | 0 <= i < j < |front| ensures front[i].id != front[j].id {
        assert front[i] == qs[i] && front[j] == qs[j];
      }
      forall k | 0 <= k < |front| ensures typeOf(front[k].id) == front[k].qtype && front[k].id != q.id {
        assert front[k] == qs[k];
      }
      CollectOwnRows(front, form, typeOf, next, student, survey, sub);
      var rowsA := Stamp(done, next, student, survey, sub);
      var rowsB := Stamp(own, next + |done|, student, survey, sub);
      StampAppend(done, own, next, student, survey, sub);
      CollectAppend(map[], rowsA, rowsB, typeOf, sub);
      var m := Expected(front, form);
      assert Collect(map[], rowsA, typeOf, sub) == m;
      ExpectedKeys(front, form, q.id);
      CollectQuestion(m, q, form, typeOf, next + |done|, student, survey, sub);
    }
  }

  /** The rows `take_survey` records, read back by `view_response`, give
      exactly the answers the form held, whatever other submissions the table
      already stores (question ids distinct, and each row's question of the
      type the survey gives it). */
  lemma RecordThenView(qs: seq<Question>, form: AnswerForm, typeOf: nat -> string,
                       table: seq<Answer>, next: nat, student: nat, survey: nat, sub: nat)
    requires forall i, j :: 0 <= i < j < |qs| ==> qs[i].id != qs[j].id
    requires forall k :: 0 <= k < |qs| ==> typeOf(qs[k].id) == qs[k].qtype
    requires forall k :: 0 <= k < |table| ==> table[k].submissionId != sub
    ensures Collect(map[], table + Stamp(Drafts(qs, form), next, student, survey, sub), typeOf, sub)
         == Expected(qs, form)
  {
    CollectAppend(map[], table, Stamp(Drafts(qs, form), next, student, survey, sub), typeOf, sub);
    CollectOthers(map[], table, typeOf, sub);
    CollectOwnRows(qs, form, typeOf, next, student, survey, sub);
  }
}
