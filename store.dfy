/** The database as one object whose tables the request handlers of app.py
    update in place. Each handler checks the session and looks up its target
    first (the redirect to the login page, `get_or_404`, the owner check),
    and reports which way it went as an outcome value. */
module Store {

  import opened Records
  import Accounts
  import Authoring
  import Answering
  import Codes

  predicate Below(ids: seq<nat>, n: nat)
  {
    forall k :: 0 <= k < |ids| ==> ids[k] < n
  }

  predicate UsersFresh(users: seq<User>, n: nat)
  {
    (forall k :: 0 <= k < |users| ==> users[k].id < n)
    && forall i, j :: 0 <= i < j < |users| ==> users[i].id != users[j].id
  }

  /** Survey keys, and the keys of their question and option rows, were all
      handed out before `n`; survey keys are distinct. */
  predicate SurveysFresh(surveys: seq<Survey>, n: nat)
  {
    (forall k :: 0 <= k < |surveys| ==> surveys[k].id < n && Below(Authoring.RowIds(surveys[k].questions), n))
    && forall i, j :: 0 <= i < j < |surveys| ==> surveys[i].id != surveys[j].id
  }

  predicate SubmissionsFresh(submissions: seq<Submission>, n: nat)
  {
    (forall k :: 0 <= k < |submissions| ==> submissions[k].id < n)
    && forall i, j :: 0 <= i < j < |submissions| ==> submissions[i].id != submissions[j].id
  }

  /** Answer keys, and the submissions answer rows point to, lie below `n`. */
  predicate AnswersFresh(answers: seq<Answer>, n: nat)
  {
    forall k :: 0 <= k < |answers| ==> answers[k].id < n && answers[k].submissionId < n
  }

  predicate FeedbacksFresh(feedbacks: seq<Feedback>, n: nat)
  {
    (forall k :: 0 <= k < |feedbacks| ==> feedbacks[k].id < n)
    && forall i, j :: 0 <= i < j < |feedbacks| ==> feedbacks[i].id != feedbacks[j].id
  }

  predicate RepliesFresh(replies: seq<FeedbackReply>, n: nat)
  {
    forall k :: 0 <= k < |replies| ==> replies[k].id < n
  }

  lemma TablesGrow(users: seq<User>, submissions: seq<Submission>, answers: seq<Answer>,
                   feedbacks: seq<Feedback>, replies: seq<FeedbackReply>, n: nat, n': nat)
    requires n <= n'
    requires UsersFresh(users, n) && SubmissionsFresh(submissions, n) && AnswersFresh(answers, n)
    requires FeedbacksFresh(feedbacks, n) && RepliesFresh(replies, n)
    ensures UsersFresh(users, n') && SubmissionsFresh(submissions, n') && AnswersFresh(answers, n')
    ensures FeedbacksFresh(feedbacks, n') && RepliesFresh(replies, n')
  {
  }

  /** Adding a survey keyed `n` whose rows are keyed below `n'` keeps the
      survey table fresh for `n'`. */
  lemma AddSurveyFresh(surveys: seq<Survey>, s: Survey, n: nat, n': nat)
    requires SurveysFresh(surveys, n)
    requires s.id == n < n' && Below(Authoring.RowIds(s.questions), n')
    ensures SurveysFresh(surveys + [s], n')
  {
    var after := surveys + [s];
    forall k | 0 <= k < |after| ensures after[k].id < n' && Below(Authoring.RowIds(after[k].questions), n') {
      if k < |surveys| {
        assert after[k] == surveys[k];
      }
    }
  }

  /** Stamped answer rows are keyed below `next + |ds|` and all belong to
      submission `sub`. */
  lemma StampFresh(ds: seq<Answering.AnswerDraft>, next: nat, student: nat, survey: nat, sub: nat)
    ensures var rows := Answering.Stamp(ds, next, student, survey, sub);
      forall k :: 0 <= k < |rows| ==> rows[k].id < next + |ds| && rows[k].submissionId == sub
  {
    forall k | 0 <= k < |ds|
      ensures Answering.Stamp(ds, next, student, survey, sub)[k].id < next + |ds|
      ensures Answering.Stamp(ds, next, student, survey, sub)[k].submissionId == sub
    {
      Answering.StampAt(ds, next, student, survey, sub, k);
    }
  }

  lemma AddSubmissionFresh(submissions: seq<Submission>, x: Submission, n: nat)
    requires SubmissionsFresh(submissions, n)
    requires x.id < n && forall k :: 0 <= k < |submissions| ==> submissions[k].id < x.id
    ensures SubmissionsFresh(submissions + [x], n)
  {
    var after := submissions + [x];
    forall i, j | 0 <= i < j < |after| ensures after[i].id != after[j].id {
      assert after[i] == submissions[i];
    }
  }

  lemma AddAnswersFresh(answers: seq<Answer>, rows: seq<Answer>, n: nat)
    requires AnswersFresh(answers, n) && AnswersFresh(rows, n)
    ensures AnswersFresh(answers + rows, n)
  {
    var after := answers + rows;
    forall k | 0 <= k < |after| ensures after[k].id < n && after[k].submissionId < n {
      if k < |answers| {
        assert after[k] == answers[k];
      } else {
        assert after[k] == rows[k - |answers|];
      }
    }
  }

  /** A survey without a code, or with a code nobody uses, can be added. */
  lemma AddSurveyCodesUnique(surveys: seq<Survey>, s: Survey)
    requires Codes.CodesUnique(surveys)
    requires s.code.Some? ==> !Codes.CodeInUse(surveys, s.code.value)
    ensures Codes.CodesUnique(surveys + [s])
  {
    var after := surveys + [s];
    forall i, j | 0 <= i < j < |after| && after[i].code.Some? ensures after[i].code != after[j].code {
      assert after[i] == surveys[i];
      if j == |surveys| {
        assert after[j] == s;
      } else {
        assert after[j] == surveys[j];
      }
    }
  }

  /** Replacing a survey by one with the same key, rows and code keeps both
      survey invariants. */
  lemma SetSurveyKeeps(surveys: seq<Survey>, k: nat, s: Survey, n: nat)
    requires SurveysFresh(surveys, n) && Codes.CodesUnique(surveys)
    requires k < |surveys| && s.id == surveys[k].id && s.questions == surveys[k].questions && s.code == surveys[k].code
    ensures SurveysFresh(surveys[k := s], n) && Codes.CodesUnique(surveys[k := s])
  {
  }

  /** A survey row as `create_survey` first commits it: keyed `id`, with
      the submitted title, owned by the signed-in teacher, active. */
  predicate IsOpened(s: Survey, id: nat, title: string, teacher: nat)
  {
    s.id == id && s.title == title && s.teacherId == teacher && s.isActive
  }

  /** The survey carries a well-formed code that none of `before` uses. */
  predicate HasFreshCode(s: Survey, before: seq<Survey>)
  {
    s.code.Some? && Codes.IsCodeShape(s.code.value) && !Codes.CodeInUse(before, s.code.value)
  }

  /** The survey's code is the first draw that none of `before` uses. */
  ghost predicate TakesFirstFreeDraw(s: Survey, before: seq<Survey>, draws: seq<string>)
  {
    exists n: nat :: Codes.FirstFreeAt(before, draws, n) && s.code == Some(draws[n])
  }

  /** The question rows `create_survey` commits: the kept questions and
      options of the form, keyed consecutively from `lo` to just below
      `hi`. */
  predicate PlannedRows(qs: seq<Question>, form: Authoring.SurveyForm, lo: nat, hi: nat)
  {
    Authoring.Outline(qs) == Authoring.CreatePlan(form) && Authoring.Consecutive(Authoring.RowIds(qs), lo, hi)
  }

  /** The question rows `edit_survey` commits for a new version: the
      submitted questions and options in the form's order, keyed
      consecutively from `lo` to just below `hi`. */
  predicate CopiedRows(qs: seq<Question>, form: Authoring.SurveyForm, lo: nat, hi: nat)
  {
    Authoring.Outline(qs) == Authoring.CopyPlan(form) && Authoring.Consecutive(Authoring.RowIds(qs), lo, hi)
  }

  /** The version `edit_survey` forks from `orig` when its content changed:
      keyed `id`, titled after the family of `orig` among the surveys
      `before`, owned by the teacher of `orig`, active as the form says,
      without a code, and holding copies of the submitted questions keyed
      from `id + 1` to just below `last`. */
  predicate IsFork(fork: Survey, id: nat, before: seq<Survey>, orig: Survey, form: Authoring.SurveyForm, last: nat)
  {
    fork.id == id && fork.title == Authoring.ForkTitle(before, orig)
    && fork.teacherId == orig.teacherId && fork.isActive == form.isActive && fork.code.None?
    && CopiedRows(fork.questions, form, id + 1, last)
  }

  predicate IsTeacher(session: Session)
  {
    session.SignedIn? && session.role == TEACHER
  }

  predicate IsStudent(session: Session)
  {
    session.SignedIn? && session.role == STUDENT
  }

  datatype ProfileOutcome = ProfileLoginRequired | ProfileNotFound | ProfileRefused(error: Accounts.ProfileError) | ProfileSaved

  datatype CreateOutcome =
    | CreateLoginRequired
    | MissingTitle
    /** The survey row and its code are already committed when the empty
        question list is refused. */
    | NoQuestions(surveyId: nat)
    /** Every drawn code was taken: the survey row is committed without a
        code and the source goes on drawing. */
    | StillDrawing(surveyId: nat)
    | Created(surveyId: nat)

  datatype EditOutcome = EditLoginRequired | EditNotFound | EditNotOwner | Forked(surveyId: nat) | StatusUpdated

  datatype TakeOutcome = TakeLoginRequired | TakeNotFound | TakeClosed | Submitted(submissionId: nat)

  datatype ToggleOutcome = ToggleLoginRequired | ToggleNotFound | ToggleNotOwner | Toggled

  datatype MarkOutcome = MarkUnauthorized | MarkNotFound | Marked

  datatype ReplyOutcome = ReplyUnauthorized | ReplyNotFound | EmptyReply | Replied(replyId: nat)

  /** Keys come from one counter, `nextId`, shared by every table. */
  class Db {
    var users: seq<User>
    var surveys: seq<Survey>
    var submissions: seq<Submission>
    var answers: seq<Answer>
    var feedbacks: seq<Feedback>
    var replies: seq<FeedbackReply>
    var nextId: nat

    /** Usernames, student numbers and survey codes are unique, and every
        stored key was handed out by the counter. */
    ghost predicate Valid()
      reads this
    {
      Accounts.UniqueAccounts(users) && Codes.CodesUnique(surveys)
      && UsersFresh(users, nextId) && SurveysFresh(surveys, nextId)
      && SubmissionsFresh(submissions, nextId) && AnswersFresh(answers, nextId)
      && FeedbacksFresh(feedbacks, nextId) && RepliesFresh(replies, nextId)
    }

    constructor ()
      ensures Valid()
      ensures users == [] && surveys == [] && submissions == [] && answers == []
      ensures feedbacks == [] && replies == [] && nextId == 1
    {
      users, surveys, submissions, answers := [], [], [], [];
      feedbacks, replies, nextId := [], [], 1;
    }

    /** `register`: on success one user row is added with the next key;
        otherwise nothing changes. */
    method Register(form: Accounts.RegisterForm, passwordHash: string) returns (r: Result<nat, Accounts.RegisterError>)
      requires Valid()
      modifies this
      ensures Valid()
      ensures var reg := Accounts.Register(old(users), form, old(nextId), passwordHash);
        (reg.Ok? ==> r == Ok(old(nextId)) && users == old(users) + [reg.value] && nextId == old(nextId) + 1)
        && (reg.Err? ==> r == Err(reg.error) && users == old(users) && nextId == old(nextId))
      ensures surveys == old(surveys) && submissions == old(submissions) && answers == old(answers)
      ensures feedbacks == old(feedbacks) && replies == old(replies)
    {
      var reg := Accounts.Register(users, form, nextId, passwordHash);
      if reg.Err? {
        return Err(reg.error);
      }
      Accounts.RegisterKeepsAccountsUnique(users, form, nextId, passwordHash);
      users := users + [reg.value];
      r := Ok(nextId);
      nextId := nextId + 1;
    }

    /** `profile` (POST), for a signed-in student: the user's own row is
        replaced by the edited one, or nothing changes. */
    method EditProfile(session: Session, form: Accounts.ProfileForm, passwordMatches: bool, newPasswordHash: string)
      returns (r: ProfileOutcome)
      requires Valid()
      modifies this
      ensures Valid()
      ensures !IsStudent(session) ==> r == ProfileLoginRequired
      ensures IsStudent(session) && FindUser(old(users), session.userId).None? ==> r == ProfileNotFound
      ensures r.ProfileRefused? || r.ProfileSaved? ==>
        IsStudent(session) && FindUser(old(users), session.userId).Some?
      ensures IsStudent(session) && FindUser(old(users), session.userId).Some? ==>
        var k := FindUser(old(users), session.userId).value;
        var e := Accounts.EditProfile(old(users), old(users)[k], form, passwordMatches, newPasswordHash);
        (e.Ok? ==> r == ProfileSaved && users == old(users)[k := e.value])
        && (e.Err? ==> r == ProfileRefused(e.error) && users == old(users))
      ensures !r.ProfileSaved? ==> users == old(users)
      ensures surveys == old(surveys) && submissions == old(submissions) && answers == old(answers)
      ensures feedbacks == old(feedbacks) && replies == old(replies) && nextId == old(nextId)
    {
      if !IsStudent(session) {
        return ProfileLoginRequired;
      }
      var found := FindUser(users, session.userId);
      if found.None? {
        return ProfileNotFound;
      }
      var k := found.value;
      var e := Accounts.EditProfile(users, users[k], form, passwordMatches, newPasswordHash);
      if e.Err? {
        return ProfileRefused(e.error);
      }
      Accounts.EditProfileKeepsAccountsUnique(users, k, form, passwordMatches, newPasswordHash);
      users := users[k := e.value];
      r := ProfileSaved;
    }

    /** Commits one new survey row keyed by the counter, whose rows are
        keyed below `n`, and moves the counter to `n`. */
    method AddSurvey(s: Survey, n: nat)
      requires Valid()
      requires s.id == nextId < n && Below(Authoring.RowIds(s.questions), n)
      requires s.code.Some? ==> !Codes.CodeInUse(surveys, s.code.value)
      modifies this
      ensures Valid()
      ensures surveys == old(surveys) + [s] && nextId == n
      ensures users == old(users) && submissions == old(submissions) && answers == old(answers)
      ensures feedbacks == old(feedbacks) && replies == old(replies)
    {
      TablesGrow(users, submissions, answers, feedbacks, replies, nextId, n);
      AddSurveyFresh(surveys, s, nextId, n);
      AddSurveyCodesUnique(surveys, s);
      surveys := surveys + [s];
      nextId := n;
    }

    /** Replaces survey `k` by a copy that differs only in its flags. */
    method SetSurvey(k: nat, s: Survey)
      requires Valid()
      requires k < |surveys| && s.id == surveys[k].id && s.questions == surveys[k].questions && s.code == surveys[k].code
      modifies this
      ensures Valid()
      ensures surveys == old(surveys)[k := s]
      ensures users == old(users) && submissions == old(submissions) && answers == old(answers)
      ensures feedbacks == old(feedbacks) && replies == old(replies) && nextId == old(nextId)
    {
      SetSurveyKeeps(surveys, k, s, nextId);
      surveys := surveys[k := s];
    }

    /** `create_survey`: only a signed-in teacher may create, and a missing
        or empty title is refused before anything is stored; the rest is
        `OpenSurvey`. */
    method CreateSurvey(session: Session, form: Authoring.SurveyForm, draws: seq<string>) returns (r: CreateOutcome)
      requires Valid()
      requires forall k :: 0 <= k < |draws| ==> Codes.IsCodeShape(draws[k])
      modifies this
      ensures Valid()
      ensures !IsTeacher(session) ==> r == CreateLoginRequired
      ensures IsTeacher(session) && !Accounts.Given(form.title) ==> r == MissingTitle
      ensures r == CreateLoginRequired || r == MissingTitle ==> surveys == old(surveys) && nextId == old(nextId)
      ensures r.NoQuestions? || r.StillDrawing? || r.Created? ==>
        IsTeacher(session) && Accounts.Given(form.title) && r.surveyId == old(nextId)
        && |surveys| == |old(surveys)| + 1 && surveys == old(surveys) + [surveys[|old(surveys)|]]
        && IsOpened(surveys[|old(surveys)|], old(nextId), form.title.value, session.userId)
      ensures IsTeacher(session) && Accounts.Given(form.title) ==>
        (r.StillDrawing? <==> forall k :: 0 <= k < |draws| ==> Codes.CodeInUse(old(surveys), draws[k]))
      ensures r.StillDrawing? ==> surveys[|old(surveys)|].code.None? && surveys[|old(surveys)|].questions == []
      ensures r.NoQuestions? || r.Created? ==> HasFreshCode(surveys[|old(surveys)|], old(surveys))
      ensures r.NoQuestions? || r.Created? ==> TakesFirstFreeDraw(surveys[|old(surveys)|], old(surveys), draws)
      ensures r.NoQuestions? || r.StillDrawing? ==> nextId == old(nextId) + 1
      ensures r.NoQuestions? ==> form.questions == [] && surveys[|old(surveys)|].questions == []
      ensures r.Created? ==> form.questions != [] && PlannedRows(surveys[|old(surveys)|].questions, form, old(nextId) + 1, nextId)
      ensures IsTeacher(session) && Accounts.Given(form.title) ==> r.NoQuestions? || r.StillDrawing? || r.Created?
      ensures users == old(users) && submissions == old(submissions) && answers == old(answers)
      ensures feedbacks == old(feedbacks) && replies == old(replies)
    {
      if !IsTeacher(session) {
        return CreateLoginRequired;
      }
      if !Accounts.Given(form.title) {
        return MissingTitle;
      }
      r := OpenSurvey(session.userId, form.title.value, form, draws);
    }

    /** The commits of `create_survey`: the survey row, keyed by the counter
        and active, first without a code; then the first drawn code nobody
        uses (the source goes on drawing while every draw is taken); then,
        unless the question list is empty, the question and option rows. */
    method OpenSurvey(teacher: nat, title: string, form: Authoring.SurveyForm, draws: seq<string>) returns (r: CreateOutcome)
      requires Valid()
      requires forall k :: 0 <= k < |draws| ==> Codes.IsCodeShape(draws[k])
      modifies this
      ensures Valid()
      ensures r.NoQuestions? || r.StillDrawing? || r.Created?
      ensures r.surveyId == old(nextId) && |surveys| == |old(surveys)| + 1 && surveys == old(surveys) + [surveys[|old(surveys)|]]
      ensures IsOpened(surveys[|old(surveys)|], old(nextId), title, teacher)
      ensures r.StillDrawing? <==> forall k :: 0 <= k < |draws| ==> Codes.CodeInUse(old(surveys), draws[k])
      ensures r.StillDrawing? ==> surveys[|old(surveys)|].code.None? && surveys[|old(surveys)|].questions == []
      ensures r.NoQuestions? || r.Created? ==> HasFreshCode(surveys[|old(surveys)|], old(surveys))
      ensures r.NoQuestions? || r.Created? ==> TakesFirstFreeDraw(surveys[|old(surveys)|], old(surveys), draws)
      ensures r.NoQuestions? || r.StillDrawing? ==> nextId == old(nextId) + 1
      ensures r.NoQuestions? ==> form.questions == [] && surveys[|old(surveys)|].questions == []
      ensures r.Created? ==> form.questions != [] && PlannedRows(surveys[|old(surveys)|].questions, form, old(nextId) + 1, nextId)
      ensures users == old(users) && submissions == old(submissions) && answers == old(answers)
      ensures feedbacks == old(feedbacks) && replies == old(replies)
    {
      var id := nextId;
      // The survey row is committed without a code before the code is
      // drawn; a row without a code cannot make a draw look taken, so the
      // draw is checked against the surveys as they were.
      var code := Codes.DrawFreshCode(surveys, draws);
      var s := Survey(id, title, teacher, true, code, []);
      assert Authoring.RowIds([]) == [];
      if code.None? || form.questions == [] {
        AddSurvey(s, nextId + 1);
        if code.None? {
          return StillDrawing(id);
        }
        return NoQuestions(id);
      }
      var qs, last := Authoring.BuildQuestions(form, nextId + 1);
      Authoring.ConsecutiveRange(Authoring.RowIds(qs), nextId + 1, last);
      AddSurvey(s.(questions := qs), last);
      r := Created(id);
    }

    /** `edit_survey` (POST), for the owning teacher: a change of title or of
        any question or option forks a new active-or-not version with a
        version title, no code and renumbered copies of the submitted
        questions, leaving the original untouched; otherwise only the
        original's `is_active` flag is set from the form. */
    method EditSurvey(session: Session, surveyId: nat, form: Authoring.SurveyForm) returns (r: EditOutcome)
      requires Valid()
      modifies this
      ensures Valid()
      ensures !IsTeacher(session) ==> r == EditLoginRequired
      ensures IsTeacher(session) && FindSurvey(old(surveys), surveyId).None? ==> r == EditNotFound
      ensures IsTeacher(session) && FindSurvey(old(surveys), surveyId).Some? ==>
        old(surveys)[FindSurvey(old(surveys), surveyId).value].teacherId != session.userId ==> r == EditNotOwner
      ensures r.Forked? || r == StatusUpdated ==>
        IsTeacher(session) && FindSurvey(old(surveys), surveyId).Some?
        && old(surveys)[FindSurvey(old(surveys), surveyId).value].teacherId == session.userId
      ensures r.Forked? ==>
        var orig := old(surveys)[FindSurvey(old(surveys), surveyId).value];
        !Authoring.SameContent(orig, form)
        && r.surveyId == old(nextId) && |surveys| == |old(surveys)| + 1 && surveys == old(surveys) + [surveys[|old(surveys)|]]
        && IsFork(surveys[|old(surveys)|], old(nextId), old(surveys), orig, form, nextId)
      ensures r == StatusUpdated ==>
        var k := FindSurvey(old(surveys), surveyId).value;
        Authoring.SameContent(old(surveys)[k], form)
        && surveys == old(surveys)[k := old(surveys)[k].(isActive := form.isActive)] && nextId == old(nextId)
      ensures IsTeacher(session) && FindSurvey(old(surveys), surveyId).Some? ==>
        var orig := old(surveys)[FindSurvey(old(surveys), surveyId).value];
        orig.teacherId == session.userId ==>
          (r.Forked? || r == StatusUpdated) && (r.Forked? <==> !Authoring.SameContent(orig, form))
      ensures !r.Forked? && r != StatusUpdated ==> surveys == old(surveys) && nextId == old(nextId)
      ensures users == old(users) && submissions == old(submissions) && answers == old(answers)
      ensures feedbacks == old(feedbacks) && replies == old(replies)
    {
      if !IsTeacher(session) {
        return EditLoginRequired;
      }
      var found := FindSurvey(surveys, surveyId);
      if found.None? {
        return EditNotFound;
      }
      var k := found.value;
      var orig := surveys[k];
      if orig.teacherId != session.userId {
        return EditNotOwner;
      }
      var changed := Authoring.DetectChanges(orig, form);
      if changed {
        var id := ForkSurvey(orig, form);
        return Forked(id);
      }
      SetSurvey(k, orig.(isActive := form.isActive));
      r := StatusUpdated;
    }

    /** The new version `edit_survey` commits when the content changed: keyed
        by the counter, titled after the original's family, owned by the
        original's teacher, without a code, holding copies of the submitted
        questions keyed after it. */
    method ForkSurvey(orig: Survey, form: Authoring.SurveyForm) returns (id: nat)
      requires Valid()
      modifies this
      ensures Valid()
      ensures id == old(nextId) && |surveys| == |old(surveys)| + 1 && surveys == old(surveys) + [surveys[|old(surveys)|]]
      ensures IsFork(surveys[|old(surveys)|], id, old(surveys), orig, form, nextId)
      ensures users == old(users) && submissions == old(submissions) && answers == old(answers)
      ensures feedbacks == old(feedbacks) && replies == old(replies)
    {
      var title := Authoring.ForkTitle(surveys, orig);
      id := nextId;
      var qs, last := Authoring.CopyQuestions(form, nextId + 1);
      Authoring.ConsecutiveRange(Authoring.RowIds(qs), nextId + 1, last);
      AddSurvey(Survey(id, title, orig.teacherId, form.isActive, None, qs), last);
    }

    /** The commits of `take_survey`: a submission of `student` for survey
        `survey`, keyed by the counter, then the answer rows the form gives
        for the questions `qs`, keyed after it; no earlier answer row
        belongs to the new submission. */
    method Submit(student: nat, survey: nat, qs: seq<Question>, form: Answering.AnswerForm) returns (sub: nat)
      requires Valid()
      modifies this
      ensures Valid()
      ensures sub == old(nextId) && submissions == old(submissions) + [Submission(sub, student, survey)]
      ensures answers == old(answers) + Answering.Stamp(Answering.Drafts(qs, form), sub + 1, student, survey, sub)
      ensures nextId == sub + 1 + |Answering.Drafts(qs, form)|
      ensures forall k :: 0 <= k < |old(answers)| ==> old(answers)[k].submissionId != sub
      ensures users == old(users) && surveys == old(surveys)
      ensures feedbacks == old(feedbacks) && replies == old(replies)
    {
      sub := nextId;
      var rows := Answering.RecordAnswers(qs, form, student, survey, sub, sub + 1);
      StampFresh(Answering.Drafts(qs, form), sub + 1, student, survey, sub);
      var n := sub + 1 + |rows|;
      TablesGrow(users, submissions, answers, feedbacks, replies, sub, n);
      AddSubmissionFresh(submissions, Submission(sub, student, survey), n);
      AddAnswersFresh(answers, rows, n);
      submissions := submissions + [Submission(sub, student, survey)];
      answers := answers + rows;
      nextId := n;
    }

    /** `take_survey` (POST), for a signed-in student and an active survey:
        one submission row with the next key, then the answer rows of the
        form with the keys after it, each carrying that submission. */
    method TakeSurvey(session: Session, surveyId: nat, form: Answering.AnswerForm) returns (r: TakeOutcome)
      requires Valid()
      modifies this
      ensures Valid()
      ensures !IsStudent(session) ==> r == TakeLoginRequired
      ensures IsStudent(session) && FindSurvey(surveys, surveyId).None? ==> r == TakeNotFound
      ensures IsStudent(session) && FindSurvey(surveys, surveyId).Some? ==>
        (r == TakeClosed <==> !surveys[FindSurvey(surveys, surveyId).value].isActive)
      ensures r.Submitted? ==>
        IsStudent(session) && FindSurvey(surveys, surveyId).Some?
        && var s := surveys[FindSurvey(surveys, surveyId).value];
        s.isActive && r.submissionId == old(nextId)
        && submissions == old(submissions) + [Submission(old(nextId), session.userId, surveyId)]
        && answers == old(answers)
                      + Answering.Stamp(Answering.Drafts(s.questions, form), old(nextId) + 1,
                                        session.userId, surveyId, old(nextId))
        && nextId == old(nextId) + 1 + |Answering.Drafts(s.questions, form)|
        && (forall k :: 0 <= k < |old(answers)| ==> old(answers)[k].submissionId != r.submissionId)
      ensures IsStudent(session) && FindSurvey(surveys, surveyId).Some? && surveys[FindSurvey(surveys, surveyId).value].isActive ==>
        r.Submitted?
      ensures !r.Submitted? ==>
        submissions == old(submissions) && answers == old(answers) && nextId == old(nextId)
      ensures users == old(users) && surveys == old(surveys)
      ensures feedbacks == old(feedbacks) && replies == old(replies)
    {
      if !IsStudent(session) {
        return TakeLoginRequired;
      }
      var found := FindSurvey(surveys, surveyId);
      if found.None? {
        return TakeNotFound;
      }
      var s := surveys[found.value];
      if !s.isActive {
        return TakeClosed;
      }
      var sub := Submit(session.userId, surveyId, s.questions, form);
      r := Submitted(sub);
    }

    /** `toggle_survey_status`, for the owning teacher: flips `is_active`
        and nothing else. */
    method ToggleSurveyStatus(session: Session, surveyId: nat) returns (r: ToggleOutcome)
      requires Valid()
      modifies this
      ensures Valid()
      ensures !IsTeacher(session) ==> r == ToggleLoginRequired
      ensures IsTeacher(session) && FindSurvey(old(surveys), surveyId).None? ==> r == ToggleNotFound
      ensures IsTeacher(session) && FindSurvey(old(surveys), surveyId).Some? ==>
        var k := FindSurvey(old(surveys), surveyId).value;
        (old(surveys)[k].teacherId != session.userId ==> r == ToggleNotOwner && surveys == old(surveys))
        && (old(surveys)[k].teacherId == session.userId ==>
              r == Toggled && surveys == old(surveys)[k := old(surveys)[k].(isActive := !old(surveys)[k].isActive)])
      ensures r != Toggled ==> surveys == old(surveys)
      ensures users == old(users) && submissions == old(submissions) && answers == old(answers)
      ensures feedbacks == old(feedbacks) && replies == old(replies) && nextId == old(nextId)
    {
      if !IsTeacher(session) {
        return ToggleLoginRequired;
      }
      var found := FindSurvey(surveys, surveyId);
      if found.None? {
        return ToggleNotFound;
      }
      var k := found.value;
      if surveys[k].teacherId != session.userId {
        return ToggleNotOwner;
      }
      SetSurvey(k, surveys[k].(isActive := !surveys[k].isActive));
      r := Toggled;
    }

    /** `mark_feedback_as_read`, for any signed-in teacher: the feedback's
        status becomes "read". */
    method MarkFeedbackAsRead(session: Session, feedbackId: nat) returns (r: MarkOutcome)
      requires Valid()
      modifies this
      ensures Valid()
      ensures !IsTeacher(session) ==> r == MarkUnauthorized
      ensures IsTeacher(session) && FindFeedback(old(feedbacks), feedbackId).None? ==> r == MarkNotFound
      ensures IsTeacher(session) && FindFeedback(old(feedbacks), feedbackId).Some? ==>
        var k := FindFeedback(old(feedbacks), feedbackId).value;
        r == Marked && feedbacks == old(feedbacks)[k := old(feedbacks)[k].(status := READ)]
      ensures r != Marked ==> feedbacks == old(feedbacks)
      ensures users == old(users) && surveys == old(surveys) && submissions == old(submissions)
      ensures answers == old(answers) && replies == old(replies) && nextId == old(nextId)
    {
      if !IsTeacher(session) {
        return MarkUnauthorized;
      }
      var found := FindFeedback(feedbacks, feedbackId);
      if found.None? {
        return MarkNotFound;
      }
      var k := found.value;
      feedbacks := feedbacks[k := feedbacks[k].(status := READ)];
      r := Marked;
    }

    /** `reply_feedback`, for any signed-in teacher: a non-empty reply is
        stored with the next key and the feedback is marked read; the
        feedback is looked up before the reply text is checked. */
    method ReplyFeedback(session: Session, feedbackId: nat, reply: Option<string>) returns (r: ReplyOutcome)
      requires Valid()
      modifies this
      ensures Valid()
      ensures !IsTeacher(session) ==> r == ReplyUnauthorized
      ensures IsTeacher(session) && FindFeedback(old(feedbacks), feedbackId).None? ==> r == ReplyNotFound
      ensures IsTeacher(session) && FindFeedback(old(feedbacks), feedbackId).Some? && !Accounts.Given(reply) ==>
        r == EmptyReply
      ensures r.Replied? ==>
        IsTeacher(session) && FindFeedback(old(feedbacks), feedbackId).Some? && Accounts.Given(reply)
        && var k := FindFeedback(old(feedbacks), feedbackId).value;
        r.replyId == old(nextId) && nextId == old(nextId) + 1
        && replies == old(replies) + [FeedbackReply(old(nextId), feedbackId, reply.value)]
        && feedbacks == old(feedbacks)[k := old(feedbacks)[k].(status := READ)]
      ensures IsTeacher(session) && FindFeedback(old(feedbacks), feedbackId).Some? && Accounts.Given(reply) ==>
        r.Replied?
      ensures !r.Replied? ==> feedbacks == old(feedbacks) && replies == old(replies) && nextId == old(nextId)
      ensures users == old(users) && surveys == old(surveys) && submissions == old(submissions)
      ensures answers == old(answers)
    {
      if !IsTeacher(session) {
        return ReplyUnauthorized;
      }
      var found := FindFeedback(feedbacks, feedbackId);
      if found.None? {
        return ReplyNotFound;
      }
      if !Accounts.Given(reply) {
        return EmptyReply;
      }
      var k := found.value;
      replies := replies + [FeedbackReply(nextId, feedbackId, reply.value)];
      feedbacks := feedbacks[k := feedbacks[k].(status := READ)];
      r := Replied(nextId);
      nextId := nextId + 1;
    }
  }
}
