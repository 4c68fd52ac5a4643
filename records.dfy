/** Record shapes of the questionnaire database (database.py), as values.

    A survey owns its questions and a question owns its options (the
    cascade-deleted relationships `survey.questions` and `question.options`),
    so those rows are stored inside their parent, in relationship order.
    Users, surveys, whole-survey submissions, per-question answers, feedback
    and feedback replies are tables of their own. */
module Records {

  datatype Option<+T> = None | Some(value: T)

  datatype Result<+T, +E> = Ok(value: T) | Err(error: E)

  /** The three question types the application knows; `question_type` is a
      free string column, and every handler treats an unknown value through
      its own `else` branch. */
  const SINGLE: string := "single"
  const MULTIPLE: string := "multiple"
  const TEXT: string := "text"

  const TEACHER: string := "teacher"
  const STUDENT: string := "student"

  const UNREAD: string := "unread"
  const READ: string := "read"

  predicate IsChoice(qtype: string)
  {
    qtype == SINGLE || qtype == MULTIPLE
  }

  datatype User = User(
    id: nat,
    username: string,
    passwordHash: string,
    role: string,
    studentId: Option<string>,
    realName: Option<string>)

  datatype OptionRow = OptionRow(id: nat, text: string, order: int)

  datatype Question = Question(
    id: nat,
    text: string,
    qtype: string,
    order: int,
    options: seq<OptionRow>)

  datatype Survey = Survey(
    id: nat,
    title: string,
    teacherId: nat,
    isActive: bool,
    code: Option<string>,
    questions: seq<Question>)

  /** One row of table `response`: one answer to one question, tied to the
      whole-survey submission it belongs to. */
  datatype Answer = Answer(
    id: nat,
    studentId: nat,
    surveyId: nat,
    questionId: nat,
    optionId: Option<nat>,
    textAnswer: Option<string>,
    submissionId: nat)

  /** One row of table `survey_response`: one submission of a whole survey. */
  datatype Submission = Submission(id: nat, studentId: nat, surveyId: nat)

  datatype Feedback = Feedback(
    id: nat,
    studentId: nat,
    content: string,
    status: string)

  datatype FeedbackReply = FeedbackReply(id: nat, feedbackId: nat, content: string)

  /** Who is signed in, as the session holds it. */
  datatype Session = Anonymous | SignedIn(userId: nat, role: string)

  /** Index of the first survey with primary key `id` (`Survey.query.get`). */
  function FindSurvey(surveys: seq<Survey>, id: nat): (r: Option<nat>)
    ensures r.Some? ==> r.value < |surveys| && surveys[r.value].id == id
    ensures r.Some? ==> forall k :: 0 <= k < r.value ==> surveys[k].id != id
    ensures r.None? ==> forall k :: 0 <= k < |surveys| ==> surveys[k].id != id
  {
    if |surveys| == 0 then None
    else if surveys[0].id == id then Some(0)
    else match FindSurvey(surveys[1..], id)
      case None => None
      case Some(k) => Some(k + 1)
  }

  /** Index of the first user with primary key `id` (`User.query.get`). */
  function FindUser(users: seq<User>, id: nat): (r: Option<nat>)
    ensures r.Some? ==> r.value < |users| && users[r.value].id == id
    ensures r.Some? ==> forall k :: 0 <= k < r.value ==> users[k].id != id
    ensures r.None? ==> forall k :: 0 <= k < |users| ==> users[k].id != id
  {
    if |users| == 0 then None
    else if users[0].id == id then Some(0)
    else match FindUser(users[1..], id)
      case None => None
      case Some(k) => Some(k + 1)
  }

  /** Index of the first feedback with primary key `id`. */
  function FindFeedback(feedbacks: seq<Feedback>, id: nat): (r: Option<nat>)
    ensures r.Some? ==> r.value < |feedbacks| && feedbacks[r.value].id == id
    ensures r.Some? ==> forall k :: 0 <= k < r.value ==> feedbacks[k].id != id
    ensures r.None? ==> forall k :: 0 <= k < |feedbacks| ==> feedbacks[k].id != id
  {
    if |feedbacks| == 0 then None
    else if feedbacks[0].id == id then Some(0)
    else match FindFeedback(feedbacks[1..], id)
      case None => None
      case Some(k) => Some(k + 1)
  }

  /** Index of the first submission with primary key `id`. */
  function FindSubmission(submissions: seq<Submission>, id: nat): (r: Option<nat>)
    ensures r.Some? ==> r.value < |submissions| && submissions[r.value].id == id
    ensures r.Some? ==> forall k :: 0 <= k < r.value ==> submissions[k].id != id
    ensures r.None? ==> forall k :: 0 <= k < |submissions| ==> submissions[k].id != id
  {
    if |submissions| == 0 then None
    else if submissions[0].id == id then Some(0)
    else match FindSubmission(submissions[1..], id)
      case None => None
      case Some(k) => Some(k + 1)
  }
}
