# Questionnaire system: a verified model of its request handlers

The questionnaire system is a Flask web application backed by SQLAlchemy:

- Teachers create surveys made of single-choice, multiple-choice and text questions.
- Students reach a survey through its access code and answer it.
- Teachers read per-question statistics and answer student feedback.

This project models the core of that application in Dafny:

- the registration and profile rules (`Accounts`);
- how a survey form becomes question and option rows, how an edit is detected and forked into a new version, and how the version title is built (`Authoring`, `Text`, `Ordering`);
- how a submission becomes answer rows and how a stored response is read back (`Answering`);
- the per-question statistics of `Survey.get_statistics` (`Statistics`);
- access codes: `Survey.generate_code` and the `access_survey` route (`Codes`);
- one mutable `Db` object whose tables the handlers update in place (`Store`).

Records, options, results and the constants of the source are in `Records`.

Pure decisions are functions, with lemmas relating them. Loops of the source are methods with loop invariants, each proved equal to a specification function. Examples are the loop over questions in `create_survey`, the change detection of `edit_survey`, the retry loop of `generate_code`, the answer loop of `take_survey`, the dictionary built by `view_response` and the statistics loops. The handlers are methods of `Store.Db`. Each keeps the database invariant `Valid()`, states which outcome every case of the source reaches, and states its whole new state.

`Valid()` covers:

- unique usernames and student numbers;
- unique survey codes;
- every stored key below the key counter, including the keys of question and option rows and the submission an answer row points to;
- distinct keys among users, among surveys, among submissions and among feedbacks.

## Model

| member | source | states |
|---|---|---|
| Accounts.Register | Questionnaire_system/app.py:26-75 | Registration succeeds exactly when the teacher invite code is right, the username is free and, for a student, the student number has 7 digits, a real name is given and the number is free. The errors are stated each as an if-and-only-if, in the handler's order: a wrong teacher invite code, then a duplicate username, then for a student a malformed student number, a missing real name and a student number already taken. The new user has the given name, role and hash, and the student fields only when the role is student. |
| Accounts.RegisterKeepsAccountsUnique | Questionnaire_system/app.py:35-56 | Adding a successfully registered user keeps usernames and student numbers unique. |
| Accounts.PasswordGuard | Questionnaire_system/app.py:146-154 | The password gate passes exactly when a password is given or the edit is a username edit, and a given password must match. It answers "password required" exactly when no password is given for an edit other than username, and "password mismatch" exactly when a given password does not match. |
| Accounts.EditProfile | Questionnaire_system/app.py:133-179 | A profile edit never changes id or role, and each field changes only through its own edit type. A username edit with a value succeeds exactly when no other user has the name, and then writes that name. Other edits fail with the password error when the gate refuses. Once the gate passes: a password edit writes the new hash when a new password is given; a real-name edit writes the name when one is given; a student-number edit with a value fails with `BadNumber` unless it has 7 digits, with `NumberInUse` if another user has it, and otherwise writes it. A student-number edit without a value, a username edit without a value and any other edit type change nothing. |
| Accounts.EditProfileKeepsAccountsUnique | Questionnaire_system/app.py:138-170 | Replacing a user by the result of a successful profile edit keeps usernames and student numbers unique. |
| Text.TrimStartFacts | Questionnaire_system/app.py:218 | Stripping leading whitespace removes exactly a whitespace prefix and leaves a string that is empty or starts with a non-space. |
| Text.TrimEndFacts | Questionnaire_system/app.py:218 | Stripping trailing whitespace removes exactly a whitespace suffix and leaves a string that is empty or ends with a non-space. |
| Text.StripIsTrimmedSlice | Questionnaire_system/app.py:233-238 | `strip()` returns the slice between a whitespace prefix and a whitespace suffix, and that slice neither starts nor ends with whitespace. |
| Text.BlankIffAllSpace | Questionnaire_system/app.py:218 | `not s.strip()` holds exactly when every character is whitespace. |
| Text.StudentNumberExamples | Questionnaire_system/app.py:44 | Concrete student numbers: seven digits are accepted. Six or eight digits, a letter, the empty string and a missing field are refused. |
| Text.NatToString | Questionnaire_system/app.py:315 | The decimal rendering of a version number is a non-empty digit string without a leading zero. |
| Text.NatToStringValue | Questionnaire_system/app.py:315 | The digits of the rendering of `n` denote `n`. |
| Text.NatToStringInjective | Questionnaire_system/app.py:315 | Different version numbers render as different strings. |
| Text.BaseTitle | Questionnaire_system/app.py:310 | `title.split(' - ')[0]` is the prefix of the title up to its first " - ": no separator of the title starts inside it and, when the title is longer, a separator follows it. A title without a separator is its own base. |
| Text.VersionTitleInFamily | Questionnaire_system/app.py:311-315 | A version title `{base} - 第{n}版` matches its base's version pattern. |
| Text.VersionTitleBase | Questionnaire_system/app.py:310-315 | The base of a version title is the base it was built from, when that base has no separator and does not end in " -". |
| Text.VersionTitleExample | Questionnaire_system/app.py:310-315 | "Quiz" is its own base. Its first version is "Quiz - 第1版", whose base is "Quiz" again. |
| Ordering.InsertSorted | Questionnaire_system/app.py:284 | Stable insertion into a sequence sorted by key keeps it sorted. |
| Ordering.SortBySorted | Questionnaire_system/app.py:284 | `sorted(..., key=order)` returns its input in key order. |
| Ordering.SortByPermutes | Questionnaire_system/app.py:294 | The sorted sequence is a permutation of its input. |
| Ordering.InsertPermutes | Questionnaire_system/app.py:294 | Insertion adds exactly the inserted element. |
| Ordering.SortByIdentity | Questionnaire_system/app.py:284 | Sorting a sequence already in key order returns it unchanged. |
| Ordering.InsertStable | Questionnaire_system/app.py:284 | Inserting an element puts it after every element with the same key and leaves their order as it was. |
| Ordering.SortByStable | Questionnaire_system/app.py:284 | The sort is stable: for every key, the elements with that key come out in input order. |
| Authoring.KeptOptionsSound | Questionnaire_system/app.py:231-241 | Every option `create_survey` keeps comes from a non-blank submitted option, stripped, and has its 1-based position as order. |
| Authoring.KeptOptionsOrdered | Questionnaire_system/app.py:232-239 | Kept options are in strictly increasing order. |
| Authoring.KeptOptionsComplete | Questionnaire_system/app.py:232-241 | Every non-blank submitted option is kept, stripped, at its 1-based position. |
| Authoring.CreatePlanSound | Questionnaire_system/app.py:217-241 | Every question `create_survey` keeps comes from a non-blank question of the form and is that question's draft: text, type, `order=i+1`, and its kept options for a choice type. |
| Authoring.CreatePlanOrdered | Questionnaire_system/app.py:217-225 | Kept questions are in strictly increasing order. |
| Authoring.CreatePlanComplete | Questionnaire_system/app.py:217-241 | Every non-blank question of the form is kept. |
| Authoring.BuildOptions | Questionnaire_system/app.py:230-241 | The option loop of `create_survey` yields exactly the kept options, keyed consecutively. |
| Authoring.NewQuestion | Questionnaire_system/app.py:221-241 | One question row of `create_survey` carries its draft and option rows keyed consecutively after it. |
| Authoring.AddQuestion | Questionnaire_system/app.py:217-241 | One pass of the question loop appends that question's draft, unless the text is blank, and keeps keys consecutive. |
| Authoring.BuildQuestions | Questionnaire_system/app.py:217-241 | The question loop of `create_survey` yields exactly the create plan of the form, with all question and option keys consecutive. |
| Authoring.CopiedOptions | Questionnaire_system/app.py:338-345 | `edit_survey` copies every submitted option, stripped, at its 1-based position, blank ones included. |
| Authoring.CopyPlanUpTo | Questionnaire_system/app.py:327-345 | The first `n` questions of a new version are the form's questions in form order: text, type, `order=i+1`, and all their options for a choice type. |
| Authoring.CopyOptions | Questionnaire_system/app.py:337-345 | The option loop of `edit_survey` yields exactly the copied options, keyed consecutively. |
| Authoring.CopiedQuestion | Questionnaire_system/app.py:328-345 | One question row of a new version carries its copied draft and option rows keyed after it. |
| Authoring.CopyQuestion | Questionnaire_system/app.py:327-345 | One pass of the copy loop appends that question's copied draft and keeps keys consecutive. |
| Authoring.CopyQuestions | Questionnaire_system/app.py:327-345 | The copy loop of `edit_survey` yields exactly the copy plan, with all keys consecutive. |
| Authoring.OptionTexts | Questionnaire_system/app.py:294 | The stored option texts are the options' texts, position by position. |
| Authoring.QuestionChanged | Questionnaire_system/app.py:286-303 | One question differs exactly when its text or type changed or, for a choice type, its ordered option texts differ from the submitted ones. |
| Authoring.DetectChanges | Questionnaire_system/app.py:272-306 | `has_changes` holds exactly when the title differs, the question count differs, or some question pair differs. The pairs are compared in stored order. |
| Authoring.VersionCount | Questionnaire_system/app.py:311-313 | The `LIKE` count of versions never exceeds the number of surveys. |
| Authoring.ForkTitleShape | Questionnaire_system/app.py:310-315 | A forked title is `{base} - 第{count+1}版`. The base is a separator-free prefix of the original title, and the fork belongs to that base's family. |
| Authoring.ForkNumbersAdvance | Questionnaire_system/app.py:310-323 | Once a fork is stored, the version count of its base grows by one, so the next fork from the same family is numbered one higher. |
| Authoring.ForkTitleFoldsCase | Questionnaire_system/app.py:311-315 | `LIKE` ignores the case of ASCII letters: beside "Quiz", a survey "QUIZ - 第1版" counts as a version, so "Quiz" forks to "Quiz - 第2版". |
| Authoring.ForkTitleCanRepeat | Questionnaire_system/app.py:311-315 | If an earlier version was deleted, a fork reuses the title of a surviving version: "Quiz" beside "Quiz - 第2版" forks to "Quiz - 第2版" again. |
| Authoring.CopiedOptionsSorted | Questionnaire_system/app.py:294 | Option rows copied by `edit_survey` are already in `order`, so sorting leaves them unchanged. |
| Authoring.ResubmittingForkIsNotStructural | Questionnaire_system/app.py:276-306 | Re-submitting a version's own questions and already-stripped options under its own title is not a change. |
| Answering.PickDrafts | Questionnaire_system/app.py:417-426 | One answer draft per picked option id of a multiple-choice question. |
| Answering.QuestionRows | Questionnaire_system/app.py:403-438 | A text question yields one row exactly when a non-empty text was sent. A multiple question yields one row per picked id, in order. Any other type is treated as single: one row exactly when an id was sent. Every row carries the question's id. |
| Answering.RecordPicks | Questionnaire_system/app.py:417-426 | The loop over picked ids produces exactly the stamped pick drafts. |
| Answering.RecordQuestion | Questionnaire_system/app.py:404-438 | The answers for one question are exactly its stamped drafts. |
| Answering.RecordAnswers | Questionnaire_system/app.py:403-438 | The answer loop of `take_survey` produces exactly the stamped drafts of all questions, keyed consecutively, each tied to the new submission. |
| Answering.CollectAnswers | Questionnaire_system/app.py:455-467 | The dictionary loop of `view_response` equals the fold of its step over the answer rows of the response. |
| Answering.ViewResponse | Questionnaire_system/app.py:448-467 | `view_response` requires a signed-in user, answers 404 for an unknown response, and otherwise shows the response with its collected answers. It does not check ownership. |
| Answering.CollectOthers | Questionnaire_system/app.py:455-457 | Answer rows of other responses do not contribute to a response's dictionary. |
| Answering.CollectPicks | Questionnaire_system/app.py:462-465 | The rows of a multiple-choice question collect to the list of its picked ids, or to no entry when nothing was picked. |
| Answering.CollectQuestion | Questionnaire_system/app.py:460-467 | The rows recorded for one question collect to that question's expected entry. |
| Answering.CollectOwnRows | Questionnaire_system/app.py:403-467 | The rows `take_survey` records for a survey with distinct question ids collect to the expected answers of the form. |
| Answering.RecordThenView | Questionnaire_system/app.py:403-467 | Round trip: after a submission, `view_response` on the new submission shows exactly what the form answered, whatever rows of other responses the table already held. |
| Statistics.OptionStatistics | Questionnaire_system/database.py:63-101 | The per-option loop yields exactly the option statistics: each option's text, its count, and its percentage against the given denominator. |
| Statistics.QuestionStatistics | Questionnaire_system/database.py:39-117 | The per-question body yields exactly that question's statistics entry. |
| Statistics.GetStatistics | Questionnaire_system/database.py:32-121 | `get_statistics` yields exactly the statistics map of the survey. |
| Statistics.StatsKeys | Questionnaire_system/database.py:38-119 | The statistics map has exactly one key per question id of the survey. |
| Statistics.StatsEntry | Questionnaire_system/database.py:38-119 | With distinct question ids, each question's entry is its own statistics. |
| Statistics.SameTotalEverywhere | Questionnaire_system/database.py:36-42 | Every entry reports the survey's submission count as its total. |
| Statistics.Denominators | Questionnaire_system/database.py:39-117 | Single choice: percentages use the number of distinct responding submissions. Multiple choice: they use the number of selections, and 0 when there are none. Text questions list their answers with the student's name and number, and other types get neither. |
| Statistics.QuestionAnswersFilter | Questionnaire_system/database.py:52-56 | The rows counted for a question are exactly those of this survey and question whose submission belongs to the survey. |
| Statistics.ForeignAnswerIgnored | Questionnaire_system/database.py:48-56 | An answer row whose submission does not belong to the survey changes no statistic. |
| Statistics.ZeroSubmissions | Questionnaire_system/database.py:36-101 | With no submissions, every choice option shows count 0 and percentage 0, and the total is 0. |
| Statistics.TextEntriesAt | Questionnaire_system/database.py:111-117 | Each text entry is the answer text with the answering student's username and student number. |
| Statistics.CountsWithinSelections | Questionnaire_system/database.py:82-95 | With distinct option ids, the option counts add up to at most the number of selections. |
| Statistics.OptionStatsNumerators | Questionnaire_system/database.py:63-101 | The percentage numerators of a question's options add up to 100 times the sum of the option counts, or 0 when the denominator is 0. |
| Statistics.MultiplePercentagesWithin100 | Questionnaire_system/database.py:82-101 | With distinct option ids, every percentage of a multiple-choice question is over the number of selections, and the numerators add up to at most 100 times that number, so the percentages sum to at most 100. |
| Statistics.SingleChoiceExample | Questionnaire_system/database.py:58-79 | Three submissions picking A, A, B yield counts 2 and 1 and percentages 200/3 and 100/3 over 3 respondents. |
| Codes.DrawFreshCode | Questionnaire_system/database.py:172-180 | The retry loop returns the first drawn code that no survey uses, a well-formed 8-character code. It returns nothing exactly when every draw is taken. |
| Codes.AssignKeepsCodesUnique | Questionnaire_system/database.py:26 | Giving a code-less survey an unused code keeps codes unique. |
| Codes.FindByCode | Questionnaire_system/app.py:593 | `filter_by(code=...).first()` finds the first survey with the code, and nothing exactly when no survey uses it. |
| Codes.FindByUniqueCode | Questionnaire_system/app.py:593 | With unique codes, a used code finds exactly its survey. |
| Codes.AccessSurvey | Questionnaire_system/app.py:590-608 | `access_survey` answers 404 for an unknown code. It then refuses a closed survey, sends a visitor to log in with a return path to the code's URL, and turns away non-students. Only a signed-in student reaches the survey's `take_survey`, and each outcome occurs exactly under its condition. |
| Codes.StudentReachesOwnSurvey | Questionnaire_system/app.py:590-608 | With unique codes, a student opening an active survey's code is sent to that very survey. |
| Records.FindSurvey | Questionnaire_system/app.py:260 | `get_or_404` finds the first survey with the key, or reports that none has it. |
| Records.FindFeedback | Questionnaire_system/app.py:686 | `get_or_404` on feedbacks finds the first with the key, or reports that none has it. |
| Store.Db.constructor | Questionnaire_system/app.py:736-738 | An empty database satisfies the invariant. |
| Store.Db.Register | Questionnaire_system/app.py:26-75 | On success one user row is added with the next key; on refusal nothing changes. The invariant is kept. |
| Store.Db.EditProfile | Questionnaire_system/app.py:124-179 | Only a signed-in student may edit, 404 for an unknown user. The user's own row is replaced by the edited one, or nothing changes; the invariant is kept. |
| Store.Db.CreateSurvey | Questionnaire_system/app.py:185-243 | Only a teacher may create and an empty title is refused before anything is stored. Otherwise the active survey row is committed with the next key, the first drawn code no survey uses (the earliest such draw) and, unless the question list is empty, exactly the planned question rows. An empty question list is refused after the survey and its code are committed. A teacher who gives a title always reaches one of these commits. When the survey is committed without question rows, the counter moves past its key only. |
| Store.Db.OpenSurvey | Questionnaire_system/app.py:198-243 | The commits of `create_survey` in order: the survey row under the next key; its code, which is the earliest draw no survey uses (none while every draw is taken); the question rows, unless the list is empty. With no question rows committed, the counter moves past the survey key only. |
| Store.Db.EditSurvey | Questionnaire_system/app.py:256-355 | Only the owning teacher may edit; 404 for an unknown survey. A change forks a new version: version title, original teacher, the form's active flag, no code, copied questions. Without a change only the original's `is_active` is set from the form. The owner always reaches one of the two, and forks exactly when the content changed. |
| Store.Db.ForkSurvey | Questionnaire_system/app.py:309-347 | The new version is committed with the next key and its copied rows after it; the original is untouched. |
| Store.Db.Submit | Questionnaire_system/app.py:395-440 | One submission row, then the form's answer rows keyed after it; no earlier answer row belongs to the new submission. |
| Store.Db.TakeSurvey | Questionnaire_system/app.py:384-440 | Only a signed-in student may answer; 404 for an unknown survey; a closed survey is refused. Otherwise, always, exactly one submission and its answer rows are stored. |
| Store.Db.ToggleSurveyStatus | Questionnaire_system/app.py:563-580 | Only the owning teacher may toggle; 404 for an unknown survey. The survey's `is_active` is flipped and nothing else changes. |
| Store.Db.MarkFeedbackAsRead | Questionnaire_system/app.py:681-694 | Any signed-in teacher; 404 for an unknown feedback. The feedback's status becomes "read". |
| Store.Db.ReplyFeedback | Questionnaire_system/app.py:706-734 | Any signed-in teacher. The feedback is looked up (404) before the reply is checked, and an empty reply is refused. Otherwise a reply row with the next key is stored and the feedback is marked read. |

## Left out

- Flask itself is not modelled: request parsing, redirects, `flash` messages, templates, JSON bodies and HTTP status codes. Each handler instead returns an outcome value naming the branch it took.
- The session is a parameter: anonymous, or a signed-in user id with a role.
- Password hashing is left out: the hash of a new password and whether a given password matches the stored hash are parameters.
- Timestamps (`created_at`, `submitted_at`, the reply time) are left out; they are never compared.
- `round(percentage, 2)` is left out. A percentage is kept as the exact fraction `count * 100 / denominator`, or zero.
- The randomness of `generate_code` is a parameter, a finite stream of drawn codes. If every code in the stream is taken, the survey stays without a code (`StillDrawing`), where the source would go on drawing.
- Exceptions and `db.session.rollback()` are not modelled; every commit succeeds.
- `int(option_id)` failing on a non-number and a missing form key raising `KeyError` are not modelled. Submitted option ids arrive as non-negative numbers; a negative id, which `int()` also accepts and the source would store, is not modelled.
- Accounts.Register: `str.isdigit` also accepts non-ASCII digits; the model accepts the ASCII digits `0`-`9` only.
- Accounts.EditProfile: the same ASCII-only digit test applies to the student-number edit.
- Authoring.VersionCount: SQL `LIKE` becomes a test for the prefix `{base} - 第` and the suffix `版`, with the case of ASCII letters folded in the prefix as SQLite does. A `%` or `_` inside a base title, which `LIKE` treats as a wildcard, is matched literally.
- SQLite's per-table autoincrement keys are replaced by one key counter shared by all tables. Keys are only compared for equality.
- Relationships that follow a foreign key are functions given as parameters:
  - `response.question.question_type` in `view_response` is `typeOf`;
  - `response.student` in the statistics is `studentOf`.
- Questions are stored inside their survey and options inside their question, as the cascading relationships own them. Stored order is the order of insertion.
- `view_responses`, `survey_statistics`, `export_survey`, `api_survey_stats`, `to_excel`, the QR-code routes, `login`, `logout`, `dashboard`, `delete_survey`, `submit_feedback`, `view_feedbacks` and `student_feedbacks` are not part of this model. They only render or serialise data, or lie outside the handlers modelled here.
- `count_lines.py` and `view_users.py` are maintenance scripts and are not part of this model.
- Store.Db methods state their new state with `old(...)`. Their guarantees rest on the pure members above, which state the same decisions on values.
