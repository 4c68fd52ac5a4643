/** Survey authoring (app.py `create_survey` and `edit_survey`): which
    questions and options a submitted form turns into, whether an edit changes
    the survey's content, and the title of the version an edit forks. */
module Authoring {

  import opened Records
  import opened Text
  import opened Ordering

  /** The survey editor's form: `title`, the parallel lists `questions[]`
      and `question_types[]`, one list `options[i][]` per question index,
      and the `is_active` checkbox. */
  datatype SurveyForm = SurveyForm(
    title: Option<string>,
    questions: seq<string>,
    types: seq<string>,
    options: map<nat, seq<string>>,
    isActive: bool)

  /** `request.form.getlist(f'options[{i}][]')`: an absent list is empty. */
  function OptionsAt(form: SurveyForm, i: nat): seq<string>
  {
    if i in form.options then form.options[i] else []
  }

  /** `zip(questions, question_types)` stops at the shorter list. */
  function PairCount(form: SurveyForm): nat
  {
    if |form.questions| <= |form.types| then |form.questions| else |form.types|
  }

  /** The content of stored rows, without their primary keys. */
  datatype OptionDraft = OptionDraft(text: string, order: int)
  datatype QuestionDraft = QuestionDraft(text: string, qtype: string, order: int, options: seq<OptionDraft>)

  function OptionOutline(os: seq<OptionRow>): (r: seq<OptionDraft>)
    ensures |r| == |os|
  {
    if os == [] then []
    else OptionOutline(os[..|os| - 1]) + [OptionDraft(os[|os| - 1].text, os[|os| - 1].order)]
  }

  function Outline(qs: seq<Question>): (r: seq<QuestionDraft>)
    ensures |r| == |qs|
  {
    if qs == [] then []
    else
      var q := qs[|qs| - 1];
      Outline(qs[..|qs| - 1]) + [QuestionDraft(q.text, q.qtype, q.order, OptionOutline(q.options))]
  }

  /** Entry `k` of an outline is the content of row `k`. */
  lemma {:induction false} OptionOutlineAt(os: seq<OptionRow>, k: nat)
    requires k < |os|
    ensures OptionOutline(os)[k] == OptionDraft(os[k].text, os[k].order)
  {
    if k < |os| - 1 {
      OptionOutlineAt(os[..|os| - 1], k);
    }
  }

  lemma {:induction false} OutlineAt(qs: seq<Question>, k: nat)
    requires k < |qs|
    ensures Outline(qs)[k] == QuestionDraft(qs[k].text, qs[k].qtype, qs[k].order, OptionOutline(qs[k].options))
  {
    if k < |qs| - 1 {
      OutlineAt(qs[..|qs| - 1], k);
    }
  }

  function OptionIds(os: seq<OptionRow>): (r: seq<nat>)
    ensures |r| == |os|
  {
    if os == [] then [] else OptionIds(os[..|os| - 1]) + [os[|os| - 1].id]
  }

  /** Every primary key of a list of questions and their options, in the
      order the rows are created: each question, then its options. */
  function RowIds(qs: seq<Question>): seq<nat>
  {
    if qs == [] then []
    else RowIds(qs[..|qs| - 1]) + [qs[|qs| - 1].id] + OptionIds(qs[|qs| - 1].options)
  }

  /** `ids` are the consecutive keys `lo`, `lo + 1`, ..., `hi - 1`. */
  predicate Consecutive(ids: seq<nat>, lo: nat, hi: nat)
    decreases |ids|
  {
    if ids == [] then lo == hi
    else hi > 0 && ids[|ids| - 1] == hi - 1 && Consecutive(ids[..|ids| - 1], lo, hi - 1)
  }

  lemma {:induction false} ConsecutiveSnoc(ids: seq<nat>, lo: nat, hi: nat)
    requires Consecutive(ids, lo, hi)
    ensures Consecutive(ids + [hi], lo, hi + 1)
  {
    assert (ids + [hi])[..|ids|] == ids;
  }

  /** Consecutive keys lie in `[lo, hi)` and are pairwise distinct. */
  lemma {:induction false} ConsecutiveRange(ids: seq<nat>, lo: nat, hi: nat)
    requires Consecutive(ids, lo, hi)
    ensures lo <= hi && |ids| == hi - lo
    ensures forall k :: 0 <= k < |ids| ==> ids[k] == lo + k
  {
    if ids != [] {
      ConsecutiveRange(ids[..|ids| - 1], lo, hi - 1);
    }
  }

  lemma OutlineSnoc(qs: seq<Question>, q: Question)
    ensures Outline(qs + [q]) == Outline(qs) + [QuestionDraft(q.text, q.qtype, q.order, OptionOutline(q.options))]
    ensures RowIds(qs + [q]) == RowIds(qs) + [q.id] + OptionIds(q.options)
  {
    assert (qs + [q])[..|qs|] == qs;
  }

  lemma OptionOutlineSnoc(os: seq<OptionRow>, o: OptionRow)
    ensures OptionOutline(os + [o]) == OptionOutline(os) + [OptionDraft(o.text, o.order)]
    ensures OptionIds(os + [o]) == OptionIds(os) + [o.id]
  {
    assert (os + [o])[..|os|] == os;
  }

  lemma {:induction false} ConsecutiveAppend(a: seq<nat>, b: seq<nat>, lo: nat, mid: nat, hi: nat)
    requires Consecutive(a, lo, mid) && Consecutive(b, mid, hi)
    ensures Consecutive(a + b, lo, hi)
    decreases |b|
  {
    if b != [] {
      var front := b[..|b| - 1];
      assert hi > 0 && b[|b| - 1] == hi - 1 && Consecutive(front, mid, hi - 1);
      ConsecutiveAppend(a, front, lo, mid, hi - 1);
      assert (a + b)[..|a + b| - 1] == a + front;
      assert (a + b)[|a + b| - 1] == hi - 1;
    } else {
      assert a + b == a;
    }
  }

  // ---------------------------------------------------------------------
  // create_survey

  /** The options `create_survey` keeps from one submitted list: blank
      entries are skipped, kept ones are stripped and keep their 1-based
      position in the submitted list as `order` (so gaps are possible). */
  function KeptOptions(raw: seq<string>): seq<OptionDraft>
  {
    if raw == [] then []
    else
      var j := |raw| - 1;
      KeptOptions(raw[..j]) + (if IsBlank(raw[j]) then [] else [OptionDraft(Strip(raw[j]), j + 1)])
  }

  /** Every kept option comes from a non-blank entry, stripped, with that
      entry's 1-based position as its order. */
  lemma {:induction false} KeptOptionsSound(raw: seq<string>)
    ensures forall k :: 0 <= k < |KeptOptions(raw)| ==>
      var o := KeptOptions(raw)[k];
      1 <= o.order <= |raw| && !IsBlank(raw[o.order - 1]) && o.text == Strip(raw[o.order - 1])
  {
    if raw != [] {
      var j := |raw| - 1;
      var before := raw[..j];
      KeptOptionsSound(before);
      var front := KeptOptions(before);
      var r := KeptOptions(raw);
      assert r == front + (if IsBlank(raw[j]) then [] else [OptionDraft(Strip(raw[j]), j + 1)]);
      forall k | 0 <= k < |r|
        ensures 1 <= r[k].order <= |raw| && !IsBlank(raw[r[k].order - 1]) && r[k].text == Strip(raw[r[k].order - 1])
      {
        if k < |front| {
          assert r[k] == front[k];
          assert raw[r[k].order - 1] == before[r[k].order - 1];
        }
      }
    }
  }

  /** The kept options' orders strictly increase. */
  lemma {:induction false} KeptOptionsOrdered(raw: seq<string>)
    ensures forall k, l :: 0 <= k < l < |KeptOptions(raw)| ==> KeptOptions(raw)[k].order < KeptOptions(raw)[l].order
  {
    if raw != [] {
      var j := |raw| - 1;
      KeptOptionsOrdered(raw[..j]);
      KeptOptionsSound(raw[..j]);
      var front := KeptOptions(raw[..j]);
      var r := KeptOptions(raw);
      assert r == front + (if IsBlank(raw[j]) then [] else [OptionDraft(Strip(raw[j]), j + 1)]);
      forall k, l | 0 <= k < l < |r| ensures r[k].order < r[l].order {
        assert r[k] == front[k] && front[k].order <= j;
        if l < |front| {
          assert r[l] == front[l];
        }
      }
    }
  }

  /** No non-blank entry is dropped. */
  lemma {:induction false} KeptOptionsComplete(raw: seq<string>, j: nat)
    requires j < |raw| && !IsBlank(raw[j])
    ensures exists k :: 0 <= k < |KeptOptions(raw)| && KeptOptions(raw)[k] == OptionDraft(Strip(raw[j]), j + 1)
  {
    var n := |raw| - 1;
    var front := KeptOptions(raw[..n]);
    var r := KeptOptions(raw);
    if j == n {
      assert r[|r| - 1] == OptionDraft(Strip(raw[j]), j + 1);
    } else {
      assert raw[..n][j] == raw[j];
      KeptOptionsComplete(raw[..n], j);
      var k :| 0 <= k < |front| && front[k] == OptionDraft(Strip(raw[j]), j + 1);
      assert r[k] == front[k];
    }
  }

  /** The draft of the question at index `i` of the form, when it is kept:
      its text unstripped, its 1-based position as `order`, and the kept
      options of a single or multiple choice question. */
  function DraftAt(form: SurveyForm, i: nat): QuestionDraft
    requires i < PairCount(form)
  {
    var qtype := form.types[i];
    QuestionDraft(form.questions[i], qtype, i + 1, if IsChoice(qtype) then KeptOptions(OptionsAt(form, i)) else [])
  }

  /** The question drafts `create_survey` makes from the first `n` pairs of
      `zip(questions, question_types)`: a blank question is skipped, a kept
      one keeps its text unstripped and its 1-based position as `order`,
      and only a single or multiple choice question gets options. */
  function CreatePlanUpTo(form: SurveyForm, n: nat): seq<QuestionDraft>
    requires n <= PairCount(form)
  {
    if n == 0 then []
    else CreatePlanUpTo(form, n - 1) + (if IsBlank(form.questions[n - 1]) then [] else [DraftAt(form, n - 1)])
  }

  /** Every draft is the draft of a non-blank question of the form, at the
      position its order names. */
  lemma {:induction false} CreatePlanSound(form: SurveyForm, n: nat)
    requires n <= PairCount(form)
    ensures forall k :: 0 <= k < |CreatePlanUpTo(form, n)| ==>
      var d := CreatePlanUpTo(form, n)[k];
      1 <= d.order <= n && !IsBlank(form.questions[d.order - 1]) && d == DraftAt(form, d.order - 1)
  {
    if n > 0 {
      var i := n - 1;
      CreatePlanSound(form, i);
      var front := CreatePlanUpTo(form, i);
      var r := CreatePlanUpTo(form, n);
      assert r == front + (if IsBlank(form.questions[i]) then [] else [DraftAt(form, i)]);
      forall k | 0 <= k < |r|
        ensures 1 <= r[k].order <= n && !IsBlank(form.questions[r[k].order - 1])
        ensures r[k] == DraftAt(form, r[k].order - 1)
      {
        if k < |front| {
          assert r[k] == front[k];
        } else {
          assert r[k] == DraftAt(form, i);
        }
      }
    }
  }

  /** The drafts' orders strictly increase. */
  lemma {:induction false} CreatePlanOrdered(form: SurveyForm, n: nat)
    requires n <= PairCount(form)
    ensures forall k, l :: 0 <= k < l < |CreatePlanUpTo(form, n)| ==>
      CreatePlanUpTo(form, n)[k].order < CreatePlanUpTo(form, n)[l].order
  {
    if n > 0 {
      var i := n - 1;
      CreatePlanOrdered(form, i);
      CreatePlanSound(form, i);
      var front := CreatePlanUpTo(form, i);
      var r := CreatePlanUpTo(form, n);
      assert r == front + (if IsBlank(form.questions[i]) then [] else [DraftAt(form, i)]);
      forall k, l | 0 <= k < l < |r| ensures r[k].order < r[l].order {
        assert r[k] == front[k] && front[k].order <= i;
        if l < |front| {
          assert r[l] == front[l];
        } else {
          assert r[l].order == n;
        }
      }
    }
  }

  /** No non-blank question is dropped. */
  lemma {:induction false} CreatePlanComplete(form: SurveyForm, n: nat, i: nat)
    requires n <= PairCount(form)
    requires i < n && !IsBlank(form.questions[i])
    ensures exists k :: 0 <= k < |CreatePlanUpTo(form, n)| && CreatePlanUpTo(form, n)[k] == DraftAt(form, i)
  {
    var front := CreatePlanUpTo(form, n - 1);
    var r := CreatePlanUpTo(form, n);
    if i == n - 1 {
      assert r[|r| - 1] == DraftAt(form, i);
    } else {
      CreatePlanComplete(form, n - 1, i);
      var k :| 0 <= k < |front| && front[k] == DraftAt(form, i);
      assert r[k] == front[k];
    }
  }

  function CreatePlan(form: SurveyForm): seq<QuestionDraft>
  {
    CreatePlanUpTo(form, PairCount(form))
  }

  /** The loops of `create_survey` that turn the form into question rows
      with their option rows, numbering the new rows from `next`. */
  /** The inner loop of `create_survey`: the option rows of one choice
      question, numbered from `next`. */
  method BuildOptions(raw: seq<string>, next: nat) returns (opts: seq<OptionRow>, last: nat)
    ensures OptionOutline(opts) == KeptOptions(raw)
    ensures Consecutive(OptionIds(opts), next, last)
  {
    opts, last := [], next;
    var j := 0;
    while j < |raw|
      invariant j <= |raw|
      invariant OptionOutline(opts) == KeptOptions(raw[..j])
      invariant Consecutive(OptionIds(opts), next, last)
    {
      assert raw[..j + 1][..j] == raw[..j];
      if !IsBlank(raw[j]) {
        var o := OptionRow(last, Strip(raw[j]), j + 1);
        OptionOutlineSnoc(opts, o);
        ConsecutiveSnoc(OptionIds(opts), next, last);
        opts := opts + [o];
        last := last + 1;
      }
      j := j + 1;
    }
    assert raw[..j] == raw;
  }

  /** The row of a kept question at index `i`, keyed `qid`, with its
      option rows keyed after it. */
  method NewQuestion(form: SurveyForm, i: nat, qid: nat) returns (q: Question, last: nat)
    requires i < PairCount(form)
    ensures q.id == qid
    ensures QuestionDraft(q.text, q.qtype, q.order, OptionOutline(q.options)) == DraftAt(form, i)
    ensures Consecutive(OptionIds(q.options), qid + 1, last)
  {
    var opts: seq<OptionRow> := [];
    last := qid + 1;
    if IsChoice(form.types[i]) {
      opts, last := BuildOptions(OptionsAt(form, i), last);
    }
    q := Question(qid, form.questions[i], form.types[i], i + 1, opts);
  }

  /** One round of the question loop of `create_survey`: a non-blank
      question at index `i` gets the next key, then its option rows. */
  method AddQuestion(form: SurveyForm, i: nat, qs: seq<Question>, next: nat, last: nat)
    returns (qs': seq<Question>, last': nat)
    requires i < PairCount(form)
    requires Consecutive(RowIds(qs), next, last)
    ensures Outline(qs') == Outline(qs) + (if IsBlank(form.questions[i]) then [] else [DraftAt(form, i)])
    ensures Consecutive(RowIds(qs'), next, last')
  {
    if IsBlank(form.questions[i]) {
      return qs, last;
    }
    var q;
    q, last' := NewQuestion(form, i, last);
    OutlineSnoc(qs, q);
    ConsecutiveSnoc(RowIds(qs), next, last);
    ConsecutiveAppend(RowIds(qs) + [last], OptionIds(q.options), next, last + 1, last');
    qs' := qs + [q];
  }

  /** The question loop of `create_survey`: the question rows, each with its
      option rows, numbered from `next`. */
  method BuildQuestions(form: SurveyForm, next: nat) returns (qs: seq<Question>, last: nat)
    ensures Outline(qs) == CreatePlan(form)
    ensures Consecutive(RowIds(qs), next, last)
  {
    qs, last := [], next;
    var n := PairCount(form);
    var i := 0;
    while i < n
      invariant i <= n
      invariant Outline(qs) == CreatePlanUpTo(form, i)
      invariant Consecutive(RowIds(qs), next, last)
    {
      qs, last := AddQuestion(form, i, qs, next, last);
      i := i + 1;
    }
  }

  // ---------------------------------------------------------------------
  // edit_survey: the forked copy

  /** The options `edit_survey` copies into a new version: every submitted
      entry, blank or not, stripped, with its 1-based position as `order`. */
  function CopiedOptions(raw: seq<string>): (r: seq<OptionDraft>)
    ensures |r| == |raw|
    ensures forall k :: 0 <= k < |raw| ==> r[k] == OptionDraft(Strip(raw[k]), k + 1)
  {
    if raw == [] then []
    else CopiedOptions(raw[..|raw| - 1]) + [OptionDraft(Strip(raw[|raw| - 1]), |raw|)]
  }

  /** The draft of the question at index `i` in a forked version. */
  function CopyDraftAt(form: SurveyForm, i: nat): QuestionDraft
    requires i < PairCount(form)
  {
    QuestionDraft(form.questions[i], form.types[i], i + 1,
                  if IsChoice(form.types[i]) then CopiedOptions(OptionsAt(form, i)) else [])
  }

  /** The question drafts of a forked version, from the first `n` pairs of
      `zip(questions, question_types)`: nothing is skipped, question `i`
      gets `order` i + 1, and only choice questions get options. */
  function CopyPlanUpTo(form: SurveyForm, n: nat): (r: seq<QuestionDraft>)
    requires n <= PairCount(form)
    ensures |r| == n
    ensures forall i :: 0 <= i < n ==>
      r[i] == QuestionDraft(form.questions[i], form.types[i], i + 1,
                            if IsChoice(form.types[i]) then CopiedOptions(OptionsAt(form, i)) else [])
  {
    if n == 0 then [] else CopyPlanUpTo(form, n - 1) + [CopyDraftAt(form, n - 1)]
  }

  function CopyPlan(form: SurveyForm): seq<QuestionDraft>
  {
    CopyPlanUpTo(form, PairCount(form))
  }

  /** The inner loop of the fork in `edit_survey`: the option rows of one
      choice question, numbered from `next`. */
  method CopyOptions(raw: seq<string>, next: nat) returns (opts: seq<OptionRow>, last: nat)
    ensures OptionOutline(opts) == CopiedOptions(raw)
    ensures Consecutive(OptionIds(opts), next, last)
  {
    opts, last := [], next;
    var j := 0;
    while j < |raw|
      invariant j <= |raw|
      invariant OptionOutline(opts) == CopiedOptions(raw[..j])
      invariant Consecutive(OptionIds(opts), next, last)
    {
      assert raw[..j + 1][..j] == raw[..j];
      var o := OptionRow(last, Strip(raw[j]), j + 1);
      OptionOutlineSnoc(opts, o);
      ConsecutiveSnoc(OptionIds(opts), next, last);
      opts := opts + [o];
      last := last + 1;
      j := j + 1;
    }
    assert raw[..j] == raw;
  }

  /** The question loop of the fork in `edit_survey`: the rows of the new
      version's questions, each with its option rows, numbered from `next`. */
  method CopyQuestions(form: SurveyForm, next: nat) returns (qs: seq<Question>, last: nat)
    ensures Outline(qs) == CopyPlan(form)
    ensures Consecutive(RowIds(qs), next, last)
  {
    qs, last := [], next;
    var n := PairCount(form);
    var i := 0;
    while i < n
      invariant i <= n
      invariant Outline(qs) == CopyPlanUpTo(form, i)
      invariant Consecutive(RowIds(qs), next, last)
    {
      qs, last := CopyQuestion(form, i, qs, next, last);
      i := i + 1;
    }
  }

  /** The copy of question `i`, keyed `qid`, with its option rows keyed
      after it. */
  method CopiedQuestion(form: SurveyForm, i: nat, qid: nat) returns (q: Question, last: nat)
    requires i < PairCount(form)
    ensures q.id == qid
    ensures QuestionDraft(q.text, q.qtype, q.order, OptionOutline(q.options)) == CopyDraftAt(form, i)
    ensures Consecutive(OptionIds(q.options), qid + 1, last)
  {
    var opts: seq<OptionRow> := [];
    last := qid + 1;
    if IsChoice(form.types[i]) {
      opts, last := CopyOptions(OptionsAt(form, i), last);
    }
    q := Question(qid, form.questions[i], form.types[i], i + 1, opts);
  }

  /** One round of the question loop of the fork: question `i` gets the next
      key, then its option rows. */
  method CopyQuestion(form: SurveyForm, i: nat, qs: seq<Question>, next: nat, last: nat)
    returns (qs': seq<Question>, last': nat)
    requires i < PairCount(form)
    requires Consecutive(RowIds(qs), next, last)
    ensures Outline(qs') == Outline(qs) + [CopyDraftAt(form, i)]
    ensures Consecutive(RowIds(qs'), next, last')
  {
    var q;
    q, last' := CopiedQuestion(form, i, last);
    OutlineSnoc(qs, q);
    ConsecutiveSnoc(RowIds(qs), next, last);
    ConsecutiveAppend(RowIds(qs) + [last], OptionIds(q.options), next, last + 1, last');
    qs' := qs + [q];
  }

  // ---------------------------------------------------------------------
  // edit_survey: change detection

  function QuestionOrder(q: Question): int { q.order }
  function OptionOrder(o: OptionRow): int { o.order }

  function OptionTexts(os: seq<OptionRow>): (r: seq<string>)
    ensures |r| == |os|
    ensures forall k :: 0 <= k < |os| ==> r[k] == os[k].text
  {
    if os == [] then [] else OptionTexts(os[..|os| - 1]) + [os[|os| - 1].text]
  }

  /** The stored option texts of a question, sorted by `order`. */
  function StoredOptionTexts(q: Question): seq<string>
  {
    OptionTexts(SortBy(q.options, OptionOrder))
  }

  /** The submitted question at index `i` matches the stored one paired with
      it: same text, same type, and for a choice question the same option
      texts in the same order. */
  predicate QuestionKept(orig: Question, form: SurveyForm, i: nat)
    requires i < PairCount(form)
  {
    orig.text == form.questions[i] && orig.qtype == form.types[i]
    && (IsChoice(form.types[i]) ==> StoredOptionTexts(orig) == OptionsAt(form, i))
  }

  /** An edit that changes nothing but the `is_active` flag: same title, same
      number of questions, and every pair of `zip(sorted questions,
      questions, question_types)` kept. */
  predicate SameContent(s: Survey, form: SurveyForm)
  {
    form.title == Some(s.title) && |form.questions| == |s.questions|
    && var sorted := SortBy(s.questions, QuestionOrder);
    forall i :: 0 <= i < PairCount(form) ==> QuestionKept(sorted[i], form, i)
  }

  /** One round of the `has_changes` loop: the stored question `orig`
      against the submitted question at index `i`, text and type first,
      then the option texts of a choice question. */
  method QuestionChanged(orig: Question, form: SurveyForm, i: nat) returns (differs: bool)
    requires i < PairCount(form)
    ensures differs <==> !QuestionKept(orig, form, i)
  {
    if orig.text != form.questions[i] || orig.qtype != form.types[i] {
      return true;
    }
    if !IsChoice(form.types[i]) {
      return false;
    }
    var submitted := OptionsAt(form, i);
    var stored := StoredOptionTexts(orig);
    if |submitted| != |stored| {
      return true;
    }
    differs := false;
    var j := 0;
    while j < |stored|
      invariant j <= |stored|
      invariant forall k :: 0 <= k < j ==> stored[k] == submitted[k]
    {
      if stored[j] != submitted[j] {
        return true;
      }
      j := j + 1;
    }
    assert stored == submitted;
  }

  /** The `has_changes` loop of `edit_survey`, with its early exits. */
  method DetectChanges(s: Survey, form: SurveyForm) returns (changed: bool)
    ensures changed <==> !SameContent(s, form)
  {
    changed := form.title != Some(s.title);
    if |form.questions| != |s.questions| {
      return true;
    }
    var sorted := SortBy(s.questions, QuestionOrder);
    var n := PairCount(form);
    var i := 0;
    while i < n
      invariant i <= n
      invariant changed <==> form.title != Some(s.title)
      invariant forall k :: 0 <= k < i ==> QuestionKept(sorted[k], form, k)
    {
      var differs := QuestionChanged(sorted[i], form, i);
      if differs {
        return true;
      }
      if changed {
        break;
      }
      i := i + 1;
    }
  }

  // ---------------------------------------------------------------------
  // edit_survey: the version title

  /** How many surveys, of any teacher, have a title of the form
      `{base} - 第…版` (the `LIKE` count). */
  function VersionCount(surveys: seq<Survey>, base: string): (n: nat)
    ensures n <= |surveys|
  {
    if surveys == [] then 0
    else VersionCount(surveys[..|surveys| - 1], base)
         + (if IsVersionOf(surveys[|surveys| - 1].title, base) then 1 else 0)
  }

  /** The title `edit_survey` gives the version it forks from `original`. */
  function ForkTitle(surveys: seq<Survey>, original: Survey): string
  {
    var base := BaseTitle(original.title);
    VersionTitle(base, VersionCount(surveys, base))
  }

  /** A forked title is `{base} - 第{n + 1}版` where `base` is the original's
      title up to its first " - " (so it holds no " - ") and `n` counts the
      existing versions of that base. */
  lemma ForkTitleShape(surveys: seq<Survey>, original: Survey)
    ensures var base := BaseTitle(original.title);
      ForkTitle(surveys, original) == base + " - 第" + NatToString(VersionCount(surveys, base) + 1) + "版"
      && !HasSep(base) && original.title[..|base|] == base
      && IsVersionOf(ForkTitle(surveys, original), base)
  {
    VersionTitleInFamily(BaseTitle(original.title), VersionCount(surveys, BaseTitle(original.title)));
  }

  /** Each fork joins its own family, so the next fork from the same base is
      numbered one higher. */
  lemma {:induction false} ForkNumbersAdvance(surveys: seq<Survey>, original: Survey, fork: Survey)
    requires fork.title == ForkTitle(surveys, original)
    ensures var base := BaseTitle(original.title);
      VersionCount(surveys + [fork], base) == VersionCount(surveys, base) + 1
  {
    var base := BaseTitle(original.title);
    VersionTitleInFamily(base, VersionCount(surveys, base));
    assert (surveys + [fork])[..|surveys|] == surveys;
  }

  /** "Quiz" has no separator and is no version of itself. */
  lemma QuizIsItsOwnBase()
    ensures BaseTitle("Quiz") == "Quiz" && !IsVersionOf("Quiz", "Quiz")
  {
    forall k: nat | k < 4 ensures !SepAt("Quiz", k) {
      assert "Quiz"[k] != ' ';
      if k + 3 <= 4 { assert "Quiz"[k..k + 3][0] == "Quiz"[k]; }
    }
    assert BaseTitle("Quiz") == "Quiz";
    assert !IsVersionOf("Quiz", "Quiz");
  }

  /** Version titles are not unique: once a version has been deleted, the
      count falls behind and a fork can take the title of a surviving
      version. Here "Quiz - 第1版" is gone and "Quiz - 第2版" remains. */
  lemma ForkTitleCanRepeat()
    ensures var quiz := Survey(1, "Quiz", 7, true, None, []);
      var second := Survey(3, "Quiz - 第2版", 7, true, None, []);
      ForkTitle([quiz, second], quiz) == second.title
  {
    var quiz := Survey(1, "Quiz", 7, true, None, []);
    var second := Survey(3, "Quiz - 第2版", 7, true, None, []);
    QuizIsItsOwnBase();
    assert IsVersionOf(second.title, "Quiz") by {
      assert second.title == "Quiz - 第" + "2版";
    }
    assert [quiz, second][..1] == [quiz];
    assert VersionCount([quiz, second], "Quiz") == 1;
    assert NatToString(2) == "2";
  }

  /** The `LIKE` count ignores the case of ASCII letters: beside "Quiz",
      a survey titled "QUIZ - 第1版" counts as its first version, so the
      next fork of "Quiz" is its second. */
  lemma ForkTitleFoldsCase()
    ensures var quiz := Survey(1, "Quiz", 7, true, None, []);
      var upper := Survey(2, "QUIZ - 第1版", 7, true, None, []);
      ForkTitle([quiz, upper], quiz) == "Quiz - 第2版"
  {
    var quiz := Survey(1, "Quiz", 7, true, None, []);
    var upper := Survey(2, "QUIZ - 第1版", 7, true, None, []);
    QuizIsItsOwnBase();
    var prefix := "Quiz" + SEP + "第";
    assert IsVersionOf(upper.title, "Quiz") by {
      assert upper.title[..|prefix|] == "QUIZ - 第";
      forall i | 0 <= i < |prefix| ensures AsciiLower(upper.title[..|prefix|][i]) == AsciiLower(prefix[i]) {
      }
    }
    assert [quiz, upper][..1] == [quiz];
    assert VersionCount([quiz, upper], "Quiz") == 1;
    assert NatToString(2) == "2";
  }

  // ---------------------------------------------------------------------
  // Round trip: re-submitting a fork's own content is not a change

  lemma CopiedOptionsSorted(os: seq<OptionRow>, raw: seq<string>)
    requires OptionOutline(os) == CopiedOptions(raw)
    ensures SortBy(os, OptionOrder) == os
  {
    assert SortedBy(os, OptionOrder) by {
      forall i, j | 0 <= i < j < |os| ensures OptionOrder(os[i]) <= OptionOrder(os[j]) {
        OptionOutlineAt(os, i);
        OptionOutlineAt(os, j);
      }
    }
    SortByIdentity(os, OptionOrder);
  }

  /** A version forked from `form`, edited again with the same questions and
      options (already stripped) under its own title, is not a structural
      edit: `edit_survey` only updates its `is_active` flag. */
  lemma ResubmittingForkIsNotStructural(fork: Survey, form: SurveyForm)
    requires Outline(fork.questions) == CopyPlan(form)
    requires |form.questions| == |form.types|
    requires form.title == Some(fork.title)
    requires forall i, k :: 0 <= i < |form.questions| && i in form.options && 0 <= k < |form.options[i]| ==>
      Strip(form.options[i][k]) == form.options[i][k]
    ensures SameContent(fork, form)
  {
    var qs := fork.questions;
    var n := PairCount(form);
    assert |qs| == n;
    assert SortedBy(qs, QuestionOrder) by {
      forall i, j | 0 <= i < j < |qs| ensures QuestionOrder(qs[i]) <= QuestionOrder(qs[j]) {
        OutlineAt(qs, i);
        OutlineAt(qs, j);
      }
    }
    SortByIdentity(qs, QuestionOrder);
    forall i | 0 <= i < n ensures QuestionKept(qs[i], form, i) {
      OutlineAt(qs, i);
      assert Outline(qs)[i] == CopyPlan(form)[i];
      if IsChoice(form.types[i]) {
        var raw := OptionsAt(form, i);
        assert OptionOutline(qs[i].options) == CopiedOptions(raw);
        CopiedOptionsSorted(qs[i].options, raw);
        var texts := StoredOptionTexts(qs[i]);
        assert |texts| == |raw|;
        forall k | 0 <= k < |raw| ensures texts[k] == raw[k] {
          OptionOutlineAt(qs[i].options, k);
          assert OptionOutline(qs[i].options)[k] == CopiedOptions(raw)[k];
        }
      }
    }
  }
}
