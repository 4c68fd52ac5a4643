/** Survey access codes: `Survey.generate_code` (database.py), which draws
    random 8-character codes until it finds one no survey uses, and
    `access_survey` (app.py), which resolves a code to the survey a student
    is sent to. */
module Codes {

  import opened Records

  /** `string.ascii_letters + string.digits`. */
  const ALPHABET: string := "abcdefghijklmnopqrstuvwxyzABCDEFGHIJKLMNOPQRSTUVWXYZ0123456789"

  const CODE_LENGTH: nat := 8

  /** What `random.choices(ALPHABET, k=8)` can produce. */
  predicate IsCodeShape(code: string)
  {
    |code| == CODE_LENGTH && forall i :: 0 <= i < |code| ==> code[i] in ALPHABET
  }

  /** `Survey.query.filter_by(code=code).first()` finds a survey. */
  predicate CodeInUse(surveys: seq<Survey>, code: string)
  {
    exists k :: 0 <= k < |surveys| && surveys[k].code == Some(code)
  }

  /** No two surveys share a code (the `unique=True` column); surveys
      without a code are not constrained. */
  predicate CodesUnique(surveys: seq<Survey>)
  {
    forall i, j :: 0 <= i < j < |surveys| && surveys[i].code.Some? ==> surveys[i].code != surveys[j].code
  }

  /** Draw `n` is the first draw of the stream that no survey uses. */
  predicate FirstFreeAt(surveys: seq<Survey>, draws: seq<string>, n: nat)
  {
    n < |draws| && !CodeInUse(surveys, draws[n]) && forall k :: 0 <= k < n ==> CodeInUse(surveys, draws[k])
  }

  /** The retry loop of `generate_code`. `draws` stands for the successive
      results of `random.choices`; the result is the first draw no survey
      uses, or `None` when every draw of the stream is taken (the source
      would go on drawing). */
  method DrawFreshCode(surveys: seq<Survey>, draws: seq<string>) returns (r: Option<string>)
    requires forall k :: 0 <= k < |draws| ==> IsCodeShape(draws[k])
    ensures r.Some? ==> IsCodeShape(r.value) && !CodeInUse(surveys, r.value)
    ensures r.Some? ==> exists n: nat :: FirstFreeAt(surveys, draws, n) && draws[n] == r.value
    ensures r.None? <==> forall k :: 0 <= k < |draws| ==> CodeInUse(surveys, draws[k])
  {
    var n := 0;
    while n < |draws|
      invariant n <= |draws|
      invariant forall k :: 0 <= k < n ==> CodeInUse(surveys, draws[k])
    {
      var code := draws[n];
      var inUse := false;
      var k := 0;
      while k < |surveys|
        invariant k <= |surveys|
        invariant inUse <==> exists i :: 0 <= i < k && surveys[i].code == Some(code)
      {
        if surveys[k].code == Some(code) {
          inUse := true;
        }
        k := k + 1;
      }
      if !inUse {
        return Some(code);
      }
      n := n + 1;
    }
    return None;
  }

  /** Giving a survey that has no code yet a code nobody uses keeps codes
      unique. */
  lemma AssignKeepsCodesUnique(surveys: seq<Survey>, i: nat, code: string)
    requires CodesUnique(surveys)
    requires i < |surveys| && surveys[i].code.None?
    requires !CodeInUse(surveys, code)
    ensures CodesUnique(surveys[i := surveys[i].(code := Some(code))])
  {
    var after := surveys[i := surveys[i].(code := Some(code))];
    forall x, y | 0 <= x < y < |after| && after[x].code.Some? ensures after[x].code != after[y].code {
      if x == i {
        assert surveys[y].code != Some(code);
      } else if y == i {
        assert surveys[x].code != Some(code);
      }
    }
  }

  /** Index of the first survey with the given code (`first_or_404`). */
  function FindByCode(surveys: seq<Survey>, code: string): (r: Option<nat>)
    ensures r.Some? ==> r.value < |surveys| && surveys[r.value].code == Some(code)
    ensures r.Some? ==> forall k :: 0 <= k < r.value ==> surveys[k].code != Some(code)
    ensures r.None? <==> !CodeInUse(surveys, code)
  {
    if |surveys| == 0 then None
    else if surveys[0].code == Some(code) then Some(0)
    else match FindByCode(surveys[1..], code)
      case None => None
      case Some(k) => Some(k + 1)
  }

  /** With unique codes, a code in use finds exactly its own survey. */
  lemma FindByUniqueCode(surveys: seq<Survey>, k: nat, code: string)
    requires CodesUnique(surveys)
    requires k < |surveys| && surveys[k].code == Some(code)
    ensures FindByCode(surveys, code) == Some(k)
  {
    var r := FindByCode(surveys, code);
    assert r.Some? && r.value <= k;
  }

  /** Where `access_survey` sends the visitor. */
  datatype AccessDecision =
    | NotFound
    | Closed
    | LoginFirst(next: string)
    | StudentsOnly
    | Take(surveyId: nat)

  /** `url_for('access_survey', survey_code=code)`. */
  function AccessPath(code: string): string
  {
    "/survey/" + code
  }

  /** `access_survey`: 404 for an unknown code, then a closed survey, then a
      visitor who must sign in first (remembering where to come back to),
      then a teacher, who may not answer; only a signed-in student is sent
      to `take_survey`. */
  function AccessSurvey(surveys: seq<Survey>, session: Session, code: string): (r: AccessDecision)
    ensures r == NotFound <==> !CodeInUse(surveys, code)
    ensures r == Closed <==> CodeInUse(surveys, code) && !surveys[FindByCode(surveys, code).value].isActive
    ensures r.LoginFirst? <==>
      CodeInUse(surveys, code) && surveys[FindByCode(surveys, code).value].isActive && session.Anonymous?
    ensures r.LoginFirst? ==> r.next == AccessPath(code)
    ensures r == StudentsOnly <==>
      CodeInUse(surveys, code) && surveys[FindByCode(surveys, code).value].isActive
      && session.SignedIn? && session.role != STUDENT
    ensures r.Take? <==>
      CodeInUse(surveys, code) && surveys[FindByCode(surveys, code).value].isActive
      && session.SignedIn? && session.role == STUDENT
    ensures r.Take? ==> r.surveyId == surveys[FindByCode(surveys, code).value].id
  {
    match FindByCode(surveys, code)
    case None => NotFound
    case Some(k) =>
      if !surveys[k].isActive then Closed
      else if session.Anonymous? then LoginFirst(AccessPath(code))
      else if session.role != STUDENT then StudentsOnly
      else Take(surveys[k].id)
  }

  /** With unique codes, a student who opens an active survey's code is sent
      to that very survey. */
  lemma StudentReachesOwnSurvey(surveys: seq<Survey>, k: nat, code: string, user: nat)
    requires CodesUnique(surveys)
    requires k < |surveys| && surveys[k].code == Some(code) && surveys[k].isActive
    ensures AccessSurvey(surveys, SignedIn(user, STUDENT), code) == Take(surveys[k].id)
  {
    FindByUniqueCode(surveys, k, code);
  }
}
