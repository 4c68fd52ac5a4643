/** The validation rules of `register` and of the student `profile` page
    (app.py), as functions from the user table and the submitted form to the
    row to store or the reason for refusing. */
module Accounts {

  import opened Records
  import opened Text

  /** The fixed invite code a teacher must give to register. */
  const INVITE_CODE: string := "123456"

  /** Python truthiness of an optional form field: present and not "". */
  predicate Given(field: Option<string>)
  {
    field.Some? && field.value != ""
  }

  predicate UsernameTaken(users: seq<User>, name: string)
  {
    exists k :: 0 <= k < |users| && users[k].username == name
  }

  predicate StudentNumberTaken(users: seq<User>, number: string)
  {
    exists k :: 0 <= k < |users| && users[k].studentId == Some(number)
  }

  /** Usernames are unique, and so are the student numbers that are set
      (the `unique=True` columns of `User`). */
  predicate UniqueAccounts(users: seq<User>)
  {
    (forall i, j :: 0 <= i < j < |users| ==> users[i].username != users[j].username)
    && (forall i, j :: 0 <= i < j < |users| && users[i].studentId.Some? ==>
          users[i].studentId != users[j].studentId)
  }

  datatype RegisterForm = RegisterForm(
    username: string,
    role: string,
    inviteCode: string,
    studentId: Option<string>,
    realName: Option<string>)

  datatype RegisterError =
    | WrongInviteCode
    | DuplicateUsername
    | BadStudentNumber
    | MissingRealName
    | DuplicateStudentNumber

  /** `register`: the checks in the order the handler makes them; on success,
      the row to insert with primary key `id` and the already hashed password.
      A role other than "student" (a teacher, or any other string) gets no
      student number and no real name. */
  function Register(users: seq<User>, form: RegisterForm, id: nat, passwordHash: string)
    : (r: Result<User, RegisterError>)
    ensures r.Ok? <==>
      (form.role == TEACHER ==> form.inviteCode == INVITE_CODE)
      && !UsernameTaken(users, form.username)
      && (form.role == STUDENT ==>
            IsStudentNumber(form.studentId) && Given(form.realName)
            && !StudentNumberTaken(users, form.studentId.value))
    ensures r == Err(WrongInviteCode) <==> form.role == TEACHER && form.inviteCode != INVITE_CODE
    ensures r == Err(DuplicateUsername) <==>
      (form.role == TEACHER ==> form.inviteCode == INVITE_CODE) && UsernameTaken(users, form.username)
    ensures r.Err? && r.error in {BadStudentNumber, MissingRealName, DuplicateStudentNumber} ==>
      form.role == STUDENT
    // The student checks, in the handler's order: number, name, number taken.
    ensures r == Err(BadStudentNumber) <==>
      form.role == STUDENT && !UsernameTaken(users, form.username) && !IsStudentNumber(form.studentId)
    ensures r == Err(MissingRealName) <==>
      form.role == STUDENT && !UsernameTaken(users, form.username) && IsStudentNumber(form.studentId)
      && !Given(form.realName)
    ensures r == Err(DuplicateStudentNumber) <==>
      form.role == STUDENT && !UsernameTaken(users, form.username) && IsStudentNumber(form.studentId)
      && Given(form.realName) && StudentNumberTaken(users, form.studentId.value)
    ensures r.Ok? ==>
      r.value.id == id && r.value.username == form.username && r.value.role == form.role
      && r.value.passwordHash == passwordHash
      && (form.role == STUDENT ==> r.value.studentId == form.studentId && r.value.realName == form.realName)
      && (form.role != STUDENT ==> r.value.studentId.None? && r.value.realName.None?)
  {
    if form.role == TEACHER && form.inviteCode != INVITE_CODE then Err(WrongInviteCode)
    else if UsernameTaken(users, form.username) then Err(DuplicateUsername)
    else if form.role == STUDENT then
      if !IsStudentNumber(form.studentId) then Err(BadStudentNumber)
      else if !Given(form.realName) then Err(MissingRealName)
      else if StudentNumberTaken(users, form.studentId.value) then Err(DuplicateStudentNumber)
      else Ok(User(id, form.username, passwordHash, form.role, form.studentId, form.realName))
    else Ok(User(id, form.username, passwordHash, form.role, None, None))
  }

  /** Registration never breaks the uniqueness of usernames and student
      numbers. */
  lemma RegisterKeepsAccountsUnique(users: seq<User>, form: RegisterForm, id: nat, passwordHash: string)
    requires UniqueAccounts(users)
    requires Register(users, form, id, passwordHash).Ok?
    ensures UniqueAccounts(users + [Register(users, form, id, passwordHash).value])
  {
    var u := Register(users, form, id, passwordHash).value;
    var all := users + [u];
    forall i, j | 0 <= i < j < |all| ensures all[i].username != all[j].username {
      if j == |users| {
        assert all[i] == users[i];
      }
    }
    forall i, j | 0 <= i < j < |all| && all[i].studentId.Some?
      ensures all[i].studentId != all[j].studentId
    {
      if j == |users| {
        assert all[i] == users[i];
        if u.studentId.Some? {
          assert users[i].studentId != Some(u.studentId.value);
        }
      }
    }
  }

  datatype ProfileForm = ProfileForm(
    editType: Option<string>,
    newValue: Option<string>,
    password: Option<string>,
    newPassword: Option<string>)

  datatype ProfileError =
    | UsernameInUse
    | PasswordRequired
    | PasswordMismatch
    | BadNumber
    | NumberInUse

  const EDIT_USERNAME: string := "username"
  const EDIT_PASSWORD: string := "password"
  const EDIT_STUDENT_ID: string := "student_id"
  const EDIT_REAL_NAME: string := "real_name"

  predicate UsernameTakenByOther(users: seq<User>, me: nat, name: string)
  {
    exists k :: 0 <= k < |users| && users[k].id != me && users[k].username == name
  }

  predicate NumberTakenByOther(users: seq<User>, me: nat, number: string)
  {
    exists k :: 0 <= k < |users| && users[k].id != me && users[k].studentId == Some(number)
  }

  /** The password guard: every edit except a username change needs the
      current password, and a password that is given must match.
      `passwordMatches` stands for `check_password_hash`. */
  function PasswordGuard(form: ProfileForm, passwordMatches: bool): (r: Option<ProfileError>)
    ensures r == None <==>
      (Given(form.password) || form.editType == Some(EDIT_USERNAME))
      && (Given(form.password) ==> passwordMatches)
    ensures r == Some(PasswordRequired) <==> !Given(form.password) && form.editType != Some(EDIT_USERNAME)
    ensures r == Some(PasswordMismatch) <==> Given(form.password) && !passwordMatches
  {
    if !Given(form.password) && form.editType != Some(EDIT_USERNAME) then Some(PasswordRequired)
    else if Given(form.password) && !passwordMatches then Some(PasswordMismatch)
    else None
  }

  /** `profile` (POST): the user row after the edit, or why it was refused.
      A username change with a non-empty value needs no password; with an
      empty value it falls through to the password guard and then changes
      nothing. `newPasswordHash` stands for `generate_password_hash`. */
  function EditProfile(users: seq<User>, me: User, form: ProfileForm, passwordMatches: bool,
                       newPasswordHash: string): (r: Result<User, ProfileError>)
    ensures r.Ok? ==> r.value.id == me.id && r.value.role == me.role
    ensures r.Ok? && r.value.username != me.username ==>
      form.editType == Some(EDIT_USERNAME) && Some(r.value.username) == form.newValue
      && r.value == me.(username := r.value.username)
    ensures r.Ok? && r.value.studentId != me.studentId ==>
      form.editType == Some(EDIT_STUDENT_ID) && r.value.studentId == form.newValue
      && IsStudentNumber(form.newValue) && r.value == me.(studentId := form.newValue)
    ensures r.Ok? && r.value.realName != me.realName ==>
      form.editType == Some(EDIT_REAL_NAME) && Given(form.newValue)
      && r.value == me.(realName := form.newValue)
    ensures r.Ok? && r.value.passwordHash != me.passwordHash ==>
      form.editType == Some(EDIT_PASSWORD) && r.value == me.(passwordHash := newPasswordHash)
    ensures form.editType == Some(EDIT_USERNAME) && Given(form.newValue) ==>
      (r.Ok? <==> !UsernameTakenByOther(users, me.id, form.newValue.value))
    ensures form.editType != Some(EDIT_USERNAME) || !Given(form.newValue) ==>
      (PasswordGuard(form, passwordMatches).Some? ==> r == Err(PasswordGuard(form, passwordMatches).value))
    ensures form.editType == Some(EDIT_STUDENT_ID) && Given(form.newValue) && PasswordGuard(form, passwordMatches).None? ==>
      (r.Ok? <==> IsStudentNumber(form.newValue) && !NumberTakenByOther(users, me.id, form.newValue.value))
    // What an accepted edit writes, edit type by edit type.
    ensures form.editType == Some(EDIT_USERNAME) && Given(form.newValue) ==>
      (r.Ok? ==> r.value == me.(username := form.newValue.value)) && (r.Err? ==> r.error == UsernameInUse)
    ensures form.editType == Some(EDIT_PASSWORD) && PasswordGuard(form, passwordMatches).None? ==>
      r.Ok? && r.value == (if Given(form.newPassword) then me.(passwordHash := newPasswordHash) else me)
    ensures form.editType == Some(EDIT_STUDENT_ID) && Given(form.newValue) && PasswordGuard(form, passwordMatches).None? ==>
      (r.Ok? ==> r.value == me.(studentId := form.newValue))
      && (r.Err? ==> r.error == if IsStudentNumber(form.newValue) then NumberInUse else BadNumber)
    ensures form.editType == Some(EDIT_STUDENT_ID) && !Given(form.newValue) && PasswordGuard(form, passwordMatches).None? ==>
      r == Ok(me)
    ensures form.editType == Some(EDIT_REAL_NAME) && PasswordGuard(form, passwordMatches).None? ==>
      r.Ok? && r.value == (if Given(form.newValue) then me.(realName := form.newValue) else me)
    // Any other edit type, and a username edit without a value, change nothing.
    ensures form.editType != Some(EDIT_PASSWORD) && form.editType != Some(EDIT_STUDENT_ID)
            && form.editType != Some(EDIT_REAL_NAME) && (form.editType == Some(EDIT_USERNAME) ==> !Given(form.newValue))
            && PasswordGuard(form, passwordMatches).None?
      ==> r == Ok(me)
  {
    if form.editType == Some(EDIT_USERNAME) && Given(form.newValue) then
      if UsernameTakenByOther(users, me.id, form.newValue.value) then Err(UsernameInUse)
      else Ok(me.(username := form.newValue.value))
    else match PasswordGuard(form, passwordMatches)
      case Some(e) => Err(e)
      case None =>
        if form.editType == Some(EDIT_PASSWORD) then
          if Given(form.newPassword) then Ok(me.(passwordHash := newPasswordHash)) else Ok(me)
        else if form.editType == Some(EDIT_STUDENT_ID) then
          if !Given(form.newValue) then Ok(me)
          else if !IsStudentNumber(form.newValue) then Err(BadNumber)
          else if NumberTakenByOther(users, me.id, form.newValue.value) then Err(NumberInUse)
          else Ok(me.(studentId := form.newValue))
        else if form.editType == Some(EDIT_REAL_NAME) then
          if Given(form.newValue) then Ok(me.(realName := form.newValue)) else Ok(me)
        else Ok(me)
  }

  /** A profile edit never breaks the uniqueness of usernames and student
      numbers, provided user ids are distinct (the primary key). */
  lemma EditProfileKeepsAccountsUnique(users: seq<User>, k: nat, form: ProfileForm,
                                       passwordMatches: bool, newPasswordHash: string)
    requires UniqueAccounts(users)
    requires forall i, j :: 0 <= i < j < |users| ==> users[i].id != users[j].id
    requires k < |users|
    requires EditProfile(users, users[k], form, passwordMatches, newPasswordHash).Ok?
    ensures UniqueAccounts(users[k := EditProfile(users, users[k], form, passwordMatches, newPasswordHash).value])
  {
    var me := users[k];
    var u := EditProfile(users, me, form, passwordMatches, newPasswordHash).value;
    var all := users[k := u];
    forall i, j | 0 <= i < j < |all| ensures all[i].username != all[j].username {
      if i == k && u.username != me.username {
        assert users[j].id != me.id;
      } else if j == k && u.username != me.username {
        assert users[i].id != me.id;
      }
    }
    forall i, j | 0 <= i < j < |all| && all[i].studentId.Some?
      ensures all[i].studentId != all[j].studentId
    {
      if i == k && u.studentId != me.studentId {
        assert users[j].id != me.id;
        assert users[j].studentId != Some(u.studentId.value);
      } else if j == k && u.studentId != me.studentId {
        assert users[i].id != me.id;
        assert users[i].studentId != Some(u.studentId.value);
      }
    }
  }
}
