/** users/serializers.py: validating the signup email and creating the
    account together with its first verification code. */
module Serializers {
  import opened Wrappers
  import opened Text
  import opened Utility
  import opened Models

  const EmailTaken := ValidationError(Some(false), "Bu email dan allaqachon fodalanilgan ")
  const MustSendEmail := "Siz email yuborishingiz kerak"

  /** What `auth_validate` hands on: the normalised email, or the
      "send an email" message of its `else` branch. */
  datatype SignUpData = EmailData(email: string) | NotEmail(success: bool, message: string)

  /** `str(data.get('email'))`: a missing value becomes "None". */
  function StrOf(email: Option<string>): string {
    match email
    case None => "None"
    case Some(s) => s
  }

  /** `auth_validate`: the lowercased input when it is an email, the
      "Email invalid" error otherwise. The pattern judges the lowered text,
      which is why a Kelvin sign passes as a `k`. */
  function AuthValidate(email: Option<string>): (r: Result<SignUpData, ValidationError>)
    ensures r.Ok? <==> MatchesEmailRegex(ToLower(StrOf(email)))
    ensures r.Ok? ==> r.value == EmailData(ToLower(StrOf(email)))
    ensures r.Err? ==> r.error == EmailInvalid
  {
    var input := ToLower(StrOf(email));
    match CheckEmailOrOther(input)
    case Err(e) => Err(e)
    case Ok(tag) =>
      if tag == "email" then Ok(EmailData(input)) else Ok(NotEmail(false, MustSendEmail))
  }

  /** `validate_email`: the lowercased value, unless it is non-empty and
      already taken; an empty value is never looked up. */
  function ValidateEmail(value: string, existing: set<string>): (r: Result<string, ValidationError>)
    ensures r.Err? <==> value != "" && ToLower(value) in existing
    ensures r.Ok? ==> r.value == ToLower(value)
    ensures r.Err? ==> r.error == EmailTaken
  {
    var lowered := ToLower(value);
    if lowered != "" && lowered in existing then Err(EmailTaken) else Ok(lowered)
  }

  /** The `else` branch of `auth_validate` is dead: the check it relies on
      either says "email" or raises. */
  lemma NotEmailUnreachable(email: Option<string>)
    ensures AuthValidate(email).Ok? ==> AuthValidate(email).value.EmailData?
  {
  }

  /** The email `auth_validate` passes on is lowercase, and validating it
      again gives the same result. */
  lemma AuthValidateIdempotent(email: Option<string>)
    ensures AuthValidate(email).Ok? ==>
      && IsLowercase(AuthValidate(email).value.email)
      && AuthValidate(Some(AuthValidate(email).value.email)) == AuthValidate(email)
  {
    ToLowerIdempotent(StrOf(email));
  }

  /** Every string the pattern accepts as typed is accepted; the converse
      holds for input without a Kelvin sign. */
  lemma AuthValidateAcceptsRawMatches(email: Option<string>)
    ensures MatchesEmailRegex(StrOf(email)) ==> AuthValidate(email).Ok?
    ensures NoKelvinSign(StrOf(email)) ==> (AuthValidate(email).Ok? <==> MatchesEmailRegex(StrOf(email)))
  {
    VerdictIgnoresCase(StrOf(email));
  }

  /** A Kelvin sign fails the pattern as typed, yet `auth_validate`
      accepts it, because the lowered `k` passes. */
  lemma KelvinSignAccepted()
    ensures CheckEmailOrOther("\U{212A}@ex.com").Err?
    ensures AuthValidate(Some("\U{212A}@ex.com")) == Ok(EmailData("k@ex.com"))
  {
    KelvinSignOnlyAfterLowering();
    assert ToLower("\U{212A}@ex.com") == "k@ex.com";
  }

  /** A missing email becomes "none", which has no `@`. */
  lemma MissingEmailRejected()
    ensures AuthValidate(None) == Err(EmailInvalid)
  {
  }

  lemma MixedCaseNormalised()
    ensures AuthValidate(Some("A@Ex.com")) == Ok(EmailData("a@ex.com"))
  {
    MixedCaseLowered();
  }

  lemma MixedCaseLowered()
    ensures ToLower("A@Ex.com") == "a@ex.com"
    ensures MatchesEmailRegex("a@ex.com")
  {
    assert SplitsAt("a@ex.com", 1, 4);
  }

  lemma DuplicateRejected(existing: set<string>)
    requires "a@ex.com" in existing
    ensures ValidateEmail("a@ex.com", existing) == Err(EmailTaken)
    ensures ValidateEmail("A@Ex.com", existing) == Err(EmailTaken)
  {
    assert ToLower("a@ex.com") == "a@ex.com";
    assert ToLower("A@Ex.com") == "a@ex.com";
  }

  /** `create`: the user row is inserted first; only if the unique
      columns admit it does the account get its first code. `username`
      is the name the row is stored under. */
  method Create(table: UserTable, email: string, username: string, code: Code, now: int)
    returns (r: Result<User, IntegrityError>)
    requires table.Valid()
    modifies table
    ensures table.Valid()
    ensures r.Err? <==> email in old(table.Emails()) || username in old(table.Usernames())
    ensures r.Err? ==> table.users == old(table.users)
    ensures r.Err? ==> r.error == UniqueViolation(if email in old(table.Emails()) then "email" else "username")
    ensures r.Ok? ==> && fresh(r.value) && r.value.email == email && r.value.username == username
                      && r.value.authStatus == New && r.value.userRoles == OrdinaryUser
                      && r.value.verifyCodes == [IssuedRow(code, now)]
                      && table.users == old(table.users) + [r.value]
  {
    var user := new User(email, username);
    var inserted := table.Insert(user);
    if inserted.Fail? {
      return Err(inserted.error);
    }
    user.CreateVerifyCode(code, now);
    r := Ok(user);
  }

  /** `create` as written: the validated data holds only the email, so
      every user is stored under the default username. */
  method CreateAsWritten(table: UserTable, email: string, code: Code, now: int)
    returns (r: Result<User, IntegrityError>)
    requires table.Valid()
    modifies table
    ensures table.Valid()
    ensures r.Err? <==> email in old(table.Emails()) || DefaultUsername in old(table.Usernames())
    ensures r.Err? ==> table.users == old(table.users)
    ensures r.Err? ==> r.error == UniqueViolation(if email in old(table.Emails()) then "email" else "username")
    ensures r.Ok? ==> && fresh(r.value) && r.value.email == email && r.value.username == DefaultUsername
                      && table.users == old(table.users) + [r.value]
  {
    r := Create(table, email, DefaultUsername, code, now);
  }

  /** As written, two users with different emails cannot both be created:
      the second clashes on the shared default username. */
  method UsernameCollision(email: string, other: string, code: Code, now: int)
    returns (first: Result<User, IntegrityError>, second: Result<User, IntegrityError>)
    requires email != other
    ensures first.Ok?
    ensures second == Err(UniqueViolation("username"))
  {
    var table := new UserTable();
    first := CreateAsWritten(table, email, code, now);
    assert table.users == [first.value];
    assert other !in table.Emails() && DefaultUsername in table.Usernames();
    second := CreateAsWritten(table, other, code, now);
  }

  /** Every stored email is lowercase and an email. */
  ghost predicate StoredEmailsWellFormed(users: seq<User>) {
    forall i | 0 <= i < |users| :: IsLowercase(users[i].email) && MatchesEmailRegex(users[i].email)
  }

  lemma WellFormedAppend(users: seq<User>, u: User)
    requires StoredEmailsWellFormed(users)
    requires IsLowercase(u.email) && MatchesEmailRegex(u.email)
    ensures StoredEmailsWellFormed(users + [u])
  {
  }

  /** Validation admits exactly an email whose lowercase form is free. */
  ghost predicate SignUpAccepted(email: Option<string>, existing: set<string>) {
    MatchesEmailRegex(ToLower(StrOf(email))) && ToLower(StrOf(email)) !in existing
  }

  /** The serializer's validation: `validate_email` on a present field,
      then `validate`, which is `auth_validate`. It admits exactly the
      emails whose lowercase form is free, and hands on that form. */
  function ValidateSignUp(email: Option<string>, existing: set<string>): (r: Result<string, ValidationError>)
    ensures r.Ok? <==> SignUpAccepted(email, existing)
    ensures r.Ok? ==> r.value == ToLower(StrOf(email))
    ensures r.Ok? ==> IsLowercase(r.value) && MatchesEmailRegex(r.value) && r.value !in existing
    ensures r.Err? ==> r.error == if email.Some? && email.value != "" && ToLower(email.value) in existing
                                  then EmailTaken else EmailInvalid
  {
    ToLowerIdempotent(StrOf(email));
    var field: Result<Option<string>, ValidationError> :=
      match email
      case None => Ok(None)
      case Some(v) =>
        match ValidateEmail(v, existing)
        case Err(e) => Err(e)
        case Ok(w) => Ok(Some(w));
    match field
    case Err(e) => Err(e)
    case Ok(data) =>
      var validated := AuthValidate(data);
      if validated.Err? then Err(validated.error) else Ok(validated.value.email)
  }

  /** Why a signup fails: validation, or a unique column. */
  datatype SignUpError = Invalid(error: ValidationError) | Integrity(violation: IntegrityError)

  /** Signup: validation, then `create` under `username`. Validation
      already refuses a taken email, so of the unique constraints only the
      one on `username` can fire. */
  method SignUp(table: UserTable, email: Option<string>, username: string, code: Code, now: int)
    returns (r: Result<User, SignUpError>)
    requires table.Valid()
    modifies table
    ensures table.Valid()
    ensures StoredEmailsWellFormed(old(table.users)) ==> StoredEmailsWellFormed(table.users)
    ensures r.Ok? <==> SignUpAccepted(email, old(table.Emails())) && username !in old(table.Usernames())
    ensures r.Err? ==> table.users == old(table.users)
    ensures r.Err? && !SignUpAccepted(email, old(table.Emails())) ==>
              r.error == Invalid(ValidateSignUp(email, old(table.Emails())).error)
    ensures r.Err? && SignUpAccepted(email, old(table.Emails())) ==>
              r.error == Integrity(UniqueViolation("username"))
    ensures r.Ok? ==> && fresh(r.value) && r.value.email == ToLower(StrOf(email))
                      && r.value.username == username && r.value.authStatus == New
                      && r.value.verifyCodes == [IssuedRow(code, now)]
                      && table.users == old(table.users) + [r.value]
  {
    var validated := ValidateSignUp(email, table.Emails());
    if validated.Err? {
      return Err(Invalid(validated.error));
    }
    ghost var before := table.users;
    var created := Create(table, validated.value, username, code, now);
    if created.Err? {
      return Err(Integrity(created.error));
    }
    if StoredEmailsWellFormed(before) {
      WellFormedAppend(before, created.value);
    }
    r := Ok(created.value);
  }

  /** Once an email has signed up, signing up again with the same email
      in any casing is refused as taken, and the table is left as it was. */
  method SignUpTwice(table: UserTable, email: string, again: string, username: string, otherName: string,
                     code: Code, later: Code, now: int)
    returns (first: Result<User, SignUpError>, second: Result<User, SignUpError>)
    requires table.Valid()
    requires ToLower(again) == ToLower(email)
    modifies table
    ensures first.Ok? <==> SignUpAccepted(Some(email), old(table.Emails())) && username !in old(table.Usernames())
    ensures first.Ok? ==> second == Err(Invalid(EmailTaken)) && table.users == old(table.users) + [first.value]
  {
    first := SignUp(table, Some(email), username, code, now);
    if first.Ok? {
      assert ToLower(again) in table.Emails();
      second := SignUp(table, Some(again), otherName, later, now);
    } else {
      second := first;
    }
  }

  /** With a distinct username for each account, a second email signs up
      exactly when validation admits it: the unique constraints never
      fire. Starting from an empty table. */
  method TwoSignUps(email: string, other: string, username: string, otherName: string, code: Code, now: int)
    returns (first: Result<User, SignUpError>, second: Result<User, SignUpError>)
    requires username != otherName
    ensures first.Ok? <==> SignUpAccepted(Some(email), {})
    ensures first.Ok? ==> (second.Ok? <==> SignUpAccepted(Some(other), {ToLower(email)}))
    ensures first.Ok? && second.Err? ==> second.error.Invalid?
  {
    var table := new UserTable();
    assert ToLower(email) !in table.Emails() && username !in table.Usernames();
    first := SignUp(table, Some(email), username, code, now);
    assert first.Ok? <==> SignUpAccepted(Some(email), {});
    if first.Ok? {
      assert table.users == [first.value];
      assert ToLower(other) in table.Emails() <==> ToLower(other) == ToLower(email);
      assert otherName !in table.Usernames();
      ghost var taken := table.Emails();
      second := SignUp(table, Some(other), otherName, code, now);
      assert second.Ok? <==> SignUpAccepted(Some(other), taken);
    } else {
      second := first;
    }
  }
}
