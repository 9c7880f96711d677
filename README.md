# Account signup and email verification, modelled in Dafny

This project models the core of a Django account service. A user signs up with an email and gets a verification code of at most 4 characters. Submitting that code moves the account from `new` to `code_verified`. A new code is only handed out once no earlier code is still valid. The model covers:

- **Email check** (`shared/utility.py`, module `Utility`). The regular expression `\b[A-Za-z0-9._%+-]+@[A-Za-z0-9.-]+\.[A-Z|a-z]{2,7}\b` is written out as an explicit predicate, `SplitsAt`/`MatchesEmailRegex`. It says where the `@` and the final dot sit, and that both `\b` anchors hold. A matcher, `FullMatch`, is proved equivalent to it. `CheckEmailOrOther` either returns `"email"` or raises "Email invalid".
- **Models** (`users/models.py`, module `Models`):
  - the status and role choices, with their stored names and default values;
  - `UserConfirmation` as a class whose `Save` stamps the expiry at now + `EMAIL_EXPIRE` minutes;
  - `User` as a class that owns `authStatus` and its ledger of stored confirmation rows;
  - the user table, with its unique `email` and `username` columns.
- **Views** (`users/views.py`, module `Views`). The ORM filters become predicates on a row. `exists()` becomes a recursive query. The bulk `update(is_confirmed=True)` becomes `ConfirmMatching`, applied in a single reassignment. `CheckVerify` confirms the matching rows and advances `new` to `code_verified`. `CheckVerification` is the read-only resend guard. `GetNewVerification` runs the guard and then issues a new code.
- **Serializers** (`users/serializers.py`, module `Serializers`):
  - `AuthValidate` and `ValidateEmail`;
  - the `validate` pipeline, as `ValidateSignUp`;
  - `create`, which inserts the user and then issues its first code;
  - the whole signup. Validation refuses a taken email, so the unique constraint on `email` never fires. A table whose emails are all lowercase and well formed stays that way.
- **Helpers.** `Wrappers` holds the `Option`/`Result`/`Outcome` datatypes that stand in for raised exceptions. `Text` holds lowercasing, for the ASCII capitals and the Kelvin sign (U+212A).

The clock is an integer number of seconds, passed in where the source calls `datetime.now()`. The TTL is `EMAIL_EXPIRE * 60` = 300 seconds. A missing submitted code (`request.data.get('code')` is `None`) is `Option.None`. Looking it up is a NULL lookup, which matches no row. A missing signup email is turned into `"None"` by `str(None)` and then checked as `"none"`.

`Views.CodeTimeline` walks one code through its life. Issued at 0, it blocks a resend at 299, is accepted once at 299, then is refused. On a second account, a code issued at 0 is refused at 301, when a resend is allowed again.

`code` is only bounded in length (`max_length=4`, users/models.py:40); it is not required to be numeric. The only active-code check is in the resend view (users/views.py:76, 90-100). `create` issues a code with no check (users/serializers.py:31).

## Model

| member | source | states |
|---|---|---|
| `Utility.SplitsAt` | shared/utility.py:4 | the pattern read as a split: a non-empty local part before the `@`, a non-empty domain part up to the final dot, 2 to 7 top-level characters after it, and a word character at each end for the `\b` anchors |
| `Utility.MatchesEmailRegex` | shared/utility.py:4 | the pattern fully matches exactly when some such split exists |
| `Utility.FullMatch` | shared/utility.py:7 | the executable full match: the split at the first `@` and the last dot after it |
| `Utility.IndexOf` | shared/utility.py:4 | the first `@` found is the first occurrence: the character there is the one sought, and none comes before it; `None` means it does not occur |
| `Utility.LastIndexOf` | shared/utility.py:4 | the last dot found is the last occurrence, and none comes after it; `None` means it does not occur |
| `Utility.SplitIsUnique` | shared/utility.py:4 | every way of splitting an accepted string puts the `@` at the first `@` and the separator at the last dot; the decomposition the regex finds is unique |
| `Utility.FullMatchCorrect` | shared/utility.py:4-7 | the matcher accepts exactly the strings the pattern fully matches (both directions) |
| `Utility.CheckEmailOrOther` | shared/utility.py:6-16 | returns exactly `"email"` when the string fully matches the pattern; otherwise raises the error with `success: False` and "Email invalid", and returns no value |
| `Utility.AcceptedShape` | shared/utility.py:4 | an accepted string has an `@` after a non-empty run of local-part characters; after its last dot come 2 to 7 characters from letters and the bar character; its first and last characters are word characters |
| `Utility.LeadingDotRejected` | shared/utility.py:4 | a string starting with `.` is rejected (the leading `\b`) |
| `Utility.TrailingBarRejected` | shared/utility.py:4 | a string ending with the bar character is rejected (the trailing `\b`) |
| `Utility.VerdictKeptByLowering` | shared/utility.py:4 | lowercasing never turns an accepted string into a rejected one |
| `Utility.VerdictIgnoresCase` | shared/utility.py:4 | for a string without a Kelvin sign, lowercasing never changes the pattern's verdict, in either direction |
| `Utility.KelvinSignOnlyAfterLowering` | shared/utility.py:4 | a Kelvin sign (U+212A) fails the pattern, but its lowercase `k` passes: `\u212A@ex.com` is rejected, `k@ex.com` accepted |
| `Utility.UppercaseAccepted` | shared/utility.py:4 | the pattern itself accepts upper case (`A@Example.COM`); lowercasing is left to callers |
| `Text.ToLower` | users/serializers.py:51 | `lower()` keeps the length and leaves nothing that lowering would change; each ASCII capital goes to its lower-case partner, the Kelvin sign to `k`, and every other character is kept |
| `Text.ToLowerFixesExactlyLowercase` | users/serializers.py:68 | lowercasing leaves a string unchanged exactly when it is already lowercase |
| `Text.ToLowerIdempotent` | users/serializers.py:68 | lowercasing twice is the same as lowercasing once |
| `Models.StatusName` | users/models.py:11-29 | each status is stored under a non-empty name that fits the 31-character column |
| `Models.StatusFromName` | users/models.py:15-20 | a stored name reads back only as the status stored under it |
| `Models.StatusNameRoundTrip` | users/models.py:11-20 | every one of the four statuses reads back as itself, so distinct statuses are stored differently |
| `Models.RoleName` | users/models.py:12-28 | each role is stored under a non-empty name that fits the 31-character column |
| `Models.RoleFromName` | users/models.py:22-26 | a stored name reads back only as the role stored under it |
| `Models.RoleNameRoundTrip` | users/models.py:12-26 | every one of the three roles reads back as itself |
| `Models.UserConfirmation.constructor` | users/models.py:39-43 | a new confirmation has its code, no expiry yet, and `is_confirmed == false` |
| `Models.UserConfirmation.Save` | users/models.py:38-50 | `save` sets the expiry to now + 5 minutes, overwriting any earlier value, so a re-save restarts the TTL; the code and the flag are untouched |
| `Models.User.constructor` | users/models.py:14-30 | a new user has the email and username it was given, the role `ordinary_user`, the status `new` and no codes |
| `Models.User.CreateVerifyCode` | users/models.py:39-50 | issuing a code appends exactly one unconfirmed row with expiry now + 300 s; status and role are untouched |
| `Models.UserTable.Emails` | users/models.py:30 | the `email` column: the set of the stored users' emails, which the validation lookup and the unique constraint consult |
| `Models.UserTable.Usernames` | users/models.py:14 | the `username` column `AbstractUser` brings: the set of the stored users' usernames, which its unique constraint consults |
| `Models.UserTable.constructor` | users/models.py:14-30 | an empty table satisfies both uniqueness invariants |
| `Models.UserTable.Insert` | users/models.py:14-30 | an insert fails with a unique violation exactly when the email or the username is already stored, naming `email` when the email clashes and `username` otherwise, and then changes nothing; otherwise it appends; no two users ever share an email or a username |
| `Views.IsActive` | users/views.py:92 | the resend filter on one row: unexpired (expiry >= now, a NULL expiry never qualifies) and unconfirmed |
| `Views.IsMatch` | users/views.py:45 | the verify filter on one row: active and carrying the submitted code; a missing code matches nothing |
| `Views.AnyActive` | users/views.py:92-95 | the resend query holds exactly when some row is unexpired (expiry >= now, not NULL) and unconfirmed |
| `Views.AnyMatch` | users/views.py:45-48 | the verify query holds exactly when some row is unexpired, unconfirmed and carries the submitted code |
| `Views.AfterVerify` | users/views.py:59-63 | after a successful check, `new` becomes `code_verified` and every other status is kept; the status is never `new` afterwards and never ranks lower than before |
| `Views.CheckVerify` | users/views.py:43-65 | succeeds (returning true) iff a matching row exists; on success every matching row is confirmed and the status advances by `AfterVerify`; on failure it raises "Tasdiqlash kodingiz xato yoki eskirgan" and changes nothing; the role is untouched |
| `Views.CheckVerification` | users/views.py:90-100 | raises iff some row is unexpired and unconfirmed; it only reads the ledger |
| `Views.GetNewVerification` | users/views.py:72-78 | the result is the guard's verdict on the old ledger; a new row is appended only when the guard passed; otherwise the ledger is unchanged; status and role are untouched |
| `Views.ConfirmMatching` | users/views.py:56 | the bulk `update(is_confirmed=True)` over the rows the verify filter selects |
| `Views.ConfirmMatchingFrame` | users/views.py:45-56 | the bulk update keeps the row count, sets the flag on every matching row, leaves code and expiry alone, and leaves every other row (different code, expired, already confirmed) unchanged |
| `Views.AcceptedAtMostOnce` | users/views.py:45-56 | after a successful check, the same code matches no row, at that time or any later time, so a second submission fails |
| `Views.ConfirmNeverActivates` | users/views.py:56 | confirming never makes an inactive row active |
| `Views.ActiveOnlyEarlier` | users/views.py:45 | a row active at a later time was active at every earlier time |
| `Views.IssuedCodeWindow` | users/views.py:45 | a code saved at t is accepted exactly when now <= t + 300 s: the expiry bound is inclusive |
| `Views.ResendKeepsOneActive` | users/views.py:76-78 | issuing through the guard leaves at most one active row from then on |
| `Views.ResendAllowedAfterConfirm` | users/views.py:56-100 | when the one active code is confirmed, the resend guard passes again |
| `Views.ResendAllowedAfterExpiry` | users/views.py:92-95 | once every row has expired, the resend guard passes again |
| `Serializers.StrOf` | users/serializers.py:51 | `str(data.get('email'))`: the text given, or `"None"` when it is missing |
| `Serializers.AuthValidate` | users/serializers.py:46-64 | succeeds iff `lower(str(email))` is an email, returning `{"email": lower(str(email))}`; otherwise raises "Email invalid" |
| `Serializers.ValidateEmail` | users/serializers.py:66-80 | returns the lowercased value; raises "already used" iff the value is non-empty and its lowercase form is already stored; an empty value is never looked up |
| `Serializers.NotEmailUnreachable` | users/serializers.py:54-63 | the non-email `else` branch never produces the result |
| `Serializers.AuthValidateIdempotent` | users/serializers.py:51-57 | the email handed on is lowercase, and validating it again gives the same result |
| `Serializers.AuthValidateAcceptsRawMatches` | users/serializers.py:51-53 | an input the pattern accepts as typed is accepted; without a Kelvin sign, accepted exactly when the pattern accepts it as typed |
| `Serializers.KelvinSignAccepted` | users/serializers.py:51-57 | `\u212A@ex.com` fails the pattern as typed, yet is accepted and handed on as `k@ex.com` |
| `Serializers.MissingEmailRejected` | users/serializers.py:51 | a missing email becomes `"none"` and is rejected |
| `Serializers.MixedCaseNormalised` | users/serializers.py:51-57 | `A@Ex.com` is handed on as `a@ex.com` |
| `Serializers.DuplicateRejected` | users/serializers.py:66-78 | with `a@ex.com` stored, both `a@ex.com` and `A@Ex.com` are refused as taken |
| `Serializers.Create` | users/serializers.py:27-37 | inserts a fresh `new`/`ordinary_user` user under the given username and then gives it exactly one fresh code; fails with a unique violation, changing nothing, exactly when the email or the username is taken |
| `Serializers.CreateAsWritten` | users/serializers.py:27-31 | the validated data carries only the email, so the user is stored under the default username `''`; it fails exactly when the email or `''` is already stored |
| `Serializers.UsernameCollision` | users/serializers.py:27-31 | as written, after one user is created, creating a user with any other email fails with a unique violation on `username` |
| `Serializers.ValidateSignUp` | users/serializers.py:39-80 | validation succeeds iff the input is an email whose lowercase form is not stored, and hands on that lowercase form; on failure it names the error ("already used" for a taken non-empty email, else "Email invalid") |
| `Serializers.SignUp` | users/serializers.py:27-80 | signup succeeds iff validation does and the username is free, then stores the lowercase email with status `new` and one code; the `email` unique constraint never fires, so a constraint failure names `username`; on failure nothing changes; stored emails and usernames stay unique, and lowercase, well-formed emails stay so |
| `Serializers.SignUpTwice` | users/serializers.py:66-80 | after a successful signup, a second signup with the same email in any casing is refused as taken |
| `Serializers.TwoSignUps` | users/serializers.py:27-80 | with distinct usernames, a first signup into an empty table succeeds iff validation admits it, and a second succeeds iff validation admits it against the first; no unique constraint fires |

## Left out

- Login, token refresh, logout, profile completion, photo upload and password reset: no modelled file implements them. So the `code_verified → done → photo_done` transitions are not modelled either.
- JWT issuing (`user.token()`) and the response bodies of the views: signing is cryptographic, and `user.token()` is defined in no modelled file.
- `send_email`: outbound I/O. It is also not part of this model's files.
- `create_verify_code` is not part of this model's files. `User.CreateVerifyCode` takes the code as a parameter (any string of at most 4 characters) and models only the save and the append.
- The `photo` field and its extension validator: file storage.
- `UserConfirmation.__str__` recurses without end. It has no behaviour worth modelling.
- The `print` in `auth_validate`, the admin registration and the URL routing.
- DRF and Django plumbing: `APIView`, `CreateAPIView`, permission classes and the `IsAuthenticated` gate. Also left out are `CharField`'s own whitespace trimming and blank check, and `to_representation`. The later `user.save()` calls persist nothing the model does not already hold.
- Concurrency: two concurrent resends can both pass the guard. The model is sequential.
- `Text.ToLower`: maps only the ASCII capitals and the Kelvin sign. Python's `str.lower()` maps other non-ASCII letters too, and `İ` (U+0130) becomes two characters. None of those can end up in a match: every character of an accepted string is ASCII, and the lowercase of any other non-ASCII character holds a non-ASCII character. So the model's `AuthValidate` verdict agrees with Python's. Only the lowered text of a rejected input differs.
- `Serializers.ValidateEmail`: looks up the value lowered as `Text.ToLower` does. For a non-ASCII capital other than the Kelvin sign, that key differs from Python's. The outcome can differ only when a stored email holds non-ASCII letters, which signup never stores but the admin site can. The difference goes both ways. Where the stored email is Python's lowered key, Python raises "already used", while the model lets the value through to `auth_validate`, which raises "Email invalid". Where a stored email holds a non-ASCII capital that Python lowers, the model raises "already used", while Python lets the value through and `auth_validate` then raises "Email invalid". Either way the signup is refused.
- `Models.UserTable.Insert`: when both the email and the username clash, the model reports `email`. Which violation a database reports first is not modelled.
- The other `AbstractUser` columns (password, names, flags, dates) carry no constraint the modelled code can trip. `username` is a parameter of `Serializers.Create` and `Serializers.SignUp`, and the model does not say how a distinct one would be chosen.
- `Utility.IsWordChar`: covers ASCII word characters only. Python's `\w` also admits non-ASCII letters, but only characters from the ASCII classes can stand at either end of a match.
- The clock counts whole seconds, where `datetime.now()` has microseconds. Time zones and clock changes are left out.
- `Models.User`: `email` is a constant, because no modelled code changes a user's email after creation.

## Findings

| source | as written | input that shows it | evidently intended | confidence | as-written member | corrected member |
|---|---|---|---|---|---|---|
| users/serializers.py:27-31 | `create` inserts only `{"email": …}`. Every `User` therefore gets `AbstractUser`'s default username `''`, and `username` is a unique column (users/models.py:14) | sign up `a@example.com`, then `b@example.com`: the second insert violates the unique constraint on `username` | each account is stored under its own username, so two valid distinct emails can both sign up | not executed; rests on `AbstractUser.username` being unique with default `''` in Django, which is not part of this model | `Serializers.UsernameCollision` | `Serializers.TwoSignUps` |
