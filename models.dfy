/** users/models.py: the account and its verification codes.

    Times are integer seconds read from a clock the caller passes in. */
module Models {
  import opened Wrappers

  /** Registration stages, in the order an account passes through them. */
  datatype AuthStatus = New | CodeVerified | Done | PhotoDone

  datatype UserRole = OrdinaryUser | Manager | Admin

  /** Column width of `auth_status` and `user_roles`. */
  const ChoiceMaxLength := 31

  /** The value stored in the `auth_status` column. */
  function StatusName(s: AuthStatus): (name: string)
    ensures 0 < |name| <= ChoiceMaxLength
  {
    match s
    case New => "new"
    case CodeVerified => "code_verified"
    case Done => "done"
    case PhotoDone => "photo_done"
  }

  /** The choice whose stored value is `name`, if any. */
  function StatusFromName(name: string): (r: Option<AuthStatus>)
    ensures r.Some? ==> StatusName(r.value) == name
  {
    if name == "new" then Some(New)
    else if name == "code_verified" then Some(CodeVerified)
    else if name == "done" then Some(Done)
    else if name == "photo_done" then Some(PhotoDone)
    else None
  }

  /** Every status is stored under a name that reads back as itself,
      so distinct statuses are stored differently. */
  lemma StatusNameRoundTrip(s: AuthStatus)
    ensures StatusFromName(StatusName(s)) == Some(s)
  {
  }

  function RoleName(r: UserRole): (name: string)
    ensures 0 < |name| <= ChoiceMaxLength
  {
    match r
    case OrdinaryUser => "ordinary_user"
    case Manager => "manager"
    case Admin => "admin"
  }

  function RoleFromName(name: string): (r: Option<UserRole>)
    ensures r.Some? ==> RoleName(r.value) == name
  {
    if name == "ordinary_user" then Some(OrdinaryUser)
    else if name == "manager" then Some(Manager)
    else if name == "admin" then Some(Admin)
    else None
  }

  lemma RoleNameRoundTrip(r: UserRole)
    ensures RoleFromName(RoleName(r)) == Some(r)
  {
  }

  /** Position of a status in the registration order. */
  function Rank(s: AuthStatus): nat {
    match s
    case New => 0
    case CodeVerified => 1
    case Done => 2
    case PhotoDone => 3
  }

  /** `EMAIL_EXPIRE`, in minutes, and the same span in seconds. */
  const EmailExpire := 5
  const ExpireSeconds := EmailExpire * 60

  /** `code` is a CharField of width 4. */
  const CodeMaxLength := 4
  type Code = s: string | |s| <= CodeMaxLength

  /** A stored `UserConfirmation` row. */
  datatype Confirmation = Confirmation(code: Code, expirationTime: Option<int>, isConfirmed: bool)

  /** The row that saving a fresh confirmation for `code` at time `now` stores. */
  function IssuedRow(code: Code, now: int): Confirmation {
    Confirmation(code, Some(now + ExpireSeconds), false)
  }

  /** A `UserConfirmation` model instance before and after `save`. */
  class UserConfirmation {
    var code: Code
    var expirationTime: Option<int>
    var isConfirmed: bool

    constructor (code: Code)
      ensures this.code == code && expirationTime == None && !isConfirmed
    {
      this.code := code;
      expirationTime := None;
      isConfirmed := false;
    }

    /** `save` stamps the expiry afresh from the clock; whatever was
        there before is overwritten, so a second save restarts the TTL. */
    method Save(now: int)
      modifies this
      ensures expirationTime == Some(now + ExpireSeconds)
      ensures code == old(code) && isConfirmed == old(isConfirmed)
    {
      expirationTime := Some(now + ExpireSeconds);
    }

    /** The row this instance persists as. */
    function Row(): Confirmation
      reads this
    {
      Confirmation(code, expirationTime, isConfirmed)
    }
  }

  /** The `username` an `AbstractUser` gets when none is given. */
  const DefaultUsername := ""

  /** A `User`, with its `verify_codes` rows. Of the columns `AbstractUser`
      brings, only the unique `username` is modelled. */
  class User {
    const email: string
    const username: string
    var userRoles: UserRole
    var authStatus: AuthStatus
    var verifyCodes: seq<Confirmation>

    constructor (email: string, username: string)
      ensures this.email == email && this.username == username
      ensures userRoles == OrdinaryUser && authStatus == New && verifyCodes == []
    {
      this.email := email;
      this.username := username;
      userRoles := OrdinaryUser;
      authStatus := New;
      verifyCodes := [];
    }

    /** `create_verify_code`: a new confirmation for `code`, saved at `now`,
        joins the account's rows. */
    method CreateVerifyCode(code: Code, now: int)
      modifies this
      ensures verifyCodes == old(verifyCodes) + [IssuedRow(code, now)]
      ensures authStatus == old(authStatus) && userRoles == old(userRoles)
    {
      var confirmation := new UserConfirmation(code);
      confirmation.Save(now);
      verifyCodes := verifyCodes + [confirmation.Row()];
    }
  }

  /** The one database error the model can hit: a unique column. */
  datatype IntegrityError = UniqueViolation(column: string)

  /** The `User` table; `email` and `username` are unique columns. */
  class UserTable {
    var users: seq<User>

    ghost predicate Valid()
      reads this
    {
      && (forall i, j | 0 <= i < j < |users| :: users[i].email != users[j].email)
      && (forall i, j | 0 <= i < j < |users| :: users[i].username != users[j].username)
    }

    function Emails(): set<string>
      reads this
    {
      set u | u in users :: u.email
    }

    function Usernames(): set<string>
      reads this
    {
      set u | u in users :: u.username
    }

    constructor ()
      ensures Valid() && users == []
    {
      users := [];
    }

    /** An insert that the unique constraints guard. When both columns
        clash, the violation reported is the one on `email`. */
    method Insert(u: User) returns (r: Outcome<IntegrityError>)
      requires Valid()
      modifies this
      ensures Valid()
      ensures r.Fail? <==> u.email in old(Emails()) || u.username in old(Usernames())
      ensures r.Fail? ==> users == old(users)
      ensures r.Fail? ==> r.error == UniqueViolation(if u.email in old(Emails()) then "email" else "username")
      ensures r.Pass? ==> users == old(users) + [u]
    {
      if u.email in Emails() {
        r := Fail(UniqueViolation("email"));
      } else if u.username in Usernames() {
        r := Fail(UniqueViolation("username"));
      } else {
        users := users + [u];
        r := Pass;
      }
    }
  }
}
