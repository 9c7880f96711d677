/** users/views.py: checking a submitted code, and the guard in front of
    issuing a new one.

    A user's `verify_codes` rows form a ledger; the ORM filters become
    predicates on a row, `exists()` becomes `AnyActive`/`AnyMatch`, and the
    bulk `update` becomes `ConfirmMatching`. */
module Views {
  import opened Wrappers
  import opened Utility
  import opened Models

  const InvalidCode := ValidationError(None, "Tasdiqlash kodingiz xato yoki eskirgan")
  const CodeStillValid := ValidationError(None, "Kodingiz hali ishlatish uchun yaroqli, birozdan keyin urinib ko'ring")

  /** `expiration_time__gte=now, is_confirmed=False`; a NULL expiry
      compares as false. */
  predicate IsActive(row: Confirmation, now: int) {
    row.expirationTime.Some? && row.expirationTime.value >= now && !row.isConfirmed
  }

  /** The same filter plus `code=code`; looking up a missing code is a
      NULL lookup, which no stored row satisfies. */
  predicate IsMatch(row: Confirmation, code: Option<string>, now: int) {
    IsActive(row, now) && code == Some(row.code)
  }

  function AnyActive(rows: seq<Confirmation>, now: int): (b: bool)
    ensures b <==> exists i | 0 <= i < |rows| :: IsActive(rows[i], now)
  {
    if rows == [] then false
    else IsActive(rows[0], now) || AnyActive(rows[1..], now)
  }

  function AnyMatch(rows: seq<Confirmation>, code: Option<string>, now: int): (b: bool)
    ensures b <==> exists i | 0 <= i < |rows| :: IsMatch(rows[i], code, now)
  {
    if rows == [] then false
    else IsMatch(rows[0], code, now) || AnyMatch(rows[1..], code, now)
  }

  /** The ledger after `update(is_confirmed=True)` on the matching rows. */
  function ConfirmMatching(rows: seq<Confirmation>, code: Option<string>, now: int): seq<Confirmation> {
    seq(|rows|, i requires 0 <= i < |rows| =>
      if IsMatch(rows[i], code, now) then rows[i].(isConfirmed := true) else rows[i])
  }

  /** The status a successful check leaves behind. */
  function AfterVerify(s: AuthStatus): (r: AuthStatus)
    ensures r != New
    ensures Rank(r) >= Rank(s)
    ensures s == New ==> r == CodeVerified
    ensures s != New ==> r == s
  {
    if s == New then CodeVerified else s
  }

  /** `check_verify`: with a matching row, every matching row is confirmed
      and a `new` account becomes `code_verified`; without one, the call
      raises and nothing changes. */
  method CheckVerify(user: User, code: Option<string>, now: int) returns (r: Result<bool, ValidationError>)
    modifies user
    ensures r.Ok? <==> old(AnyMatch(user.verifyCodes, code, now))
    ensures r.Ok? ==> r.value
                      && user.verifyCodes == ConfirmMatching(old(user.verifyCodes), code, now)
                      && user.authStatus == AfterVerify(old(user.authStatus))
    ensures r.Err? ==> r.error == InvalidCode
                       && user.verifyCodes == old(user.verifyCodes)
                       && user.authStatus == old(user.authStatus)
    ensures user.userRoles == old(user.userRoles)
  {
    if !AnyMatch(user.verifyCodes, code, now) {
      return Err(InvalidCode);
    }
    user.verifyCodes := ConfirmMatching(user.verifyCodes, code, now);
    if user.authStatus == New {
      user.authStatus := CodeVerified;
    }
    return Ok(true);
  }

  /** `check_verification`: raises exactly while some row of the user is
      unexpired and unconfirmed. It reads the ledger and changes nothing. */
  function CheckVerification(user: User, now: int): (r: Outcome<ValidationError>)
    reads user
    ensures r.Fail? <==> exists i | 0 <= i < |user.verifyCodes| :: IsActive(user.verifyCodes[i], now)
    ensures r.Fail? ==> r.error == CodeStillValid
  {
    if AnyActive(user.verifyCodes, now) then Fail(CodeStillValid) else Pass
  }

  /** `GetNewVerificationView.get`: the guard, then a new code. */
  method GetNewVerification(user: User, code: Code, now: int) returns (r: Outcome<ValidationError>)
    modifies user
    ensures r == old(CheckVerification(user, now))
    ensures r.Fail? <==> old(AnyActive(user.verifyCodes, now))
    ensures r.Pass? ==> user.verifyCodes == old(user.verifyCodes) + [IssuedRow(code, now)]
    ensures r.Fail? ==> user.verifyCodes == old(user.verifyCodes)
    ensures user.authStatus == old(user.authStatus) && user.userRoles == old(user.userRoles)
  {
    r := CheckVerification(user, now);
    if r.Pass? {
      user.CreateVerifyCode(code, now);
    }
  }

  // Properties of the ledger operations

  /** The bulk update touches only the matching rows, and on those only
      the confirmed flag. */
  lemma ConfirmMatchingFrame(rows: seq<Confirmation>, code: Option<string>, now: int)
    ensures |ConfirmMatching(rows, code, now)| == |rows|
    ensures forall i | 0 <= i < |rows| ::
      var after := ConfirmMatching(rows, code, now)[i];
      && after.code == rows[i].code && after.expirationTime == rows[i].expirationTime
      && (IsMatch(rows[i], code, now) ==> after.isConfirmed)
      && (!IsMatch(rows[i], code, now) ==> after == rows[i])
  {
  }

  /** A code is accepted at most once: after a successful check, the same
      code matches nothing, then or at any later time. */
  lemma AcceptedAtMostOnce(rows: seq<Confirmation>, code: Option<string>, now: int, later: int)
    requires now <= later
    ensures !AnyMatch(ConfirmMatching(rows, code, now), code, later)
  {
    var after := ConfirmMatching(rows, code, now);
    forall i | 0 <= i < |after| ensures !IsMatch(after[i], code, later) {
      if IsMatch(after[i], code, later) {
        assert IsMatch(rows[i], code, now);
      }
    }
  }

  /** Confirming never makes a row active that was not active before. */
  lemma ConfirmNeverActivates(rows: seq<Confirmation>, code: Option<string>, now: int, t: int)
    ensures AnyActive(ConfirmMatching(rows, code, now), t) ==> AnyActive(rows, t)
  {
    var after := ConfirmMatching(rows, code, now);
    if AnyActive(after, t) {
      var i :| 0 <= i < |after| && IsActive(after[i], t);
      assert IsActive(rows[i], t);
    }
  }

  /** A row stops being active as the clock advances, never the other way. */
  lemma ActiveOnlyEarlier(row: Confirmation, now: int, later: int)
    requires now <= later && IsActive(row, later)
    ensures IsActive(row, now)
  {
  }

  /** A code saved at `t` is accepted exactly while `now <= t + 300`:
      the expiry bound is inclusive. */
  lemma IssuedCodeWindow(rows: seq<Confirmation>, code: Code, t: int, now: int)
    requires !AnyMatch(rows, Some(code), now)
    ensures AnyMatch(rows + [IssuedRow(code, t)], Some(code), now) <==> now <= t + ExpireSeconds
  {
    var grown := rows + [IssuedRow(code, t)];
    assert forall i | 0 <= i < |rows| :: grown[i] == rows[i];
    if now <= t + ExpireSeconds {
      assert IsMatch(grown[|rows|], Some(code), now);
    }
  }

  /** No two rows are active at once. */
  ghost predicate AtMostOneActive(rows: seq<Confirmation>, now: int) {
    forall i, j | 0 <= i < |rows| && 0 <= j < |rows| && IsActive(rows[i], now) && IsActive(rows[j], now) :: i == j
  }

  /** The resend guard keeps the ledger at one active code from then on. */
  lemma ResendKeepsOneActive(rows: seq<Confirmation>, code: Code, now: int, later: int)
    requires !AnyActive(rows, now) && now <= later
    ensures AtMostOneActive(rows + [IssuedRow(code, now)], later)
  {
    var grown := rows + [IssuedRow(code, now)];
    forall i | 0 <= i < |rows| ensures !IsActive(grown[i], later) {
      if IsActive(grown[i], later) {
        ActiveOnlyEarlier(rows[i], now, later);
      }
    }
  }

  /** Once the one active code is confirmed, a resend is allowed again. */
  lemma ResendAllowedAfterConfirm(rows: seq<Confirmation>, code: Option<string>, now: int)
    requires AtMostOneActive(rows, now) && AnyMatch(rows, code, now)
    ensures !AnyActive(ConfirmMatching(rows, code, now), now)
  {
    var m :| 0 <= m < |rows| && IsMatch(rows[m], code, now);
    var after := ConfirmMatching(rows, code, now);
    forall i | 0 <= i < |after| ensures !IsActive(after[i], now) {
      if i != m {
        assert !IsActive(rows[i], now);
      }
    }
  }

  /** Once every row has expired, a resend is allowed again. */
  lemma ResendAllowedAfterExpiry(rows: seq<Confirmation>, now: int)
    requires forall i | 0 <= i < |rows| :: rows[i].expirationTime.Some? ==> rows[i].expirationTime.value < now
    ensures !AnyActive(rows, now)
  {
  }

  /** The timeline of a code "0427" issued at time 0: accepted once at
      299 seconds, then refused; on a second account, refused as expired at
      301 seconds, when a resend is allowed again. */
  method CodeTimeline() {
    var user := new User("a@example.com", "a");
    var issued := GetNewVerification(user, "0427", 0);
    assert issued.Pass?;
    var blocked := GetNewVerification(user, "1111", 299);
    assert blocked == Fail(CodeStillValid);
    assert IsMatch(IssuedRow("0427", 0), Some("0427"), 299);
    var first := CheckVerify(user, Some("0427"), 299);
    assert first == Ok(true) && user.authStatus == CodeVerified;
    AcceptedAtMostOnce([IssuedRow("0427", 0)], Some("0427"), 299, 299);
    var second := CheckVerify(user, Some("0427"), 299);
    assert second == Err(InvalidCode) && user.authStatus == CodeVerified;

    var other := new User("b@example.com", "b");
    other.CreateVerifyCode("0427", 0);
    var late := CheckVerify(other, Some("0427"), 301);
    assert late == Err(InvalidCode) && other.authStatus == New;
    var resent := GetNewVerification(other, "0912", 301);
    assert resent.Pass?;
  }
}
