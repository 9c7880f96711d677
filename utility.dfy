/** shared/utility.py: the email pattern and the check built on it.

    The pattern is `\b[A-Za-z0-9._%+-]+@[A-Za-z0-9.-]+\.[A-Z|a-z]{2,7}\b`,
    matched in full (`re.fullmatch`). Here it is an explicit predicate over the
    positions of the `@` and of the dot before the top-level domain
    (`SplitsAt`, `MatchesEmailRegex`), together with the matcher the
    check uses (`FullMatch`), proved to agree with it. */
module Utility {
  import opened Wrappers
  import opened Text

  /** The error details DRF's ValidationError carries. */
  datatype ValidationError = ValidationError(success: Option<bool>, message: string)

  const EmailInvalid := ValidationError(Some(false), "Email invalid")

  predicate IsAsciiLetter(c: char) { 'A' <= c <= 'Z' || 'a' <= c <= 'z' }

  predicate IsDigit(c: char) { '0' <= c <= '9' }

  /** `[A-Za-z0-9._%+-]` */
  predicate IsLocalChar(c: char) {
    IsAsciiLetter(c) || IsDigit(c) || c == '.' || c == '_' || c == '%' || c == '+' || c == '-'
  }

  /** `[A-Za-z0-9.-]` */
  predicate IsDomainChar(c: char) { IsAsciiLetter(c) || IsDigit(c) || c == '.' || c == '-' }

  /** `[A-Z|a-z]`: the bar is a literal member of the class. */
  predicate IsTldChar(c: char) { IsAsciiLetter(c) || c == '|' }

  /** `\w` on the characters the classes above admit. */
  predicate IsWordChar(c: char) { IsAsciiLetter(c) || IsDigit(c) || c == '_' }

  /** `s` is local-part `@` domain `.` tld, with the `@` at `at` and the
      final dot at `dot`, and both `\b` anchors hold. */
  predicate SplitsAt(s: string, at: int, dot: int) {
    && 0 < at && at + 1 < dot && dot < |s|
    && s[at] == '@' && s[dot] == '.'
    && (forall k | 0 <= k < at :: IsLocalChar(s[k]))
    && (forall k | at < k < dot :: IsDomainChar(s[k]))
    && 2 <= |s| - dot - 1 <= 7
    && (forall k | dot < k < |s| :: IsTldChar(s[k]))
    && IsWordChar(s[0]) && IsWordChar(s[|s| - 1])
  }

  /** `re.fullmatch(email_regex, s)` succeeds. */
  ghost predicate MatchesEmailRegex(s: string) {
    exists at, dot :: SplitsAt(s, at, dot)
  }

  /** Index of the first `c` in `s`. */
  function IndexOf(s: string, c: char): (r: Option<nat>)
    ensures r.Some? ==> r.value < |s| && s[r.value] == c
                        && forall j | 0 <= j < r.value :: s[j] != c
    ensures r.None? ==> forall j | 0 <= j < |s| :: s[j] != c
  {
    if s == [] then None
    else if s[0] == c then Some(0)
    else match IndexOf(s[1..], c)
      case None => None
      case Some(i) => Some(i + 1)
  }

  /** Index of the last `c` in `s`. */
  function LastIndexOf(s: string, c: char): (r: Option<nat>)
    ensures r.Some? ==> r.value < |s| && s[r.value] == c
                        && forall j | r.value < j < |s| :: s[j] != c
    ensures r.None? ==> forall j | 0 <= j < |s| :: s[j] != c
  {
    if s == [] then None
    else if s[|s| - 1] == c then Some(|s| - 1)
    else LastIndexOf(s[..|s| - 1], c)
  }

  /** The matcher: no class admits `@`, and the tld class admits no dot,
      so the only candidate split is the first `@` and the last dot after it. */
  function FullMatch(s: string): bool {
    match IndexOf(s, '@')
    case None => false
    case Some(at) =>
      match LastIndexOf(s[at + 1..], '.')
      case None => false
      case Some(d) => SplitsAt(s, at, at + 1 + d)
  }

  /** Any split of a matching string is the one the matcher picks. */
  lemma SplitIsUnique(s: string, at: int, dot: int)
    requires SplitsAt(s, at, dot)
    ensures IndexOf(s, '@') == Some(at)
    ensures LastIndexOf(s[at + 1..], '.') == Some(dot - at - 1)
    ensures LastIndexOf(s, '.') == Some(dot)
  {
    var rest := s[at + 1..];
    assert rest[dot - at - 1] == '.';
    assert forall j | dot - at - 1 < j < |rest| :: rest[j] == s[at + 1 + j];
  }

  lemma FullMatchCorrect(s: string)
    ensures FullMatch(s) <==> MatchesEmailRegex(s)
  {
    if MatchesEmailRegex(s) {
      var at, dot :| SplitsAt(s, at, dot);
      SplitIsUnique(s, at, dot);
    }
    if FullMatch(s) {
      var at := IndexOf(s, '@').value;
      var d := LastIndexOf(s[at + 1..], '.').value;
      assert SplitsAt(s, at, at + 1 + d);
    }
  }

  /** `check_email_or_other`: the tag "email" for a full match, and the
      "Email invalid" error otherwise. */
  function CheckEmailOrOther(s: string): (r: Result<string, ValidationError>)
    ensures r.Ok? <==> MatchesEmailRegex(s)
    ensures r.Ok? ==> r.value == "email"
    ensures r.Err? ==> r.error == EmailInvalid && r.error.success == Some(false)
  {
    FullMatchCorrect(s);
    if FullMatch(s) then Ok("email") else Err(EmailInvalid)
  }

  /** What an accepted string looks like: an `@` after a non-empty local
      part; after the last dot, 2 to 7 tld characters; word characters at
      both ends. */
  lemma AcceptedShape(s: string)
    requires CheckEmailOrOther(s).Ok?
    ensures IndexOf(s, '@').Some? && IndexOf(s, '@').value > 0
    ensures forall k | 0 <= k < IndexOf(s, '@').value :: IsLocalChar(s[k])
    ensures LastIndexOf(s, '.').Some?
    ensures 2 <= |s| - LastIndexOf(s, '.').value - 1 <= 7
    ensures forall k | LastIndexOf(s, '.').value < k < |s| :: IsTldChar(s[k])
    ensures IsWordChar(s[0]) && IsWordChar(s[|s| - 1])
  {
    var at, dot :| SplitsAt(s, at, dot);
    SplitIsUnique(s, at, dot);
  }

  lemma LeadingDotRejected(s: string)
    requires |s| > 0 && s[0] == '.'
    ensures CheckEmailOrOther(s) == Err(EmailInvalid)
  {
  }

  lemma TrailingBarRejected(s: string)
    requires |s| > 0 && s[|s| - 1] == '|'
    ensures CheckEmailOrOther(s) == Err(EmailInvalid)
  {
  }

  /** Lowercasing keeps an accepted string accepted: the characters of a
      match are all ASCII, and every class is closed under ASCII case. */
  lemma VerdictKeptByLowering(s: string)
    ensures MatchesEmailRegex(s) ==> MatchesEmailRegex(ToLower(s))
  {
    if MatchesEmailRegex(s) {
      var at, dot :| SplitsAt(s, at, dot);
      var t := ToLower(s);
      forall k | 0 <= k < |s| ensures SameClass(s[k], t[k]) {
        assert s[k] != KelvinSign;
        LowerKeepsClasses(s[k]);
      }
      SplitCarriesOver(s, t, at, dot);
    }
  }

  /** Without a Kelvin sign, lowering never changes the verdict, in either
      direction. With one it can: the sign is in no class, but its lower
      case `k` is. */
  lemma VerdictIgnoresCase(s: string)
    ensures NoKelvinSign(s) ==> (MatchesEmailRegex(ToLower(s)) <==> MatchesEmailRegex(s))
  {
    VerdictKeptByLowering(s);
    var t := ToLower(s);
    if NoKelvinSign(s) && MatchesEmailRegex(t) {
      forall k | 0 <= k < |s| ensures SameClass(t[k], s[k]) {
        LowerKeepsClasses(s[k]);
      }
      var at, dot :| SplitsAt(t, at, dot);
      SplitCarriesOver(t, s, at, dot);
    }
  }

  /** The Kelvin sign fails the pattern, and its lower case passes. */
  lemma KelvinSignOnlyAfterLowering()
    ensures !MatchesEmailRegex("\U{212A}@ex.com")
    ensures MatchesEmailRegex(ToLower("\U{212A}@ex.com"))
  {
    var t := ToLower("\U{212A}@ex.com");
    assert t == "k@ex.com";
    assert SplitsAt(t, 1, 4);
  }

  /** `c` and `d` fall in the same character classes of the pattern. */
  predicate SameClass(c: char, d: char) {
    && IsLocalChar(c) == IsLocalChar(d)
    && IsDomainChar(c) == IsDomainChar(d)
    && IsTldChar(c) == IsTldChar(d)
    && IsWordChar(c) == IsWordChar(d)
    && (c == '@') == (d == '@') && (c == '.') == (d == '.')
  }

  lemma SplitCarriesOver(s: string, t: string, at: int, dot: int)
    requires |s| == |t|
    requires forall k | 0 <= k < |s| :: SameClass(s[k], t[k])
    requires SplitsAt(s, at, dot)
    ensures SplitsAt(t, at, dot)
  {
  }

  lemma LowerKeepsClasses(c: char)
    requires c != KelvinSign
    ensures SameClass(c, LowerChar(c)) && SameClass(LowerChar(c), c)
  {
  }

  /** The pattern itself admits upper case; lowercasing is the callers' job. */
  lemma UppercaseAccepted()
    ensures CheckEmailOrOther("A@Example.COM") == Ok("email")
  {
    assert SplitsAt("A@Example.COM", 1, 9);
  }
}
