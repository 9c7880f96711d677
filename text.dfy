/** Python's `str.lower()` on the characters that can end up in an email
    the pattern accepts: the ASCII capitals, and the KELVIN SIGN (U+212A),
    the one non-ASCII character whose lower case is a single ASCII letter. */
module Text {

  const KelvinSign: char := '\U{212A}'

  /** The characters lowering changes. */
  predicate IsUpper(c: char) { 'A' <= c <= 'Z' || c == KelvinSign }

  function LowerChar(c: char): (d: char)
    ensures !IsUpper(d)
    ensures !IsUpper(c) ==> d == c
    ensures 'A' <= c <= 'Z' ==> 'a' <= d <= 'z' && d as int == c as int + 32
    ensures c == KelvinSign ==> d == 'k'
  {
    if 'A' <= c <= 'Z' then (c as int + 32) as char
    else if c == KelvinSign then 'k'
    else c
  }

  /** `s` holds no Kelvin sign. */
  predicate NoKelvinSign(s: string) {
    forall i | 0 <= i < |s| :: s[i] != KelvinSign
  }

  /** No character of `s` is one that lowering changes. */
  predicate IsLowercase(s: string) {
    forall i | 0 <= i < |s| :: !IsUpper(s[i])
  }

  /** `s.lower()`: same length, nothing left that lowering would change,
      every other character kept, ASCII capitals sent to their lower-case
      partners and the Kelvin sign sent to `k`. */
  function ToLower(s: string): (r: string)
    ensures |r| == |s| && IsLowercase(r)
    ensures forall i | 0 <= i < |s| :: !IsUpper(s[i]) ==> r[i] == s[i]
    ensures forall i | 0 <= i < |s| :: 'A' <= s[i] <= 'Z' ==> r[i] as int == s[i] as int + 32
    ensures forall i | 0 <= i < |s| :: s[i] == KelvinSign ==> r[i] == 'k'
  {
    seq(|s|, i requires 0 <= i < |s| => LowerChar(s[i]))
  }

  /** Lowercasing leaves a string alone exactly when it is lower case. */
  lemma ToLowerFixesExactlyLowercase(s: string)
    ensures ToLower(s) == s <==> IsLowercase(s)
  {
  }

  lemma ToLowerIdempotent(s: string)
    ensures ToLower(ToLower(s)) == ToLower(s)
  {
    ToLowerFixesExactlyLowercase(ToLower(s));
  }
}
