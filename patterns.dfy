/**
 * The two regular expressions of server.js (lines 29-30), each given twice: as the set of
 * strings the anchored pattern denotes (a ghost predicate that splits the string into the
 * pieces each atom matches), and as a deterministic matcher that the sign-up checks call.
 * Lemmas prove the two agree and state what every accepted string looks like.
 *
 * The classes are ASCII, so matching over Unicode scalar values (Dafny's `char`) gives the
 * same answer as JavaScript's matching over UTF-16 code units: a surrogate half is in none
 * of the classes, and in the password lookaheads `.` admits every non-terminator either way.
 * Strings holding unpaired surrogates cannot be written as Dafny strings and are not modelled.
 */
module Patterns {
  import opened Wrappers
  import opened JsStrings

  predicate IsAsciiLetter(c: char) { 'a' <= c <= 'z' || 'A' <= c <= 'Z' }
  predicate IsLower(c: char) { 'a' <= c <= 'z' }
  predicate IsUpper(c: char) { 'A' <= c <= 'Z' }
  /** `\d` without the `u` flag: the ASCII digits only. */
  predicate IsDigit(c: char) { '0' <= c <= '9' }

  /** `[a-zA-Z0-9._-]`, the class of the e-mail's local part. */
  predicate IsLocalChar(c: char) { IsAsciiLetter(c) || IsDigit(c) || c == '.' || c == '_' || c == '-' }
  /** `[a-zA-Z0-9.-]`, the class of the e-mail's domain. */
  predicate IsDomainChar(c: char) { IsAsciiLetter(c) || IsDigit(c) || c == '.' || c == '-' }
  /** `[@$!%*?&]`, the password's special characters. */
  predicate IsSpecial(c: char) { c == '@' || c == '$' || c == '!' || c == '%' || c == '*' || c == '?' || c == '&' }
  /** `[A-Za-z\d@$!%*?&]`, every character a password may hold. */
  predicate IsPasswordChar(c: char) { IsAsciiLetter(c) || IsDigit(c) || IsSpecial(c) }
  /** The characters JavaScript's `.` refuses to match. */
  predicate IsLineTerminator(c: char) { c == '\n' || c == '\r' || c == '\U{2028}' || c == '\U{2029}' }

  predicate All(s: string, P: char -> bool) { forall i :: 0 <= i < |s| ==> P(s[i]) }
  predicate Has(s: string, P: char -> bool) { exists i :: 0 <= i < |s| && P(s[i]) }

  // ---------------------------------------------------------------------------------------
  // E-mail: /^[a-zA-Z0-9._-]+@[a-zA-Z0-9.-]+\.[a-zA-Z]{2,6}$/

  /**
   * `s` splits as local `@` domain `.` tld with the `@` at `a` and the `.` at `k`: a
   * non-empty local part, a non-empty domain, a tld of 2 to 6 letters ending the string.
   */
  ghost predicate EmailSplit(s: string, a: nat, k: nat) {
    && 0 < a && a + 1 < k && k + 3 <= |s| <= k + 7
    && All(s[..a], IsLocalChar) && s[a] == '@'
    && All(s[a + 1..k], IsDomainChar) && s[k] == '.'
    && All(s[k + 1..], IsAsciiLetter)
  }

  /** The strings the anchored e-mail pattern matches. */
  ghost predicate EmailPattern(s: string) {
    exists a: nat, k: nat :: EmailSplit(s, a, k)
  }

  /** The part after the `@`: domain characters throughout, and after its last `.` two to six letters. */
  predicate MatchesHost(h: string) {
    && All(h, IsDomainChar)
    && match LastIndex(h, '.')
       case None => false
       case Some(k) => 0 < k && 2 <= |h| - k - 1 <= 6 && All(h[k + 1..], IsAsciiLetter)
  }

  /** `emailRegex.test(s)`, decided by the first `@` and the host's last `.`. */
  predicate MatchesEmail(s: string) {
    match IndexOf(s, "@")
    case None => false
    case Some(a) => 0 < a && All(s[..a], IsLocalChar) && MatchesHost(s[a + 1..])
  }

  lemma EmailSplitGivesMatch(s: string, a: nat, k: nat)
    requires EmailSplit(s, a, k)
    ensures MatchesEmail(s)
  {
    OccursAtChar(s, '@', a);
    forall j: nat | j < a
      ensures !OccursAt(s, "@", j)
    {
      OccursAtChar(s, '@', j);
      assert s[..a][j] == s[j];
    }
    var i := IndexOf(s, "@");
    assert i == Some(a);
    var h := s[a + 1..];
    var kh := k - a - 1;
    assert h[kh] == '.';
    forall j | 0 <= j < |h|
      ensures IsDomainChar(h[j])
    {
      if j < kh {
        assert h[j] == s[a + 1..k][j];
      } else if j > kh {
        assert h[j] == s[k + 1..][j - kh - 1];
      }
    }
    forall j | kh < j < |h|
      ensures h[j] != '.'
    {
      assert h[j] == s[k + 1..][j - kh - 1];
    }
    assert LastIndex(h, '.') == Some(kh);
    assert h[kh + 1..] == s[k + 1..];
  }

  lemma MatchGivesEmailSplit(s: string) returns (a: nat, k: nat)
    requires MatchesEmail(s)
    ensures EmailSplit(s, a, k)
  {
    a := IndexOf(s, "@").value;
    OccursAtChar(s, '@', a);
    var h := s[a + 1..];
    var kh := LastIndex(h, '.').value;
    k := a + 1 + kh;
    var d := s[a + 1..k];
    forall j | 0 <= j < |d|
      ensures IsDomainChar(d[j])
    {
      assert d[j] == h[j];
    }
    assert s[k + 1..] == h[kh + 1..];
  }

  /** The matcher decides exactly the language of the e-mail pattern. */
  lemma MatchesEmailIsPattern(s: string)
    ensures MatchesEmail(s) <==> EmailPattern(s)
  {
    if MatchesEmail(s) {
      var a, k := MatchGivesEmailSplit(s);
    }
    if EmailPattern(s) {
      var a: nat, k: nat :| EmailSplit(s, a, k);
      EmailSplitGivesMatch(s, a, k);
    }
  }

  /** The only `@` of `s` is at `a`, and the local part before it is non-empty `[A-Za-z0-9._-]`. */
  predicate SoleAtSign(s: string, a: nat) {
    a < |s| && s[a] == '@' && (forall j :: 0 <= j < |s| && s[j] == '@' ==> j == a)
    && 0 < a && All(s[..a], IsLocalChar)
  }

  /** `s` ends in `.` followed by a top-level label of `t` ASCII letters, 2 <= t <= 6. */
  predicate EndsWithTld(s: string, t: nat) {
    2 <= t <= 6 && t < |s| && s[|s| - t - 1] == '.' && All(s[|s| - t..], IsAsciiLetter)
  }

  /**
   * Every accepted e-mail holds exactly one `@`, preceded by a non-empty local part of
   * `[A-Za-z0-9._-]`, and ends in `.` followed by two to six ASCII letters.
   */
  lemma EmailPatternShape(s: string)
    requires EmailPattern(s)
    ensures exists a: nat :: SoleAtSign(s, a)
    ensures exists t: nat :: EndsWithTld(s, t)
  {
    var a: nat, k: nat :| EmailSplit(s, a, k);
    forall j | 0 <= j < |s| && s[j] == '@'
      ensures j == a
    {
    }
    assert SoleAtSign(s, a);
    var t := |s| - k - 1;
    assert s[|s| - t - 1] == '.' && s[|s| - t..] == s[k + 1..];
    assert EndsWithTld(s, t);
  }

  // ---------------------------------------------------------------------------------------
  // Password: /^(?=.*[a-z])(?=.*[A-Z])(?=.*\d)(?=.*[@$!%*?&])[A-Za-z\d@$!%*?&]{8,}$/

  /** The lookahead `(?=.*[P])` succeeds through index `i`: `s[i]` is in P and `.*` covers `s[..i]`. */
  ghost predicate LookaheadAt(s: string, P: char -> bool, i: nat) {
    i < |s| && P(s[i]) && forall j :: 0 <= j < i ==> !IsLineTerminator(s[j])
  }

  ghost predicate Lookahead(s: string, P: char -> bool) {
    exists i: nat :: LookaheadAt(s, P, i)
  }

  /** The strings the anchored password pattern matches: four lookaheads and the body `[...]{8,}`. */
  ghost predicate PasswordPattern(s: string) {
    && Lookahead(s, IsLower) && Lookahead(s, IsUpper) && Lookahead(s, IsDigit) && Lookahead(s, IsSpecial)
    && |s| >= 8 && All(s, IsPasswordChar)
  }

  /** `passwordRegex.test(s)`. */
  predicate MatchesPassword(s: string) {
    && |s| >= 8 && All(s, IsPasswordChar)
    && Has(s, IsLower) && Has(s, IsUpper) && Has(s, IsDigit) && Has(s, IsSpecial)
  }

  /** Within a string of password characters a lookahead holds exactly when its class occurs. */
  lemma LookaheadIsHas(s: string, P: char -> bool)
    requires All(s, IsPasswordChar)
    ensures Lookahead(s, P) <==> Has(s, P)
  {
    if Has(s, P) {
      var i :| 0 <= i < |s| && P(s[i]);
      assert forall j :: 0 <= j < i ==> IsPasswordChar(s[j]);
      assert LookaheadAt(s, P, i);
    }
  }

  /** The matcher decides exactly the language of the password pattern. */
  lemma MatchesPasswordIsPattern(s: string)
    ensures MatchesPassword(s) <==> PasswordPattern(s)
  {
    if All(s, IsPasswordChar) {
      LookaheadIsHas(s, IsLower);
      LookaheadIsHas(s, IsUpper);
      LookaheadIsHas(s, IsDigit);
      LookaheadIsHas(s, IsSpecial);
    }
  }

  /**
   * A password passes the pattern exactly when it has at least 8 characters, all drawn from
   * `[A-Za-z0-9@$!%*?&]`, with a lower-case letter, an upper-case letter, a digit and one of
   * `@$!%*?&` among them; its JavaScript length is then its character count.
   */
  lemma PasswordPatternShape(s: string)
    ensures PasswordPattern(s) <==>
      |s| >= 8 && All(s, IsPasswordChar) &&
      Has(s, IsLower) && Has(s, IsUpper) && Has(s, IsDigit) && Has(s, IsSpecial)
    ensures PasswordPattern(s) ==> Utf16Length(s) == |s|
  {
    MatchesPasswordIsPattern(s);
    if PasswordPattern(s) {
      assert forall i :: 0 <= i < |s| ==> IsPasswordChar(s[i]);
    }
  }
}
