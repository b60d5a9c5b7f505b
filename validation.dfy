/**
 * The two input validators of the authentication routes, `is_valid_email` and
 * `is_valid_password`. Both are `re.match` with a pattern anchored by `^` and
 * `$`; Python's `$` (without MULTILINE) matches at the end of the string and
 * also just before a single final newline, so each validator accepts a string
 * that ends in one `"\n"` when the rest of it matches.
 */
module Validation {
  import opened Text

  /** The character classes the two patterns are built from (ASCII ranges). */
  datatype CharClass =
    | Lower         // [a-z]
    | Upper         // [A-Z]
    | Digit         // \d
    | Special       // [@$!%*?&#]
    | PasswordChar  // [A-Za-z\d@$!%*?&#]
    | LocalChar     // [a-zA-Z0-9_.+-]
    | LabelChar     // [a-zA-Z0-9-]
    | TailChar      // [a-zA-Z0-9-.]

  predicate IsLower(c: char) { 'a' <= c <= 'z' }
  predicate IsUpper(c: char) { 'A' <= c <= 'Z' }
  predicate IsDigit(c: char) { '0' <= c <= '9' }
  predicate IsSpecial(c: char) {
    c == '@' || c == '$' || c == '!' || c == '%' || c == '*' || c == '?' || c == '&' || c == '#'
  }
  predicate IsAlphanumeric(c: char) { IsLower(c) || IsUpper(c) || IsDigit(c) }

  predicate InClass(c: char, k: CharClass) {
    match k
    case Lower => IsLower(c)
    case Upper => IsUpper(c)
    case Digit => IsDigit(c)
    case Special => IsSpecial(c)
    case PasswordChar => IsAlphanumeric(c) || IsSpecial(c)
    case LocalChar => IsAlphanumeric(c) || c == '_' || c == '.' || c == '+' || c == '-'
    case LabelChar => IsAlphanumeric(c) || c == '-'
    case TailChar => IsAlphanumeric(c) || c == '-' || c == '.'
  }

  /** Every character of `s` is in class `k`. */
  predicate All(s: string, k: CharClass) {
    forall i {:trigger InClass(s[i], k)} :: 0 <= i < |s| ==> InClass(s[i], k)
  }

  /** Some character of `s` is in class `k`. */
  predicate Any(s: string, k: CharClass) {
    exists i {:trigger InClass(s[i], k)} :: 0 <= i < |s| && InClass(s[i], k)
  }

  predicate EndsWithNewline(s: string) {
    |s| > 0 && s[|s| - 1] == '\n'
  }

  /** `s` without the one final newline that `$` tolerates. */
  function WithoutFinalNewline(s: string): (t: string)
    ensures EndsWithNewline(s) ==> s == t + "\n"
    ensures !EndsWithNewline(s) ==> s == t
  {
    if EndsWithNewline(s) then s[..|s| - 1] else s
  }

  // ----- is_valid_email: ^[a-zA-Z0-9_.+-]+@[a-zA-Z0-9-]+\.[a-zA-Z0-9-.]+$

  /**
   * `s` splits at `at` and `d` into the three runs of the email pattern:
   * `[a-zA-Z0-9_.+-]+` before the `@` at `at`, `[a-zA-Z0-9-]+` up to the `.`
   * at `d`, and `[a-zA-Z0-9-.]+` after it.
   */
  predicate EmailSplit(s: string, at: int, d: int) {
    && 0 < at && at + 1 < d < |s| - 1
    && s[at] == '@' && s[d] == '.'
    && All(s[..at], LocalChar)
    && All(s[at + 1..d], LabelChar)
    && All(s[d + 1..], TailChar)
  }

  /**
   * The part of the email pattern between `^` and `$`, matched the way the
   * pattern forces it: the local part cannot hold `@`, so the `@` is the first
   * one; the label cannot hold `.`, so the `.` is the first one after the `@`.
   */
  predicate EmailBody(s: string) {
    var at := IndexOf(s, '@');
    at < |s| && EmailSplit(s, at, at + 1 + IndexOf(s[at + 1..], '.'))
  }

  /** `is_valid_email(email)` is truthy. */
  predicate IsValidEmail(s: string) {
    EmailBody(s) || (EndsWithNewline(s) && EmailBody(s[..|s| - 1]))
  }

  /** The email pattern read as a regular expression: some split of `s` fits the three runs. */
  ghost predicate EmailPattern(s: string) {
    exists at, d :: EmailSplit(s, at, d)
  }

  /** The pattern together with `^`, `$` and `re.match`. */
  ghost predicate EmailRegexMatches(s: string) {
    EmailPattern(s) || (EndsWithNewline(s) && EmailPattern(s[..|s| - 1]))
  }

  /** A character outside class `k` does not occur in a run of class `k`. */
  lemma AllExcludes(s: string, k: CharClass, c: char)
    requires All(s, k) && !InClass(c, k)
    ensures c !in s
  {
    forall i | 0 <= i < |s| ensures s[i] != c {
      assert InClass(s[i], k);
    }
  }

  lemma EmailBodyGivesPattern(s: string)
    requires EmailBody(s)
    ensures EmailPattern(s)
  {
    var at := IndexOf(s, '@');
    assert EmailSplit(s, at, at + 1 + IndexOf(s[at + 1..], '.'));
  }

  lemma EmailPatternGivesBody(s: string)
    requires EmailPattern(s)
    ensures EmailBody(s)
  {
    var a, d :| EmailSplit(s, a, d);
    assert IndexOf(s, '@') == a by {
      AllExcludes(s[..a], LocalChar, '@');
      assert s == s[..a] + ['@'] + s[a + 1..];
      IndexOfFirst(s[..a], '@', s[a + 1..]);
    }
    assert IndexOf(s[a + 1..], '.') == d - a - 1 by {
      AllExcludes(s[a + 1..d], LabelChar, '.');
      assert s[a + 1..] == s[a + 1..d] + ['.'] + s[d + 1..];
      IndexOfFirst(s[a + 1..d], '.', s[d + 1..]);
    }
  }

  /** The executable reading of the email pattern and its regular-expression reading agree on every string. */
  lemma IsValidEmailMatchesRegex(s: string)
    ensures IsValidEmail(s) <==> EmailRegexMatches(s)
  {
    if EmailBody(s) { EmailBodyGivesPattern(s); }
    if EmailPattern(s) { EmailPatternGivesBody(s); }
    if EndsWithNewline(s) {
      var b := s[..|s| - 1];
      if EmailBody(b) { EmailBodyGivesPattern(b); }
      if EmailPattern(b) { EmailPatternGivesBody(b); }
    }
  }

  /** The runs of the email pattern cannot hold a newline, so a matched body never ends in one. */
  lemma EmailBodyHasNoFinalNewline(s: string)
    requires EmailBody(s)
    ensures !EndsWithNewline(s)
  {
    var at := IndexOf(s, '@');
    var d := at + 1 + IndexOf(s[at + 1..], '.');
    assert s[|s| - 1] == s[d + 1..][|s| - d - 2];
    assert InClass(s[d + 1..][|s| - d - 2], TailChar);
  }

  /** In a split that fits the pattern, no `@` follows the one at `at`. */
  lemma EmailSplitHasOneAt(b: string, at: int, d: int)
    requires EmailSplit(b, at, d)
    ensures '@' !in b[at + 1..]
  {
    var host, tail := b[at + 1..d], b[d + 1..];
    AllExcludes(host, LabelChar, '@');
    AllExcludes(tail, TailChar, '@');
    assert b[at + 1..] == host + ['.'] + tail;
  }

  /** The split a matched body is read with: its `@` is the only one. */
  lemma EmailBodyParts(b: string) returns (at: int, d: int)
    requires EmailBody(b)
    ensures EmailSplit(b, at, d) && '@' !in b[..at] && '@' !in b[at + 1..]
  {
    at := IndexOf(b, '@');
    d := at + 1 + IndexOf(b[at + 1..], '.');
    assert EmailSplit(b, at, d);
    EmailSplitHasOneAt(b, at, d);
  }

  /** A string that `is_valid_email` accepts is a matched body, possibly followed by one newline. */
  lemma ValidEmailBody(s: string)
    requires IsValidEmail(s)
    ensures EmailBody(WithoutFinalNewline(s))
  {
    if EmailBody(s) { EmailBodyHasNoFinalNewline(s); }
  }

  /** A valid address has exactly one `@`, with a non-empty local part before it and a `.` after it. */
  lemma ValidEmailHasOneAt(s: string)
    requires IsValidEmail(s)
    ensures exists at :: && 0 < at < |s| && s[at] == '@'
                         && (forall j :: 0 <= j < |s| && s[j] == '@' ==> j == at)
                         && (exists dot :: at + 1 < dot < |s| && s[dot] == '.')
  {
    var b := WithoutFinalNewline(s);
    ValidEmailBody(s);
    var at, d := EmailBodyParts(b);
    OneAtInBody(s, b, at, d);
  }

  lemma OneAtInBody(s: string, b: string, at: int, d: int)
    requires s == b || s == b + "\n"
    requires 0 < at && at + 1 < d < |b| && b[at] == '@' && b[d] == '.'
    requires '@' !in b[..at] && '@' !in b[at + 1..]
    ensures && 0 < at < |s| && s[at] == '@'
            && (forall j :: 0 <= j < |s| && s[j] == '@' ==> j == at)
            && (exists dot :: at + 1 < dot < |s| && s[dot] == '.')
  {
    forall j | 0 <= j < |s| && j != at ensures s[j] != '@' {
      if j < at {
        assert s[j] == b[..at][j];
      } else if j < |b| {
        assert s[j] == b[at + 1..][j - at - 1];
      } else {
        assert s[j] == '\n';
      }
    }
    assert s[d] == '.';
  }

  // ----- is_valid_password: ^(?=.*[a-z])(?=.*[A-Z])(?=.*\d)(?=.*[@$!%*?&#])[A-Za-z\d@$!%*?&#]{8,}$

  /** `[A-Za-z\d@$!%*?&#]{8,}`, the part that consumes the string. */
  predicate PasswordRun(s: string) {
    |s| >= 8 && All(s, PasswordChar)
  }

  /**
   * `is_valid_password(password)` is truthy. Each lookahead `(?=.*X)` starts at
   * position 0 and `.` does not cross a newline, so it sees the string up to the
   * first `"\n"`; the run must then reach the end, or a final newline.
   */
  predicate IsValidPassword(s: string) {
    var seen := s[..IndexOf(s, '\n')];
    && Any(seen, Lower) && Any(seen, Upper) && Any(seen, Digit) && Any(seen, Special)
    && (PasswordRun(s) || (EndsWithNewline(s) && PasswordRun(s[..|s| - 1])))
  }

  /**
   * The policy the validator's documentation states: at least 8 characters, all
   * from the allowed set, with a lowercase letter, an uppercase letter, a digit
   * and a special character (the one final newline `$` tolerates aside).
   */
  ghost predicate MeetsPasswordPolicy(s: string) {
    var p := WithoutFinalNewline(s);
    && |p| >= 8 && All(p, PasswordChar)
    && Any(p, Lower) && Any(p, Upper) && Any(p, Digit) && Any(p, Special)
  }

  /** The password pattern accepts exactly the strings that meet the documented policy. */
  lemma IsValidPasswordMeetsPolicy(s: string)
    ensures IsValidPassword(s) <==> MeetsPasswordPolicy(s)
  {
    var p := WithoutFinalNewline(s);
    if All(p, PasswordChar) {
      assert '\n' !in p by {
        forall i | 0 <= i < |p| ensures p[i] != '\n' {
          assert InClass(p[i], PasswordChar);
        }
      }
      if EndsWithNewline(s) {
        IndexOfFirst(p, '\n', "");
        assert p + "\n" + "" == s;
      } else {
        IndexOfMissing(s, '\n');
      }
      assert s[..IndexOf(s, '\n')] == p;
    }
    if PasswordRun(s) && |s| > 0 {
      assert InClass(s[|s| - 1], PasswordChar);
      assert !EndsWithNewline(s);
    }
  }

  /** A password the validator accepts is never empty. */
  lemma ValidPasswordNonEmpty(s: string)
    requires IsValidPassword(s)
    ensures |s| >= 8
  {
  }

  /** A password with all four kinds of character is accepted. */
  lemma StrongPasswordAccepted()
    ensures IsValidPassword("Passw0rd!")
  {
    var p := "Passw0rd!";
    assert InClass(p[1], Lower) && InClass(p[0], Upper);
    assert InClass(p[5], Digit) && InClass(p[8], Special);
    forall i | 0 <= i < |p| ensures InClass(p[i], PasswordChar) {
    }
    IsValidPasswordMeetsPolicy(p);
  }

  /** Eight characters with upper, lower and digit, but no special character, are refused. */
  lemma PasswordWithoutSpecialRefused()
    ensures !IsValidPassword("Passw0rd")
  {
    var p := "Passw0rd";
    forall i | 0 <= i < |p| ensures !InClass(p[i], Special) {
    }
    IsValidPasswordMeetsPolicy(p);
  }

  /** Seven characters are one too few. */
  lemma ShortPasswordRefused()
    ensures !IsValidPassword("short1!")
  {
    IsValidPasswordMeetsPolicy("short1!");
  }

  /** An ordinary address is accepted. */
  lemma PlainEmailAccepted()
    ensures IsValidEmail("alice@example.com")
  {
    var alice := "alice@example.com";
    assert EmailSplit(alice, 5, 13) by {
      assert alice[..5] == "alice" && alice[6..13] == "example" && alice[14..] == "com";
      assert All("alice", LocalChar) && All("example", LabelChar) && All("com", TailChar);
    }
    EmailPatternGivesBody(alice);
  }

  /** The tail run admits dots, so a doubled dot after the `@` passes. */
  lemma DoubledDotEmailAccepted()
    ensures IsValidEmail("a@b..c")
  {
    var dots := "a@b..c";
    assert EmailSplit(dots, 1, 3) by {
      assert dots[..1] == "a" && dots[2..3] == "b" && dots[4..] == ".c";
      assert All(".c", TailChar);
    }
    EmailPatternGivesBody(dots);
  }

  /** An address needs an `@`. */
  lemma EmailNeedsAt(s: string)
    requires '@' !in s
    ensures !IsValidEmail(s)
  {
    IndexOfMissing(s, '@');
    if EndsWithNewline(s) {
      IndexOfMissing(s[..|s| - 1], '@');
    }
  }

  lemma EmailBodyNeedsDot(b: string)
    requires '.' !in b
    ensures !EmailBody(b)
  {
    var at := IndexOf(b, '@');
    if at < |b| {
      IndexOfMissing(b[at + 1..], '.');
    }
  }

  /** An address needs a `.`. */
  lemma EmailNeedsDot(s: string)
    requires '.' !in s
    ensures !IsValidEmail(s)
  {
    EmailBodyNeedsDot(s);
    if EndsWithNewline(s) {
      EmailBodyNeedsDot(s[..|s| - 1]);
    }
  }
}
