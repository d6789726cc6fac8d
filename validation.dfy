/**
 * The two field validators of server.js: the email regular expression
 * `^[^\s@]+@[^\s@]+\.[^\s@]+$`, written out by hand over characters, and the
 * minimum password length.
 */
module Validation {

  /** MIN_PASSWORD_LENGTH. */
  const MinPasswordLength: nat := 6

  /**
   * The members of the JavaScript class `\s`: the ECMAScript WhiteSpace and
   * LineTerminator code points (tab, line feed, vertical tab, form feed,
   * carriage return, space, no-break space, U+1680, U+2000 to U+200A, the line
   * and paragraph separators, U+202F, U+205F, U+3000 and the byte order mark).
   */
  const WhitespaceChars: set<char> := {
    '\t', '\n', '\U{000B}', '\U{000C}', '\r', ' ', '\U{00A0}', '\U{1680}',
    '\U{2000}', '\U{2001}', '\U{2002}', '\U{2003}', '\U{2004}', '\U{2005}',
    '\U{2006}', '\U{2007}', '\U{2008}', '\U{2009}', '\U{200A}',
    '\U{2028}', '\U{2029}', '\U{202F}', '\U{205F}', '\U{3000}', '\U{FEFF}'
  }

  /** `c` matches `\s`. */
  predicate IsWhitespace(c: char)
  {
    c in WhitespaceChars
  }

  /** The character class `[^\s@]`. */
  predicate IsAtomChar(c: char)
  {
    !IsWhitespace(c) && c != '@'
  }

  /** Every character of `s` is in `[^\s@]`. */
  predicate AllAtomChars(s: string)
  {
    forall i :: 0 <= i < |s| ==> IsAtomChar(s[i])
  }

  /** `s` matches `[^\s@]+`. */
  predicate IsAtom(s: string)
  {
    |s| > 0 && AllAtomChars(s)
  }

  /**
   * Splitting `email` at the '@' at `at` and the '.' at `dot` gives three parts
   * L, D1 and D2, each matching `[^\s@]+`.
   */
  ghost predicate MatchesAt(email: string, at: int, dot: int)
  {
    && 0 < at < dot < |email| - 1
    && email[at] == '@' && email[dot] == '.'
    && IsAtom(email[..at]) && IsAtom(email[at + 1..dot]) && IsAtom(email[dot + 1..])
  }

  /**
   * `email` matches the whole pattern: it splits as L + "@" + D1 + "." + D2
   * (D1 and D2 may themselves hold dots; the match backtracks to any dot).
   */
  ghost predicate MatchesEmailPattern(email: string)
  {
    exists at, dot :: MatchesAt(email, at, dot)
  }

  /** The position of the first `c` in `s`, or `|s|` when there is none. */
  function IndexOf(s: string, c: char): (k: nat)
    ensures k <= |s|
    ensures k < |s| ==> s[k] == c
    ensures forall j :: 0 <= j < k ==> s[j] != c
  {
    if s == [] then 0
    else if s[0] == c then 0
    else 1 + IndexOf(s[1..], c)
  }

  /** The part after the '@' matches `[^\s@]+\.[^\s@]+`: all atom characters, with a dot that is neither first nor last. */
  predicate IsDomain(d: string)
  {
    && AllAtomChars(d)
    && exists k | 0 < k < |d| - 1 :: d[k] == '.'
  }

  /**
   * validateEmail, as a scan: find the first '@'; the text before it must match
   * `[^\s@]+` and the text after it must be a domain.
   */
  function ValidateEmail(email: string): bool
  {
    var at := IndexOf(email, '@');
    && 0 < at < |email|
    && IsAtom(email[..at])
    && IsDomain(email[at + 1..])
  }

  /** Every string validateEmail accepts matches the regular expression. */
  lemma AcceptedMatchesPattern(email: string)
    requires ValidateEmail(email)
    ensures MatchesEmailPattern(email)
  {
    var at := IndexOf(email, '@');
    var d := email[at + 1..];
    var k :| 0 < k < |d| - 1 && d[k] == '.';
    var dot := at + 1 + k;
    assert email[at + 1..dot] == d[..k];
    assert email[dot + 1..] == d[k + 1..];
    assert IsAtom(email[at + 1..dot]);
    assert IsAtom(email[dot + 1..]);
    assert MatchesAt(email, at, dot);
  }

  /** A local part followed by '@' puts the first '@' right after it. */
  lemma FirstAtAfterAtom(email: string, at: nat)
    requires at < |email| && email[at] == '@' && IsAtom(email[..at])
    ensures IndexOf(email, '@') == at
  {
    assert forall j :: 0 <= j < at ==> email[j] == email[..at][j];
  }

  /** Two atoms joined by a dot form a domain. */
  lemma DottedAtomsAreDomain(d1: string, d2: string)
    requires IsAtom(d1) && IsAtom(d2)
    ensures IsDomain(d1 + ['.'] + d2)
  {
    var d := d1 + ['.'] + d2;
    assert d[|d1|] == '.';
    forall i | 0 <= i < |d|
      ensures IsAtomChar(d[i])
    {
      if i < |d1| {
        assert d[i] == d1[i];
      } else if i > |d1| {
        assert d[i] == d2[i - |d1| - 1];
      }
    }
  }

  /** A split at `at` and `dot` makes validateEmail accept. */
  lemma MatchAtIsAccepted(email: string, at: int, dot: int)
    requires MatchesAt(email, at, dot)
    ensures ValidateEmail(email)
  {
    FirstAtAfterAtom(email, at);
    var d1, d2 := email[at + 1..dot], email[dot + 1..];
    assert email[at + 1..] == d1 + ['.'] + d2;
    DottedAtomsAreDomain(d1, d2);
  }

  /** Every string matching the regular expression is accepted by validateEmail. */
  lemma PatternIsAccepted(email: string)
    requires MatchesEmailPattern(email)
    ensures ValidateEmail(email)
  {
    var at, dot :| MatchesAt(email, at, dot);
    MatchAtIsAccepted(email, at, dot);
  }

  /** validateEmail accepts exactly the strings that match the regular expression. */
  lemma ValidateEmailMatchesPattern(email: string)
    ensures ValidateEmail(email) <==> MatchesEmailPattern(email)
  {
    if ValidateEmail(email) {
      AcceptedMatchesPattern(email);
    }
    if MatchesEmailPattern(email) {
      PatternIsAccepted(email);
    }
  }

  /** Any L + "@" + D1 + "." + D2 with three `[^\s@]+` parts is accepted. */
  lemma ComposedEmailAccepted(local: string, d1: string, d2: string)
    requires IsAtom(local) && IsAtom(d1) && IsAtom(d2)
    ensures ValidateEmail(local + "@" + d1 + "." + d2)
  {
    var email := local + "@" + d1 + "." + d2;
    var at, dot := |local|, |local| + 1 + |d1|;
    assert email[..at] == local;
    assert email[at + 1..dot] == d1;
    assert email[dot + 1..] == d2;
    MatchAtIsAccepted(email, at, dot);
  }

  /** The number of occurrences of `c` in `s`. */
  function Count(s: string, c: char): nat
  {
    if s == [] then 0 else (if s[0] == c then 1 else 0) + Count(s[1..], c)
  }

  lemma {:induction false} CountAbsent(s: string, c: char)
    requires forall i :: 0 <= i < |s| ==> s[i] != c
    ensures Count(s, c) == 0
  {
    if s != [] {
      CountAbsent(s[1..], c);
    }
  }

  lemma {:induction false} CountConcat(a: string, b: string, c: char)
    ensures Count(a + b, c) == Count(a, c) + Count(b, c)
  {
    if a == [] {
      assert a + b == b;
    } else {
      assert (a + b)[1..] == a[1..] + b;
      CountConcat(a[1..], b, c);
    }
  }

  /** An accepted email contains exactly one '@'. */
  lemma AcceptedEmailHasOneAt(email: string)
    requires ValidateEmail(email)
    ensures Count(email, '@') == 1
  {
    var at := IndexOf(email, '@');
    var local, d := email[..at], email[at + 1..];
    assert email == local + ['@'] + d;
    CountAbsent(local, '@');
    CountAbsent(d, '@');
    CountConcat(local, ['@'], '@');
    CountConcat(local + ['@'], d, '@');
  }

  /** An accepted email contains no whitespace at all. */
  lemma AcceptedEmailHasNoWhitespace(email: string)
    requires ValidateEmail(email)
    ensures forall i :: 0 <= i < |email| ==> !IsWhitespace(email[i])
  {
    var at := IndexOf(email, '@');
    var local, d := email[..at], email[at + 1..];
    forall i | 0 <= i < |email|
      ensures !IsWhitespace(email[i])
    {
      if i < at {
        assert email[i] == local[i];
      } else if i > at {
        assert email[i] == d[i - at - 1];
      }
    }
  }

  /** The string "not-an-email" is rejected (it has no '@'). */
  lemma NotAnEmailRejected()
    ensures !ValidateEmail("not-an-email")
  {
    var s := "not-an-email";
    assert forall i :: 0 <= i < |s| ==> s[i] != '@';
    assert IndexOf(s, '@') == |s|;
  }

  /**
   * validatePassword: `password && password.length >= MIN_PASSWORD_LENGTH`. The
   * truthiness test (the empty string is falsy) is subsumed by the length test.
   */
  function ValidatePassword(password: string): (ok: bool)
    ensures ok <==> |password| >= MinPasswordLength
    ensures ok ==> password != []
  {
    password != [] && |password| >= MinPasswordLength
  }
}
