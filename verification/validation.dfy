/**
 * The input predicates of utilities/validation.js.
 *
 * A request field is either absent (`undefined`) or a string.  Strings are
 * sequences of `char`; each `char` stands for one UTF-16 code unit of the
 * JavaScript string.
 */
module Validation {

  /** A value read from a request body or header: absent, or a string. */
  datatype Field = Undefined | Str(value: string)

  /** `isStringProvided`: the value is present and has positive length. */
  function IsStringProvided(param: Field): (provided: bool)
    ensures provided <==> param != Undefined && param != Str("")
  {
    param.Str? && |param.value| > 0
  }

  /** JavaScript's `a && b` on two fields: `a` when it is falsy, `b` otherwise. */
  function JsAnd(a: Field, b: Field): (r: Field)
    ensures r == a || r == b
    ensures IsStringProvided(r) <==> IsStringProvided(a) && IsStringProvided(b)
  {
    if a == Undefined || a == Str("") then a else b
  }

  // ---------------------------------------------------------------------------
  // isValidPassword: the regular expression
  //   (?=.*[a-z])(?=.*[A-Z])(?=.*[0-9])(?=.*[^A-Za-z0-9])(?=.{8,})
  // matched (unanchored, no flags) against the password.
  // ---------------------------------------------------------------------------

  /** The characters that `.` does not match (no `s` flag). */
  predicate IsLineTerminator(c: char) {
    c == '\n' || c == '\r' || c == '\U{2028}' || c == '\U{2029}'
  }

  /** The four character classes the lookaheads ask for. */
  datatype CharClass = Lower | Upper | Digit | Symbol

  predicate InClass(c: char, k: CharClass) {
    match k
    case Lower => 'a' <= c <= 'z'
    case Upper => 'A' <= c <= 'Z'
    case Digit => '0' <= c <= '9'
    case Symbol => !('a' <= c <= 'z' || 'A' <= c <= 'Z' || '0' <= c <= '9')
  }

  /** `.` matches every character of s[from..to]. */
  predicate DotsOnly(s: string, from: int, to: int)
    requires 0 <= from <= to <= |s|
  {
    forall i :: from <= i < to ==> !IsLineTerminator(s[i])
  }

  /** The lookahead `(?=.*[k])` succeeds at position p. */
  predicate SeesClass(s: string, p: int, k: CharClass)
    requires 0 <= p <= |s|
  {
    exists q :: p <= q < |s| && DotsOnly(s, p, q) && InClass(s[q], k)
  }

  const MinPasswordLength: int := 8

  /** The lookahead `(?=.{8,})` succeeds at position p. */
  predicate SeesMinLength(s: string, p: int)
    requires 0 <= p <= |s|
  {
    p + MinPasswordLength <= |s| && DotsOnly(s, p, p + MinPasswordLength)
  }

  /** All five lookaheads succeed at position p. */
  predicate MatchesAt(s: string, p: int)
    requires 0 <= p <= |s|
  {
    && SeesClass(s, p, Lower)
    && SeesClass(s, p, Upper)
    && SeesClass(s, p, Digit)
    && SeesClass(s, p, Symbol)
    && SeesMinLength(s, p)
  }

  /** Some character of s is in class k. */
  predicate Contains(s: string, k: CharClass) {
    exists i :: 0 <= i < |s| && InClass(s[i], k)
  }

  /** No character of s is a line terminator. */
  predicate SingleLine(s: string) {
    forall i :: 0 <= i < |s| ==> !IsLineTerminator(s[i])
  }

  /**
   * `isValidPassword`: the unanchored regular expression matches somewhere.
   * Whatever the line structure, an accepted password has at least eight
   * characters and a character of each of the four classes.
   */
  function IsValidPassword(pwd: string): (ok: bool)
    ensures ok ==> |pwd| >= MinPasswordLength
    ensures ok ==> Contains(pwd, Lower) && Contains(pwd, Upper)
    ensures ok ==> Contains(pwd, Digit) && Contains(pwd, Symbol)
  {
    exists p :: 0 <= p <= |pwd| && MatchesAt(pwd, p)
  }

  /** From the start of a single-line string, `.*` reaches every character. */
  lemma SeesFromStart(s: string, k: CharClass)
    requires SingleLine(s) && Contains(s, k)
    ensures SeesClass(s, 0, k)
  {
    var q :| 0 <= q < |s| && InClass(s[q], k);
    assert DotsOnly(s, 0, q);
  }

  /**
   * On a password without line terminators the check is exactly the five
   * documented conditions: length at least 8 and one character of each class.
   */
  lemma SingleLineCharacterisation(pwd: string)
    requires SingleLine(pwd)
    ensures IsValidPassword(pwd) <==>
              && |pwd| >= MinPasswordLength
              && Contains(pwd, Lower) && Contains(pwd, Upper)
              && Contains(pwd, Digit) && Contains(pwd, Symbol)
  {
    if && |pwd| >= MinPasswordLength
       && Contains(pwd, Lower) && Contains(pwd, Upper)
       && Contains(pwd, Digit) && Contains(pwd, Symbol)
    {
      SeesFromStart(pwd, Lower);
      SeesFromStart(pwd, Upper);
      SeesFromStart(pwd, Digit);
      SeesFromStart(pwd, Symbol);
      assert DotsOnly(pwd, 0, MinPasswordLength);
      assert MatchesAt(pwd, 0);
    }
  }

  /**
   * The lookaheads at a position p before a line terminator at index |u| - 1
   * never look past it: on s they see what they see on the prefix u.
   */
  lemma MatchIsLocalToLine(s: string, u: string, p: int)
    requires 1 <= |u| <= |s| && u == s[..|u|] && IsLineTerminator(u[|u| - 1])
    requires 0 <= p < |u|
    ensures MatchesAt(s, p) <==> MatchesAt(u, p)
  {
    forall k: CharClass
      ensures SeesClass(s, p, k) <==> SeesClass(u, p, k)
    {
      if SeesClass(s, p, k) {
        var q :| p <= q < |s| && DotsOnly(s, p, q) && InClass(s[q], k);
        assert DotsOnly(u, p, q);
      }
      if SeesClass(u, p, k) {
        var q :| p <= q < |u| && DotsOnly(u, p, q) && InClass(u[q], k);
        assert DotsOnly(s, p, q);
      }
    }
    if SeesMinLength(s, p) {
      assert DotsOnly(u, p, p + MinPasswordLength);
    }
    if SeesMinLength(u, p) {
      assert DotsOnly(s, p, p + MinPasswordLength);
    }
  }

  /** `.` matches a stretch of y exactly when it matches that stretch of w + y. */
  lemma DotsShift(w: string, y: string, a: int, b: int)
    requires 0 <= a <= b <= |y|
    ensures DotsOnly(w + y, |w| + a, |w| + b) <==> DotsOnly(y, a, b)
  {
    var s := w + y;
    if DotsOnly(s, |w| + a, |w| + b) {
      forall i | a <= i < b ensures !IsLineTerminator(y[i]) {
        assert y[i] == s[|w| + i];
      }
    }
    if DotsOnly(y, a, b) {
      forall i | |w| + a <= i < |w| + b ensures !IsLineTerminator(s[i]) {
        assert s[i] == y[i - |w|];
      }
    }
  }

  /** The lookaheads at |w| + p on w + y see what they see at p on y. */
  lemma MatchShifts(w: string, y: string, p: int)
    requires 0 <= p <= |y|
    ensures MatchesAt(w + y, |w| + p) <==> MatchesAt(y, p)
  {
    var s := w + y;
    forall k: CharClass
      ensures SeesClass(s, |w| + p, k) <==> SeesClass(y, p, k)
    {
      if SeesClass(s, |w| + p, k) {
        var q :| |w| + p <= q < |s| && DotsOnly(s, |w| + p, q) && InClass(s[q], k);
        DotsShift(w, y, p, q - |w|);
        assert InClass(y[q - |w|], k);
      }
      if SeesClass(y, p, k) {
        var q :| p <= q < |y| && DotsOnly(y, p, q) && InClass(y[q], k);
        DotsShift(w, y, p, q);
        assert InClass(s[|w| + q], k);
      }
    }
    if p + MinPasswordLength <= |y| {
      DotsShift(w, y, p, p + MinPasswordLength);
    }
  }

  /**
   * Because `.` stops at line terminators, the check is applied line by line:
   * a password is accepted exactly when its first line (with the terminator
   * that ends it, which itself counts as a symbol) or the rest is accepted.
   */
  lemma {:induction false} CheckIsPerLine(x: string, t: char, y: string)
    requires IsLineTerminator(t)
    ensures IsValidPassword(x + [t] + y) <==> IsValidPassword(x + [t]) || IsValidPassword(y)
  {
    var u := x + [t];
    var s := u + y;
    assert s == x + [t] + y;
    if IsValidPassword(s) {
      var p :| 0 <= p <= |s| && MatchesAt(s, p);
      if p < |u| {
        MatchIsLocalToLine(s, u, p);
      } else {
        MatchShifts(u, y, p - |u|);
      }
    }
    if IsValidPassword(u) {
      var p :| 0 <= p <= |u| && MatchesAt(u, p);
      assert p < |u|;
      MatchIsLocalToLine(s, u, p);
    }
    if IsValidPassword(y) {
      var p :| 0 <= p <= |y| && MatchesAt(y, p);
      MatchShifts(u, y, p);
    }
  }

  /**
   * A line followed by its terminator: the terminator supplies the symbol, so
   * the line itself needs eight characters, a lower-case letter, an upper-case
   * letter and a digit.  With `SingleLineCharacterisation` and `CheckIsPerLine`
   * this decides the check on every password.
   */
  lemma TerminatedLine(x: string, t: char)
    requires SingleLine(x) && IsLineTerminator(t)
    ensures IsValidPassword(x + [t]) <==>
              && |x| >= MinPasswordLength
              && Contains(x, Lower) && Contains(x, Upper) && Contains(x, Digit)
  {
    var s := x + [t];
    if IsValidPassword(s) {
      var p :| 0 <= p <= |s| && MatchesAt(s, p);
      assert s[|x|] == t;
      assert p + MinPasswordLength <= |x|;
      forall k | k != Symbol
        ensures Contains(x, k)
      {
        var q :| p <= q < |s| && DotsOnly(s, p, q) && InClass(s[q], k);
        assert q < |x| && x[q] == s[q];
      }
    }
    if |x| >= MinPasswordLength && Contains(x, Lower) && Contains(x, Upper) && Contains(x, Digit) {
      forall k | k != Symbol
        ensures SeesClass(s, 0, k)
      {
        var q :| 0 <= q < |x| && InClass(x[q], k);
        assert s[q] == x[q] && DotsOnly(s, 0, q);
      }
      assert DotsOnly(s, 0, |x|) && InClass(s[|x|], Symbol);
      assert DotsOnly(s, 0, MinPasswordLength);
      assert MatchesAt(s, 0);
    }
  }

  /** The request-body example password is accepted. */
  lemma DocumentedPasswordIsValid()
    ensures IsValidPassword("FastChatPass1!")
  {
    var s := "FastChatPass1!";
    assert InClass(s[1], Lower) && InClass(s[0], Upper);
    assert InClass(s[12], Digit) && InClass(s[13], Symbol);
    SingleLineCharacterisation(s);
  }

  /** A password with every class on one line of nine characters is accepted. */
  lemma NineCharacterPasswordIsValid()
    ensures IsValidPassword("Abc12345!")
  {
    var s := "Abc12345!";
    assert InClass(s[1], Lower) && InClass(s[0], Upper);
    assert InClass(s[3], Digit) && InClass(s[8], Symbol);
    SingleLineCharacterisation(s);
  }

  /** Passwords missing an uppercase letter, or too short, are rejected. */
  lemma WeakPasswordExamples()
    ensures !IsValidPassword("abc12345")
    ensures !IsValidPassword("Ab1!")
  {
    var s := "abc12345";
    forall i | 0 <= i < |s| ensures !InClass(s[i], Upper) {}
  }

  /** Neither line of the example below passes on its own. */
  lemma EachLineFailsAlone()
    ensures !IsValidPassword("abcdefgh\n")
    ensures !IsValidPassword("ABCD123!")
  {
    var u, y := "abcdefgh\n", "ABCD123!";
    forall i | 0 <= i < |u| ensures !InClass(u[i], Upper) {}
    forall i | 0 <= i < |y| ensures !InClass(y[i], Lower) {}
  }

  /**
   * Every class and the length are present in the string as a whole, yet it
   * is rejected: the lowercase letters and the uppercase letters sit on
   * different lines.
   */
  lemma ClassesMustShareALine()
    ensures var s := "abcdefgh\nABCD123!";
      && |s| >= MinPasswordLength
      && Contains(s, Lower) && Contains(s, Upper)
      && Contains(s, Digit) && Contains(s, Symbol)
      && !IsValidPassword(s)
  {
    var s := "abcdefgh\nABCD123!";
    assert InClass(s[0], Lower) && InClass(s[9], Upper);
    assert InClass(s[13], Digit) && InClass(s[16], Symbol);
    assert s == "abcdefgh" + ['\n'] + "ABCD123!";
    CheckIsPerLine("abcdefgh", '\n', "ABCD123!");
    assert "abcdefgh" + ['\n'] == "abcdefgh\n";
    EachLineFailsAlone();
  }

  /**
   * A line terminator right after a line is itself the "symbol": the
   * password needs no punctuation when it ends with a newline.
   */
  lemma TerminatorCountsAsSymbol()
    ensures IsValidPassword("Abcdefg1\n")
  {
    var s := "Abcdefg1\n";
    assert DotsOnly(s, 0, 1) && InClass(s[1], Lower);
    assert DotsOnly(s, 0, 0) && InClass(s[0], Upper);
    assert DotsOnly(s, 0, 7) && InClass(s[7], Digit);
    assert DotsOnly(s, 0, 8) && InClass(s[8], Symbol);
    assert MatchesAt(s, 0);
  }
}
