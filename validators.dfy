/** The four patterns of `VALIDATORS`, as predicates on the trimmed value of
    a field.

    The regular-expression literals of the script have lost the backslashes of
    `\s`, `\d` and `\.`. As written, the name class `[a-zA-ZÀ-ÿs-']` and the
    phone class `[ds+-()]` hold out-of-order ranges (`s-'` and `+-(`), which
    a JavaScript engine refuses, and the email pattern `^[^s@]+@[^s@]+.[^s@]+$`
    excludes the letter `s` but not whitespace and lets its `.` match any
    character. The predicates below state the evident intent, with the
    backslashes restored; EmailAsWritten keeps the email pattern as written
    so that the two can be compared. The message pattern `^.{10,}$` is intact
    and is modelled as written. */
module Validators {
  import opened JsText

  /** `[a-zA-ZÀ-ÿ\s\-']`: ASCII letters, U+00C0 to U+00FF (which takes in
      U+00D7 and U+00F7 too), whitespace, hyphen and apostrophe. */
  predicate IsNameChar(c: char) {
    ('a' <= c <= 'z') || ('A' <= c <= 'Z') || ('\U{00C0}' <= c <= '\U{00FF}')
    || IsWhitespace(c) || c == '-' || c == '\''
  }

  /** Every character is in the name class. */
  predicate NameChars(s: string) {
    forall k :: 0 <= k < |s| ==> IsNameChar(s[k])
  }

  /** `^[a-zA-ZÀ-ÿ\s\-']{2,50}$`; the repetition counts UTF-16 code units. */
  predicate NameValid(s: string) {
    && 2 <= Utf16Length(s) <= 50
    && NameChars(s)
  }

  /** `[\d\s+\-()]`: decimal digits, whitespace, plus, hyphen, parentheses. */
  predicate IsPhoneChar(c: char) {
    ('0' <= c <= '9') || IsWhitespace(c) || c == '+' || c == '-' || c == '(' || c == ')'
  }

  /** Every character is in the phone class. */
  predicate PhoneChars(s: string) {
    forall k :: 0 <= k < |s| ==> IsPhoneChar(s[k])
  }

  /** `^[\d\s+\-()]{10,20}$`. */
  predicate PhoneValid(s: string) {
    && 10 <= Utf16Length(s) <= 20
    && PhoneChars(s)
  }

  /** `[^\s@]`. */
  predicate IsEmailChar(c: char) {
    !IsWhitespace(c) && c != '@'
  }

  /** `[^\s@]+`. */
  predicate EmailRun(t: string) {
    |t| > 0 && forall k :: 0 <= k < |t| ==> IsEmailChar(t[k])
  }

  /** The email pattern matching with its `@` at i and its `.` at j. */
  predicate EmailSplit(s: string, i: int, j: int) {
    && 0 < i < j < |s|
    && s[i] == '@' && s[j] == '.'
    && EmailRun(s[..i]) && EmailRun(s[i + 1..j]) && EmailRun(s[j + 1..])
  }

  /** `^[^\s@]+@[^\s@]+\.[^\s@]+$`: a run, `@` at i, a run, `.` at j, a run. */
  predicate EmailValid(s: string) {
    exists i, j | 0 < i < j < |s| :: EmailSplit(s, i, j)
  }

  /** `^.{10,}$`: at least ten UTF-16 code units, none of them a line
      terminator, since `.` does not match one. */
  predicate MessageValid(s: string) {
    && Utf16Length(s) >= 10
    && forall k :: 0 <= k < |s| ==> !IsLineTerminator(s[k])
  }

  /** The email shape in plain words: no whitespace, exactly one `@`, not at
      the start, and after it a `.` with at least one character on each side. */
  predicate EmailShape(s: string) {
    && NoWhitespace(s)
    && exists i :: 0 < i < |s| && s[i] == '@'
         && (forall k :: 0 <= k < |s| && k != i ==> s[k] != '@')
         && (exists j :: i + 1 < j < |s| - 1 && s[j] == '.')
  }

  /** Every string the email pattern accepts has the plain-words shape. */
  lemma EmailValidShape(s: string)
    requires EmailValid(s)
    ensures EmailShape(s)
  {
    var i, j :| 0 < i < j < |s| && EmailSplit(s, i, j);
    assert EmailRun(s[..i]) && EmailRun(s[i + 1..j]) && EmailRun(s[j + 1..]);
    forall k | 0 <= k < |s| && k != i
      ensures IsEmailChar(s[k])
    {
      if k < i {
        assert s[k] == s[..i][k];
      } else if k < j {
        assert s[k] == s[i + 1..j][k - i - 1];
      } else if k > j {
        assert s[k] == s[j + 1..][k - j - 1];
      }
    }
    assert i + 1 < j < |s| - 1;
  }

  /** Every string of the plain-words shape is accepted by the email pattern. */
  lemma ShapeEmailValid(s: string)
    requires EmailShape(s)
    ensures EmailValid(s)
  {
    var i :| 0 < i < |s| && s[i] == '@'
      && (forall k :: 0 <= k < |s| && k != i ==> s[k] != '@')
      && (exists j :: i + 1 < j < |s| - 1 && s[j] == '.');
    var j :| i + 1 < j < |s| - 1 && s[j] == '.';
    assert forall k :: 0 <= k < |s| && k != i ==> IsEmailChar(s[k]);
    assert EmailRun(s[..i]);
    assert EmailRun(s[i + 1..j]);
    assert EmailRun(s[j + 1..]);
    assert EmailSplit(s, i, j);
  }

  /** The email pattern accepts exactly the strings of the plain-words shape. */
  lemma EmailValidIff(s: string)
    ensures EmailValid(s) <==> EmailShape(s)
  {
    if EmailValid(s) { EmailValidShape(s); }
    if EmailShape(s) { ShapeEmailValid(s); }
  }

  /** A run of name characters has no astral character, so its JavaScript
      length is its number of characters. */
  lemma NameCharsLength(s: string)
    requires NameChars(s)
    ensures Utf16Length(s) == |s|
  {
    assert forall k :: 0 <= k < |s| ==> !IsAstral(s[k]);
    Utf16LengthBmp(s);
  }

  /** A run of phone characters has no astral character either. */
  lemma PhoneCharsLength(s: string)
    requires PhoneChars(s)
    ensures Utf16Length(s) == |s|
  {
    assert forall k :: 0 <= k < |s| ==> !IsAstral(s[k]);
    Utf16LengthBmp(s);
  }

  /** A valid name has between 2 and 50 characters. */
  lemma NameBounds(s: string)
    requires NameValid(s)
    ensures 2 <= |s| <= 50
  {
    NameCharsLength(s);
  }

  /** A valid phone number has between 10 and 20 characters. */
  lemma PhoneBounds(s: string)
    requires PhoneValid(s)
    ensures 10 <= |s| <= 20
  {
    PhoneCharsLength(s);
  }

  /** `{10,}` counts UTF-16 code units, so a valid message may have as few
      as five characters when each is outside the Basic Multilingual Plane,
      and has at least ten when none is. */
  lemma MessageLength(s: string)
    requires MessageValid(s)
    ensures |s| >= 5
    ensures (forall k :: 0 <= k < |s| ==> !IsAstral(s[k])) ==> |s| >= 10
  {
    Utf16LengthBmp(s);
  }

  /** Two runs of name characters make one. */
  lemma NameCharsAppend(a: string, b: string)
    requires NameChars(a) && NameChars(b)
    ensures NameChars(a + b)
  {
    assert forall k :: |a| <= k < |a + b| ==> (a + b)[k] == b[k - |a|];
  }

  /** Every character of "Anna-Maria O'Brien" is in the name class. */
  lemma NameExampleChars()
    ensures NameChars("Anna-Maria O'Brien")
  {
    assert NameChars("Anna-") && NameChars("Maria") && NameChars(" O'Br") && NameChars("ien");
    NameCharsAppend("Anna-", "Maria");
    NameCharsAppend("Anna-Maria", " O'Br");
    NameCharsAppend("Anna-Maria O'Br", "ien");
  }

  /** The name pattern accepts "Anna-Maria O'Brien". */
  lemma NameAcceptsExample()
    ensures NameValid("Anna-Maria O'Brien")
  {
    NameExampleChars();
    NameCharsLength("Anna-Maria O'Brien");
  }

  /** The name pattern refuses a single letter and a name holding a digit. */
  lemma NameRefusesExamples()
    ensures !NameValid("A") && !NameValid("Anna1")
  {
    assert "Anna1"[4] == '1';
  }

  /** Two runs of phone characters make one. */
  lemma PhoneCharsAppend(a: string, b: string)
    requires PhoneChars(a) && PhoneChars(b)
    ensures PhoneChars(a + b)
  {
    assert forall k :: |a| <= k < |a + b| ==> (a + b)[k] == b[k - |a|];
  }

  /** Every character of "+49 (0)30 1234567" is in the phone class. */
  lemma PhoneExampleChars()
    ensures PhoneChars("+49 (0)30 1234567")
  {
    assert PhoneChars("+49 (") && PhoneChars("0)30 ") && PhoneChars("12345") && PhoneChars("67");
    PhoneCharsAppend("+49 (", "0)30 ");
    PhoneCharsAppend("+49 (0)30 ", "12345");
    PhoneCharsAppend("+49 (0)30 12345", "67");
  }

  /** The phone pattern accepts "+49 (0)30 1234567". */
  lemma PhoneAcceptsExample()
    ensures PhoneValid("+49 (0)30 1234567")
  {
    PhoneExampleChars();
    PhoneCharsLength("+49 (0)30 1234567");
  }

  /** The phone pattern refuses "12345", which is too short. */
  lemma PhoneRefusesShort()
    ensures !PhoneValid("12345")
  {
    assert Utf16Length("12345") <= 10;
  }

  /** Ten characters are enough for a message. */
  lemma MessageAcceptsTen()
    ensures MessageValid("0123456789")
  {
    var s := "0123456789";
    assert forall k :: 0 <= k < |s| ==> !IsLineTerminator(s[k]) && !IsAstral(s[k]);
    Utf16LengthBmp(s);
  }

  /** Nine characters are not. */
  lemma MessageRefusesNine()
    ensures !MessageValid("012345678")
  {
    var s := "012345678";
    assert forall k :: 0 <= k < |s| ==> !IsAstral(s[k]);
    Utf16LengthBmp(s);
  }

  /** The email pattern accepts "a@b.co". */
  lemma EmailAcceptsExample()
    ensures EmailValid("a@b.co")
  {
    var s := "a@b.co";
    assert s[1] == '@' && s[3] == '.' && s[..1] == "a" && s[2..3] == "b" && s[4..] == "co";
    assert EmailSplit(s, 1, 3);
  }

  /** The email pattern refuses an address holding a space and one without `@`. */
  lemma EmailRefusesExamples()
    ensures !EmailValid("a b@c.d") && !EmailValid("noatsign.com")
  {
    EmailValidIff("a b@c.d");
    assert "a b@c.d"[1] == ' ';
    EmailValidIff("noatsign.com");
  }

  /** `[^s@]`, the class as written: anything but the letter `s` and `@`. */
  predicate LiteralRun(t: string) {
    |t| > 0 && forall k :: 0 <= k < |t| ==> t[k] != 's' && t[k] != '@'
  }

  /** `^[^s@]+@[^s@]+.[^s@]+$`, the email pattern as the script writes it:
      the `.` at j is any character except a line terminator. Characters are
      matched whole here, while the pattern (it has no `u` flag) matches UTF-16
      code units: there the `.` and the last run may split one character
      outside the Basic Multilingual Plane, so the literal accepts `a@b😀`,
      which this predicate refuses. */
  predicate EmailAsWritten(s: string) {
    exists i, j | 0 < i < j < |s| ::
      && s[i] == '@' && !IsLineTerminator(s[j])
      && LiteralRun(s[..i]) && LiteralRun(s[i + 1..j]) && LiteralRun(s[j + 1..])
  }

  /** The pattern as written refuses an address holding the letter `s`
      before its `@`, which the intended pattern accepts. */
  lemma EmailAsWrittenRefusesS()
    ensures EmailValid("sam@example.com") && !EmailAsWritten("sam@example.com")
  {
    var e := "sam@example.com";
    assert e[3] == '@' && e[11] == '.' && e[..3] == "sam" && e[4..11] == "example" && e[12..] == "com";
    assert EmailSplit(e, 3, 11);
    assert forall i | 0 < i < |e| :: e[..i][0] == 's';
  }

  /** The pattern as written accepts an address with no dot after its `@`,
      which the intended pattern refuses. */
  lemma EmailAsWrittenAcceptsNoDot()
    ensures EmailAsWritten("ab@cde") && !EmailValid("ab@cde")
  {
    var w := "ab@cde";
    assert w[2] == '@' && w[4] == 'd' && w[..2] == "ab" && w[3..4] == "c" && w[5..] == "e";
    assert LiteralRun(w[..2]) && LiteralRun(w[3..4]) && LiteralRun(w[5..]);
    EmailValidIff(w);
  }

  /** The pattern as written accepts an address holding a space, which the
      intended pattern refuses. */
  lemma EmailAsWrittenAcceptsSpace()
    ensures EmailAsWritten("a b@c.d") && !EmailValid("a b@c.d")
  {
    var v := "a b@c.d";
    assert v[3] == '@' && v[5] == '.' && v[..3] == "a b" && v[4..5] == "c" && v[6..] == "d";
    assert LiteralRun(v[..3]) && LiteralRun(v[4..5]) && LiteralRun(v[6..]);
    EmailRefusesExamples();
  }
}
