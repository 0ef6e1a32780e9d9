/**
 * Input validation for registration and the login check (the `Validation`
 * class): three format checks written as the regular expressions the
 * application uses, the registration report built from them, and a login check
 * that records its outcome in `loginStatus`.
 */
module Validation {
  import opened JavaLang
  import opened JavaRegex
  import opened Records

  // ---------------------------------------------------------------------
  // The three format checks
  // ---------------------------------------------------------------------

  /** `[a-zA-Z0-9_]` */
  const WordClass: CharClass := Bracket([('a', 'z'), ('A', 'Z'), ('0', '9')], "_")
  /** `[A-Z]` */
  const UpperClass: CharClass := Bracket([('A', 'Z')], "")
  /** `\d`: ASCII digits, as Java reads it without UNICODE_CHARACTER_CLASS. */
  const DigitClass: CharClass := Bracket([('0', '9')], "")
  /** `[!@#_$%^&*()]` */
  const SpecialChars: string := "!@#_$%^&*()"
  const SpecialClass: CharClass := Bracket([], SpecialChars)

  /** `^[a-zA-Z0-9_]+$` */
  const UserNamePattern: Pattern := [Begin, Plus(WordClass), End]

  /** `.*c.*` */
  function Somewhere(c: CharClass): Pattern
  {
    [Star(AnyButLineTerminator), One(c), Star(AnyButLineTerminator)]
  }

  /** `\+27\d{9}` */
  function CellBody(): Pattern
  {
    [One(Exactly('+')), One(Exactly('2')), One(Exactly('7'))] + Repeat(One(DigitClass), 9)
  }

  /** `^\+27\d{9}$` */
  function CellPattern(): Pattern
  {
    [Begin] + CellBody() + [End]
  }

  predicate IsWordChar(ch: char)
  {
    'a' <= ch <= 'z' || 'A' <= ch <= 'Z' || '0' <= ch <= '9' || ch == '_'
  }

  predicate IsAsciiUpper(ch: char)
  {
    'A' <= ch <= 'Z'
  }

  /** A well-formed username: one to five characters from `[A-Za-z0-9_]`, at least one of them `_`. */
  predicate IsWellFormedUserName(s: string)
  {
    1 <= |s| <= 5 && '_' in s && forall k :: 0 <= k < |s| ==> IsWordChar(s[k])
  }

  /**
   * A complex password: at least eight UTF-16 code units long (a character
   * outside the Basic Multilingual Plane counts twice), among them an ASCII
   * capital, an ASCII digit and one of `!@#_$%^&*()`; and no line terminator,
   * because the `.` of `.*[A-Z].*` does not match one.
   */
  predicate IsComplexPassword(s: string)
  {
    Utf16Length(s) >= 8
    && (forall k :: 0 <= k < |s| ==> !IsLineTerminator(s[k]))
    && (exists k :: 0 <= k < |s| && IsAsciiUpper(s[k]))
    && (exists k :: 0 <= k < |s| && IsAsciiDigit(s[k]))
    && (exists k :: 0 <= k < |s| && s[k] in SpecialChars)
  }

  /** A South African cell number in international form: `+27` and then nine digits. */
  predicate IsSouthAfricanCellNumber(s: string)
  {
    |s| == 12 && s[..3] == "+27" && forall k :: 3 <= k < 12 ==> IsAsciiDigit(s[k])
  }
  /** All three fields of a registration are well formed. */
  predicate AcceptsRegistration(username: Option<string>, password: Option<string>, cellphoneNumber: Option<string>)
  {
    && username.Some? && IsWellFormedUserName(username.value)
    && password.Some? && IsComplexPassword(password.value)
    && cellphoneNumber.Some? && IsSouthAfricanCellNumber(cellphoneNumber.value)
  }


  lemma WordClassMembers(ch: char)
    ensures InClass(WordClass, ch) <==> IsWordChar(ch)
  {
    var r := WordClass.ranges;
    if 'a' <= ch <= 'z' { assert r[0].0 <= ch <= r[0].1; }
    if 'A' <= ch <= 'Z' { assert r[1].0 <= ch <= r[1].1; }
    if '0' <= ch <= '9' { assert r[2].0 <= ch <= r[2].1; }
  }

  lemma UpperClassMembers(ch: char)
    ensures InClass(UpperClass, ch) <==> IsAsciiUpper(ch)
  {
    if IsAsciiUpper(ch) { assert UpperClass.ranges[0].0 <= ch <= UpperClass.ranges[0].1; }
  }

  lemma DigitClassMembers(ch: char)
    ensures InClass(DigitClass, ch) <==> IsAsciiDigit(ch)
  {
    if IsAsciiDigit(ch) { assert DigitClass.ranges[0].0 <= ch <= DigitClass.ranges[0].1; }
  }

  lemma SpecialClassMembers(ch: char)
    ensures InClass(SpecialClass, ch) <==> ch in SpecialChars
  {
  }

  /** `s.matches("^[a-zA-Z0-9_]+$")` holds exactly for the non-empty strings over `[A-Za-z0-9_]`. */
  lemma UserNamePatternMeaning(s: string)
    ensures Matches(UserNamePattern, s) <==> s != [] && forall k :: 0 <= k < |s| ==> IsWordChar(s[k])
  {
    OneOrMore(WordClass, s);
    forall ch { WordClassMembers(ch); }
  }

  /** `s.matches(".*[A-Z].*")` and its two companions: a single line holding a character of the class. */
  lemma PasswordPatternsMeaning(s: string)
    ensures Matches(Somewhere(UpperClass), s)
            <==> SingleLine(s) && exists k :: 0 <= k < |s| && IsAsciiUpper(s[k])
    ensures Matches(Somewhere(DigitClass), s)
            <==> SingleLine(s) && exists k :: 0 <= k < |s| && IsAsciiDigit(s[k])
    ensures Matches(Somewhere(SpecialClass), s)
            <==> SingleLine(s) && exists k :: 0 <= k < |s| && s[k] in SpecialChars
  {
    forall ch ensures InClass(UpperClass, ch) <==> IsAsciiUpper(ch) { UpperClassMembers(ch); }
    forall ch ensures InClass(DigitClass, ch) <==> IsAsciiDigit(ch) { DigitClassMembers(ch); }
    forall ch ensures InClass(SpecialClass, ch) <==> ch in SpecialChars { SpecialClassMembers(ch); }
    ContainsClass(UpperClass, s);
    ContainsClass(DigitClass, s);
    ContainsClass(SpecialClass, s);
  }

  /** `\+27\d{9}` followed by `rest` matches exactly a cell number followed by what `rest` matches. */
  lemma CellBodyThen(rest: Pattern, s: string, atStart: bool)
    ensures Match(CellBody() + rest, s, atStart)
            <==> 12 <= |s| && s[..3] == "+27" && (forall k :: 3 <= k < 12 ==> IsAsciiDigit(s[k]))
                 && Match(rest, s[12..], false)
  {
    var digits := Repeat(One(DigitClass), 9) + rest;
    var p := CellBody() + rest;
    assert p == [One(Exactly('+')), One(Exactly('2')), One(Exactly('7'))] + digits;
    assert p[1..] == [One(Exactly('2')), One(Exactly('7'))] + digits;
    assert p[1..][1..] == [One(Exactly('7'))] + digits;
    assert p[1..][1..][1..] == digits;
    forall ch { DigitClassMembers(ch); }
    assert Match(p, s, atStart) == (s != [] && s[0] == '+' && Match(p[1..], s[1..], false));
    if s != [] {
      var s1 := s[1..];
      assert Match(p[1..], s1, false) == (s1 != [] && s1[0] == '2' && Match(p[1..][1..], s1[1..], false));
      if s1 != [] {
        var s2 := s1[1..];
        assert Match(p[1..][1..], s2, false) == (s2 != [] && s2[0] == '7' && Match(digits, s2[1..], false));
        if s2 != [] {
          assert s2[1..] == s[3..];
          RepeatOne(DigitClass, 9, rest, s[3..], false);
          if 12 <= |s| {
            assert s[3..][9..] == s[12..];
            forall k | 0 <= k < 9 ensures s[3..][k] == s[k + 3] { }
          }
          assert s[..3] == "+27" <==> s[0] == '+' && s[1] == '2' && s[2] == '7';
        }
      }
    }
  }

  /** With or without the anchors, the cell-number pattern accepts exactly the South African numbers. */
  lemma CellPatternMeaning(s: string)
    ensures Matches(CellPattern(), s) <==> IsSouthAfricanCellNumber(s)
    ensures Matches(CellBody(), s) <==> IsSouthAfricanCellNumber(s)
  {
    assert CellPattern() == [Begin] + (CellBody() + [End]);
    assert CellPattern()[1..] == CellBody() + [End];
    CellBodyThen([End], s, true);
    if 12 <= |s| { EndThenNothing(s[12..], false); }
    assert CellBody() + [] == CellBody();
    CellBodyThen([], s, true);
  }

  /**
   * `checkUserName`: non-null, non-empty, `length()` at most five, contains `_`,
   * matches `^[a-zA-Z0-9_]+$`. The pattern admits only ASCII, so the length in
   * code units is the number of characters.
   */
  function CheckUserName(username: Option<string>): (ok: bool)
    ensures ok <==> username.Some? && IsWellFormedUserName(username.value)
  {
    if username.None? then false
    else
      var s := username.value;
      ContainsChar(s, '_');
      Utf16LengthBasicPlane(s);
      UserNamePatternMeaning(s);
      |s| != 0 && Utf16Length(s) <= 5 && Contains(s, "_") && Matches(UserNamePattern, s)
  }

  /** `checkPasswordComplexity`: non-null, at least eight characters, and the three `.*c.*` patterns match. */
  function CheckPasswordComplexity(password: Option<string>): (ok: bool)
    ensures ok <==> password.Some? && IsComplexPassword(password.value)
  {
    if password.None? then false
    else
      var s := password.value;
      PasswordPatternsMeaning(s);
      Utf16Length(s) >= 8
      && Matches(Somewhere(UpperClass), s)
      && Matches(Somewhere(DigitClass), s)
      && Matches(Somewhere(SpecialClass), s)
  }

  /** `checkCellPhoneNumber`: non-null and matches `^\+27\d{9}$`. */
  function CheckCellPhoneNumber(cellphoneNumber: Option<string>): (ok: bool)
    ensures ok <==> cellphoneNumber.Some? && IsSouthAfricanCellNumber(cellphoneNumber.value)
  {
    if cellphoneNumber.None? then false
    else
      CellPatternMeaning(cellphoneNumber.value);
      Matches(CellPattern(), cellphoneNumber.value)
  }

  /** The usernames the application's test suite accepts and rejects. */
  lemma UserNameExamples()
    ensures CheckUserName(Some("user_")) && CheckUserName(Some("a_b"))
    ensures !CheckUserName(Some("us_er_")) && !CheckUserName(Some("user")) && !CheckUserName(Some(""))
    ensures !CheckUserName(None)
  {
    assert "user_"[4] == '_' && "a_b"[1] == '_';
    assert forall k :: 0 <= k < 4 ==> "user"[k] != '_';
  }

  /** A single-line password of eight or more code units passes once a capital, a digit and a special character are found in it. */
  lemma ComplexPasswordWitness(s: string, upper: nat, digit: nat, special: nat)
    requires Utf16Length(s) >= 8 && SingleLine(s)
    requires upper < |s| && IsAsciiUpper(s[upper])
    requires digit < |s| && IsAsciiDigit(s[digit])
    requires special < |s| && s[special] in SpecialChars
    ensures CheckPasswordComplexity(Some(s))
  {
    assert IsComplexPassword(s) by {
      assert forall k :: 0 <= k < |s| ==> InClass(AnyButLineTerminator, s[k]);
    }
  }

  /** A password the application's test suite accepts. */
  lemma PasswordExampleAccepted()
    ensures CheckPasswordComplexity(Some("A1!aaaaa"))
  {
    ComplexPasswordWitness("A1!aaaaa", 0, 1, 2);
  }

  /** No lowercase letter is required: `AAAAAAA1!` passes. */
  // The string arrives as a parameter pinned by `requires` rather than as a literal
  // in the ensures, so that the verifier does not unfold the checks on it eagerly.
  lemma PasswordExampleWithoutLowercase(caps: string)
    requires caps == "AAAAAAA1!"
    ensures CheckPasswordComplexity(Some(caps))
  {
    ComplexPasswordWitness(caps, 0, 7, 8);
  }

  /** Passwords the application's test suite rejects: too short, and without a special character. */
  lemma PasswordExamplesRejected()
    ensures !CheckPasswordComplexity(Some("Short1!")) && !CheckPasswordComplexity(None)
    ensures !CheckPasswordComplexity(Some("Password123"))
  {
    var noSpecial := "Password123";
    assert forall k :: 0 <= k < |noSpecial| ==> noSpecial[k] !in SpecialChars;
  }

  /**
   * `length()` counts UTF-16 code units: seven characters, one of them outside
   * the Basic Multilingual Plane, are long enough.
   */
  lemma PasswordLengthInCodeUnits()
    ensures CheckPasswordComplexity(Some("A1!aa\U{1F600}a"))
  {
    var p := "A1!aa\U{1F600}a";
    assert Utf16Length(p) == 8 by {
      assert IsSupplementary(p[5]);
      assert p[1..][1..][1..][1..][1..] == "\U{1F600}a";
    }
    ComplexPasswordWitness(p, 0, 1, 2);
  }

  /** The cell numbers the application's test suite accepts and rejects. */
  lemma CellNumberExamples()
    ensures CheckCellPhoneNumber(Some("+27123456789"))
    ensures !CheckCellPhoneNumber(Some("07123456789")) && !CheckCellPhoneNumber(Some("+2712345678"))
    ensures !CheckCellPhoneNumber(Some("+271234567890")) && !CheckCellPhoneNumber(None)
  {
    assert "+27123456789"[..3] == "+27";
  }

  // ---------------------------------------------------------------------
  // The registration report
  // ---------------------------------------------------------------------

  // The longer sentences are written as concatenations of short literals: the
  // verifier reasons about a literal character by character only up to about
  // 32 characters, and the proofs below need to look inside every sentence.
  const UserNameAccepted: string := "Username is correctly formatted."
  const UserNameRejected: string :=
    "Username is not correctly " + "formatted, please ensure that " + "your username contains an "
    + "underscore and is no more than " + "five characters in length."
  const PasswordAccepted: string := "Password is correctly formatted."
  const PasswordRejected: string :=
    "Password is not correctly " + "formatted, please ensure that " + "the password contains at least "
    + "eight characters, a capital " + "letter, a number, and a special " + "character."
  const CellAccepted: string := "Cell number successfully " + "captured."
  const CellRejected: string :=
    "Cell number is incorrectly " + "formatted or does not contain " + "an international code, please "
    + "correct the number and try again"
  const Registered: string := "User registered successfully."
  const FixErrors: string := "Fix the errors " + "above and try again."

  function UserNameLine(ok: bool): string { if ok then UserNameAccepted else UserNameRejected }
  function PasswordLine(ok: bool): string { if ok then PasswordAccepted else PasswordRejected }
  function CellLine(ok: bool): string { if ok then CellAccepted else CellRejected }
  function Summary(ok: bool): string { if ok then Registered else "\n" + FixErrors }

  /** The report laid out line by line: one sentence per field, each on its own line, then the verdict. */
  function Report(userOk: bool, passwordOk: bool, cellOk: bool): string
  {
    UserNameLine(userOk) + "\n" + PasswordLine(passwordOk) + "\n" + CellLine(cellOk) + "\n"
    + Summary(userOk && passwordOk && cellOk)
  }

  /** The report starts with `U` and ends with `.`, so `trim` leaves it as it is. */
  lemma ReportIsTrimmed(u: bool, p: bool, c: bool)
    ensures Trim(Report(u, p, c)) == Report(u, p, c)
  {
    var r := Report(u, p, c);
    var head := UserNameLine(u) + "\n" + PasswordLine(p) + "\n" + CellLine(c) + "\n";
    var tail := Summary(u && p && c);
    assert r == head + tail;
    assert r[0] == 'U';
    assert tail[|tail| - 1] == '.';
    assert r[|r| - 1] == tail[|tail| - 1];
    TrimKeeps(r);
  }

  /**
   * `registerUser`: one sentence per check, each followed by a newline, then
   * the success sentence when every sentence is the accepting one and the
   * request to fix the errors otherwise, all trimmed.
   */
  function RegisterUser(username: Option<string>, password: Option<string>, cellphoneNumber: Option<string>): (report: string)
    ensures report == Report(CheckUserName(username), CheckPasswordComplexity(password), CheckCellPhoneNumber(cellphoneNumber))
  {
    var usernameMessage := if CheckUserName(username) then UserNameAccepted else UserNameRejected;
    var passwordMessage := if CheckPasswordComplexity(password) then PasswordAccepted else PasswordRejected;
    var phoneMessage := if CheckCellPhoneNumber(cellphoneNumber) then CellAccepted else CellRejected;
    var allValid := usernameMessage == UserNameAccepted && passwordMessage == PasswordAccepted
                    && phoneMessage == CellAccepted;
    var messages := usernameMessage + "\n" + passwordMessage + "\n" + phoneMessage + "\n"
                    + (if allValid then Registered else "\n" + FixErrors);
    ReportIsTrimmed(CheckUserName(username), CheckPasswordComplexity(password), CheckCellPhoneNumber(cellphoneNumber));
    Trim(messages)
  }

  /** Where the lines of a report sit: each line, and the verdict, occurs in the whole. */
  lemma {:induction false} LinesOccur(l1: string, l2: string, l3: string, verdict: string)
    ensures var r := l1 + "\n" + l2 + "\n" + l3 + "\n" + verdict;
            Contains(r, l1) && Contains(r, l2) && Contains(r, l3) && Contains(r, verdict)
  {
    var r := l1 + "\n" + l2 + "\n" + l3 + "\n" + verdict;
    assert r == [] + l1 + ("\n" + l2 + "\n" + l3 + "\n" + verdict);
    ContainsInfix([], l1, "\n" + l2 + "\n" + l3 + "\n" + verdict);
    assert r == (l1 + "\n") + l2 + ("\n" + l3 + "\n" + verdict);
    ContainsInfix(l1 + "\n", l2, "\n" + l3 + "\n" + verdict);
    assert r == (l1 + "\n" + l2 + "\n") + l3 + ("\n" + verdict);
    ContainsInfix(l1 + "\n" + l2 + "\n", l3, "\n" + verdict);
    assert r == (l1 + "\n" + l2 + "\n" + l3 + "\n") + verdict + [];
    ContainsInfix(l1 + "\n" + l2 + "\n" + l3 + "\n", verdict, []);
  }

  /** A text without newlines that is in no line of a report is not in the report. */
  lemma {:induction false} AbsentFromLines(l1: string, l2: string, l3: string, fix: string, t: string)
    requires '\n' !in t
    requires !Contains(l1, t) && !Contains(l2, t) && !Contains(l3, t) && !Contains(fix, t) && !Contains([], t)
    ensures !Contains(l1 + "\n" + l2 + "\n" + l3 + "\n" + ("\n" + fix), t)
  {
    NotContainsAcrossSeparator(l1, '\n', l2, t);
    NotContainsAcrossSeparator(l1 + "\n" + l2, '\n', l3, t);
    NotContainsAcrossSeparator(l1 + "\n" + l2 + "\n" + l3, '\n', [], t);
    NotContainsAcrossSeparator(l1 + "\n" + l2 + "\n" + l3 + "\n" + [], '\n', fix, t);
    assert l1 + "\n" + l2 + "\n" + l3 + "\n" + ("\n" + fix)
           == l1 + "\n" + l2 + "\n" + l3 + "\n" + [] + "\n" + fix;
  }

  // Character facts about the sentences, one sentence per lemma so that each stays small.

  lemma LeadingPieceOfUserNameRejected()
    ensures 'U' !in "Username is not correctly "[1..]
  {
  }

  lemma OneCapitalUInUserNameRejected()
    ensures 'U' !in UserNameRejected[1..]
  {
    LeadingPieceOfUserNameRejected();
  }

  lemma NoCapitalUInPasswordAccepted() ensures 'U' !in PasswordAccepted { }
  lemma NoCapitalUInPasswordRejected()
    ensures 'U' !in PasswordRejected
  {
    assert 'U' !in "Password is not correctly " && 'U' !in "formatted, please ensure that ";
    assert 'U' !in "the password contains at least " && 'U' !in "eight characters, a capital ";
    assert 'U' !in "letter, a number, and a special " && 'U' !in "character.";
  }
  lemma NoCapitalUInCellAccepted() ensures 'U' !in CellAccepted { }
  lemma NoCapitalUInCellRejected()
    ensures 'U' !in CellRejected
  {
    assert 'U' !in "Cell number is incorrectly " && 'U' !in "formatted or does not contain ";
    assert 'U' !in "an international code, please " && 'U' !in "correct the number and try again";
  }
  lemma NoCapitalUInFixErrors() ensures 'U' !in FixErrors { }
  lemma NoCapitalFInUserNameAccepted() ensures 'F' !in UserNameAccepted { }
  lemma NoCapitalFInPasswordAccepted() ensures 'F' !in PasswordAccepted { }
  lemma NoCapitalFInCellAccepted() ensures 'F' !in CellAccepted { }
  lemma NoCapitalFInRegistered() ensures 'F' !in Registered { }

  const RegisteredStem: string := "User registered successfully"

  lemma RegisteredNotInUserNameLine(u: bool)
    ensures !Contains(UserNameLine(u), RegisteredStem)
  {
    var needle := RegisteredStem;
    if u {
      assert 'g' !in UserNameAccepted && needle[7] == 'g';
      NotContainsMissingChar(UserNameAccepted, needle, 'g');
    } else {
      OneCapitalUInUserNameRejected();
      assert UserNameRejected[4] == 'n' && needle[4] == ' ' && needle[0] == 'U';
      NotContainsLeadingCharOnlyAtStart(UserNameRejected, needle);
    }
  }

  lemma RegisteredNotInPasswordLine(p: bool)
    ensures !Contains(PasswordLine(p), RegisteredStem)
  {
    assert RegisteredStem[0] == 'U';
    if p {
      NoCapitalUInPasswordAccepted();
    } else {
      NoCapitalUInPasswordRejected();
    }
    NotContainsMissingChar(PasswordLine(p), RegisteredStem, 'U');
  }

  lemma RegisteredNotInCellLine(c: bool)
    ensures !Contains(CellLine(c), RegisteredStem)
  {
    assert RegisteredStem[0] == 'U';
    if c {
      NoCapitalUInCellAccepted();
    } else {
      NoCapitalUInCellRejected();
    }
    NotContainsMissingChar(CellLine(c), RegisteredStem, 'U');
  }

  /** A report that asks to fix the errors does not contain the success sentence. */
  lemma RejectedReportLacksRegistered(u: bool, p: bool, c: bool)
    requires !(u && p && c)
    ensures !Contains(Report(u, p, c), RegisteredStem)
  {
    RegisteredNotInUserNameLine(u);
    RegisteredNotInPasswordLine(p);
    RegisteredNotInCellLine(c);
    assert RegisteredStem[0] == 'U';
    NoCapitalUInFixErrors();
    NotContainsMissingChar(FixErrors, RegisteredStem, 'U');
    NotContainsMissingChar([], RegisteredStem, 'U');
    assert '\n' !in RegisteredStem;
    AbsentFromLines(UserNameLine(u), PasswordLine(p), CellLine(c), FixErrors, RegisteredStem);
  }

  /** A report of three accepted fields has no `F`, so it cannot ask to fix anything. */
  lemma AcceptedReportLacksFix()
    ensures !Contains(Report(true, true, true), FixErrors)
  {
    NoCapitalFInUserNameAccepted();
    NoCapitalFInPasswordAccepted();
    NoCapitalFInCellAccepted();
    NoCapitalFInRegistered();
    var r := Report(true, true, true);
    assert r == UserNameAccepted + "\n" + PasswordAccepted + "\n" + CellAccepted + "\n" + Registered;
    assert 'F' !in r;
    assert FixErrors[0] == 'F';
    NotContainsMissingChar(r, FixErrors, 'F');
  }

  /** A report of three accepted fields ends with the success sentence. */
  lemma AcceptedReportHasRegistered()
    ensures Contains(Report(true, true, true), Registered)
    ensures Contains(Report(true, true, true), RegisteredStem)
  {
    var l1, l2, l3 := UserNameLine(true), PasswordLine(true), CellLine(true);
    assert Report(true, true, true) == l1 + "\n" + l2 + "\n" + l3 + "\n" + Registered;
    LinesOccur(l1, l2, l3, Registered);
    assert Registered == RegisteredStem + ".";
    ContainsPrefixOfNeedle(Report(true, true, true), RegisteredStem, ".");
  }

  /** A report with a rejected field contains neither form of the success sentence. */
  lemma RejectedReportLacksRegisteredSentence(u: bool, p: bool, c: bool)
    requires !(u && p && c)
    ensures !Contains(Report(u, p, c), Registered) && !Contains(Report(u, p, c), RegisteredStem)
  {
    RejectedReportLacksRegistered(u, p, c);
    assert Registered == RegisteredStem + ".";
    if Contains(Report(u, p, c), Registered) {
      ContainsPrefixOfNeedle(Report(u, p, c), RegisteredStem, ".");
    }
  }

  /** A report with a rejected field ends with the request to fix the errors. */
  lemma RejectedReportHasFix(u: bool, p: bool, c: bool)
    requires !(u && p && c)
    ensures Contains(Report(u, p, c), FixErrors)
  {
    var l1, l2, l3 := UserNameLine(u), PasswordLine(p), CellLine(c);
    var verdict := "\n" + FixErrors;
    assert Report(u, p, c) == l1 + "\n" + l2 + "\n" + l3 + "\n" + verdict;
    LinesOccur(l1, l2, l3, verdict);
    ContainsInfix("\n", FixErrors, []);
    assert "\n" + FixErrors + [] == verdict;
    ContainsTransitive(Report(u, p, c), verdict, FixErrors);
  }

  /** Both forms of the success sentence are in a report exactly when all three fields were accepted. */
  lemma ReportAnnouncesSuccessIff(u: bool, p: bool, c: bool)
    ensures Contains(Report(u, p, c), Registered) <==> u && p && c
    ensures Contains(Report(u, p, c), RegisteredStem) <==> u && p && c
  {
    if u && p && c {
      AcceptedReportHasRegistered();
    } else {
      RejectedReportLacksRegisteredSentence(u, p, c);
    }
  }

  /** A report asks to fix the errors exactly when some field was rejected. */
  lemma ReportAsksForFixIff(u: bool, p: bool, c: bool)
    ensures Contains(Report(u, p, c), FixErrors) <==> !(u && p && c)
  {
    if u && p && c {
      AcceptedReportLacksFix();
    } else {
      RejectedReportHasFix(u, p, c);
    }
  }

  /**
   * The success sentence ("User registered successfully." and the shorter form
   * the account store looks for) appears in the report exactly when all three
   * checks pass.
   */
  lemma RegistrationSucceedsIff(username: Option<string>, password: Option<string>, cellphoneNumber: Option<string>)
    ensures var ok := CheckUserName(username) && CheckPasswordComplexity(password) && CheckCellPhoneNumber(cellphoneNumber);
            (Contains(RegisterUser(username, password, cellphoneNumber), Registered) <==> ok)
            && (Contains(RegisterUser(username, password, cellphoneNumber), RegisteredStem) <==> ok)
  {
    ReportAnnouncesSuccessIff(CheckUserName(username), CheckPasswordComplexity(password), CheckCellPhoneNumber(cellphoneNumber));
  }

  /** The request to fix the errors appears exactly when some check fails; so the two verdicts never appear together. */
  lemma RegistrationFixIff(username: Option<string>, password: Option<string>, cellphoneNumber: Option<string>)
    ensures var ok := CheckUserName(username) && CheckPasswordComplexity(password) && CheckCellPhoneNumber(cellphoneNumber);
            Contains(RegisterUser(username, password, cellphoneNumber), FixErrors) <==> !ok
  {
    ReportAsksForFixIff(CheckUserName(username), CheckPasswordComplexity(password), CheckCellPhoneNumber(cellphoneNumber));
  }

  /** Each field's own sentence, accepting or rejecting by that field's check alone, is in the report. */
  lemma RegistrationLines(username: Option<string>, password: Option<string>, cellphoneNumber: Option<string>)
    ensures var r := RegisterUser(username, password, cellphoneNumber);
            Contains(r, if CheckUserName(username) then UserNameAccepted else UserNameRejected)
            && Contains(r, if CheckPasswordComplexity(password) then PasswordAccepted else PasswordRejected)
            && Contains(r, if CheckCellPhoneNumber(cellphoneNumber) then CellAccepted else CellRejected)
  {
    var u, p, c := CheckUserName(username), CheckPasswordComplexity(password), CheckCellPhoneNumber(cellphoneNumber);
    var r := RegisterUser(username, password, cellphoneNumber);
    var l1, l2, l3 := UserNameLine(u), PasswordLine(p), CellLine(c);
    assert r == l1 + "\n" + l2 + "\n" + l3 + "\n" + Summary(u && p && c);
    LinesOccur(l1, l2, l3, Summary(u && p && c));
  }

  // ---------------------------------------------------------------------
  // Login
  // ---------------------------------------------------------------------

  /** `users.get(username).getPassword()` would dereference null: every stored account has a password. */
  predicate PasswordsPresent(users: map<string, User>)
  {
    forall name :: name in users ==> users[name].password.Some?
  }

  /** `loginUser` succeeds: the username is a key and that account's password equals the given one. */
  predicate Authenticates(username: Option<string>, password: Option<string>, users: map<string, User>)
  {
    username.Some? && username.value in users && users[username.value].password == password
  }

  const NoSuchUser: string := "Username does not exist."
  const WrongPassword: string := "Incorrect password."
  const Welcome: string := "Login successful. Welcome, "

  /** The status `loginUser` records for one attempt. */
  function LoginStatusFor(username: Option<string>, password: Option<string>, users: map<string, User>): string
  {
    if username.None? || username.value !in users then NoSuchUser
    else if users[username.value].password != password then WrongPassword
    else Welcome + ValueOf(users[username.value].name) + "!"
  }

  /** The status tells the three outcomes apart: it welcomes the user exactly when the login succeeds. */
  lemma LoginStatusMeaning(username: Option<string>, password: Option<string>, users: map<string, User>)
    ensures var status := LoginStatusFor(username, password, users);
            (Authenticates(username, password, users) <==> |Welcome| <= |status| && status[..|Welcome|] == Welcome)
            && (status == NoSuchUser <==> username.None? || username.value !in users)
            && (status == WrongPassword <==> username.Some? && username.value in users && users[username.value].password != password)
  {
    var status := LoginStatusFor(username, password, users);
    assert NoSuchUser[0] == 'U' && WrongPassword[0] == 'I' && Welcome[0] == 'L';
    if Authenticates(username, password, users) {
      assert status[..|Welcome|] == Welcome;
      assert status != NoSuchUser && status != WrongPassword by {
        assert status[0] == 'L';
      }
    }
  }

  /** The `Validation` object: it remembers the status of the last login attempt. */
  class LoginValidator {
    var loginStatus: string

    constructor()
      ensures loginStatus == ""
    {
      loginStatus := "";
    }

    /** `loginUser`: succeeds exactly when the account exists and the password matches; records why. */
    method LoginUser(username: Option<string>, password: Option<string>, users: map<string, User>) returns (ok: bool)
      requires username.Some? && username.value in users ==> users[username.value].password.Some?
      modifies this
      ensures ok <==> Authenticates(username, password, users)
      ensures loginStatus == LoginStatusFor(username, password, users)
    {
      if username.None? || username.value !in users {
        loginStatus := NoSuchUser;
        return false;
      }
      var user := users[username.value];
      var stored := user.password.value;  // a null stored password would throw here
      if password != Some(stored) {
        loginStatus := WrongPassword;
        return false;
      }
      loginStatus := Welcome + ValueOf(user.name) + "!";
      return true;
    }

    /** `returnLoginStatus`: the status of the last attempt, "" before any. */
    method ReturnLoginStatus() returns (status: string)
      ensures status == loginStatus
    {
      status := loginStatus;
    }
  }
}
