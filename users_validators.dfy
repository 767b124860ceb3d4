/** The field validators of backend/users/validators.py. Each runs its checks
    in a fixed order, fails with the first failing check's message and returns
    its input unchanged on success.

    Character classes follow Python's `re` on ASCII input: `\d` is 0-9, `\w`
    is letters, digits and `_`, `\s` is the ASCII whitespace Python recognises
    (tab to carriage return, the four separators 0x1C-0x1F, and space). `$`
    matches at the end of the string or before one final newline, as in Python. */
module Validators {
  import opened Common

  const UsernameTooShort := "Username must be at least 5 characters long."
  const UsernameBadChars := "Username must contain only alphanumeric characters and underscores."
  const PasswordTooShort := "Password must be at least 8 characters long."
  const PasswordNoDigit := "Password must contain at least one number."
  const PasswordNoUpper := "Password must contain at least one uppercase letter."
  const PasswordNoLower := "Password must contain at least one lowercase letter."
  const PasswordNoSpecial := "Password must contain at least one special character."
  const NameTooShort := "Name must be at least 2 characters long."
  const NameBadChars := "Name must contain only alphabetic characters."
  const YearTooEarly := "Year must be greater than 1900."
  const DateBadFormat := "Date has wrong format. Use one of these formats instead: YYYY-MM-DD."

  /** The regex character classes the validators use. */
  datatype CharClass =
    | Digit         // \d
    | Upper         // [A-Z]
    | Lower         // [a-z]
    | Special       // [^\w\s]
    | UsernameChar  // [a-zA-Z0-9_]
    | NameChar      // [a-zA-Z\s]

  predicate IsUpper(c: char) { 'A' <= c <= 'Z' }
  predicate IsLower(c: char) { 'a' <= c <= 'z' }
  predicate IsWord(c: char) { IsUpper(c) || IsLower(c) || IsAsciiDigit(c) || c == '_' }
  predicate IsSpace(c: char) { '\t' <= c <= '\r' || '\U{1C}' <= c <= ' ' }

  predicate InClass(k: CharClass, c: char) {
    match k
    case Digit => IsAsciiDigit(c)
    case Upper => IsUpper(c)
    case Lower => IsLower(c)
    case Special => !IsWord(c) && !IsSpace(c)
    case UsernameChar => IsWord(c)
    case NameChar => IsUpper(c) || IsLower(c) || IsSpace(c)
  }

  predicate AllIn(k: CharClass, s: string) {
    forall i :: 0 <= i < |s| ==> InClass(k, s[i])
  }

  /** `re.search(k, s) is not None`, scanning left to right. */
  function Search(k: CharClass, s: string): (found: bool)
    ensures found <==> exists i :: 0 <= i < |s| && InClass(k, s[i])
    decreases |s|
  {
    if s == [] then false
    else if InClass(k, s[0]) then true
    else
      var rest := Search(k, s[1..]);
      assert (exists i :: 0 <= i < |s| && InClass(k, s[i])) ==> rest by {
        if exists i :: 0 <= i < |s| && InClass(k, s[i]) {
          var i :| 0 <= i < |s| && InClass(k, s[i]);
          assert i > 0 && InClass(k, s[1..][i - 1]);
        }
      }
      rest
  }

  /** Length of the longest prefix of `s` whose characters all lie in `k`. */
  function Span(k: CharClass, s: string): (n: nat)
    ensures n <= |s| && AllIn(k, s[..n])
    ensures n < |s| ==> !InClass(k, s[n])
    decreases |s|
  {
    if s == [] || !InClass(k, s[0]) then 0
    else
      var n := 1 + Span(k, s[1..]);
      assert s[..n] == [s[0]] + s[1..][..n - 1];
      n
  }

  /** Python's `$`: at the end of the string, or before a final newline. */
  predicate AtEnd(s: string, pos: nat) {
    pos == |s| || (pos == |s| - 1 && s[pos] == '\n')
  }

  /** `re.match(r'^[k]+$', s) is not None`: one or more characters of `k`
      from the start, then the end (possibly before a final newline). */
  function MatchPlusToEnd(k: CharClass, s: string): bool {
    var n := Span(k, s);
    n > 0 && AtEnd(s, n)
  }

  lemma {:induction false} MatchPlusToEndMeaning(k: CharClass, s: string)
    ensures MatchPlusToEnd(k, s) <==>
      (|s| > 0 && AllIn(k, s)) ||
      (|s| > 1 && s[|s| - 1] == '\n' && !InClass(k, '\n') && AllIn(k, s[..|s| - 1]))
  {
    var n := Span(k, s);
    assert forall i :: 0 <= i < n ==> InClass(k, s[i]) by {
      forall i | 0 <= i < n ensures InClass(k, s[i]) { assert s[..n][i] == s[i]; }
    }
    if MatchPlusToEnd(k, s) && n < |s| {
      assert s[..|s| - 1] == s[..n];
    }
    if |s| > 0 && AllIn(k, s) {
      assert n == |s|;
    } else if |s| > 1 && s[|s| - 1] == '\n' && !InClass(k, '\n') && AllIn(k, s[..|s| - 1]) {
      assert forall i :: 0 <= i < |s| - 1 ==> InClass(k, s[i]) by {
        forall i | 0 <= i < |s| - 1 ensures InClass(k, s[i]) { assert s[..|s| - 1][i] == s[i]; }
      }
      assert n == |s| - 1;
    }
  }

  /** validate_username */
  function ValidateUsername(username: string): (r: Result<string, string>)
    ensures r.Success? ==> r.value == username
  {
    if |username| < 5 then Failure(UsernameTooShort)
    else if !MatchPlusToEnd(UsernameChar, username) then Failure(UsernameBadChars)
    else Success(username)
  }

  /** Usernames are accepted exactly when at least 5 long and made of ASCII
      letters, digits and `_` (optionally followed by one newline, which `$`
      lets through); length is reported before the character set. */
  lemma UsernameRule(username: string)
    ensures ValidateUsername(username).Success? <==>
      |username| >= 5 &&
      (AllIn(UsernameChar, username) ||
       (username[|username| - 1] == '\n' && AllIn(UsernameChar, username[..|username| - 1])))
    ensures |username| < 5 ==> ValidateUsername(username) == Failure(UsernameTooShort)
    ensures ValidateUsername(username).Failure? && |username| >= 5 ==>
      ValidateUsername(username) == Failure(UsernameBadChars)
  {
    MatchPlusToEndMeaning(UsernameChar, username);
  }

  /** validate_password_strength */
  function ValidatePassword(password: string): (r: Result<string, string>)
    ensures r.Success? ==> r.value == password
  {
    if |password| < 8 then Failure(PasswordTooShort)
    else if !Search(Digit, password) then Failure(PasswordNoDigit)
    else if !Search(Upper, password) then Failure(PasswordNoUpper)
    else if !Search(Lower, password) then Failure(PasswordNoLower)
    else if !Search(Special, password) then Failure(PasswordNoSpecial)
    else Success(password)
  }

  predicate Contains(k: CharClass, s: string) {
    exists i :: 0 <= i < |s| && InClass(k, s[i])
  }

  /** A password is accepted iff all five requirements hold, and a rejected one
      is reported with the message of the FIRST requirement it misses. */
  lemma PasswordRule(p: string)
    ensures ValidatePassword(p).Success? <==>
      |p| >= 8 && Contains(Digit, p) && Contains(Upper, p) && Contains(Lower, p) && Contains(Special, p)
    ensures ValidatePassword(p) == Failure(PasswordTooShort) <==> |p| < 8
    ensures ValidatePassword(p) == Failure(PasswordNoDigit) <==> |p| >= 8 && !Contains(Digit, p)
    ensures ValidatePassword(p) == Failure(PasswordNoUpper) <==>
      |p| >= 8 && Contains(Digit, p) && !Contains(Upper, p)
    ensures ValidatePassword(p) == Failure(PasswordNoLower) <==>
      |p| >= 8 && Contains(Digit, p) && Contains(Upper, p) && !Contains(Lower, p)
    ensures ValidatePassword(p) == Failure(PasswordNoSpecial) <==>
      |p| >= 8 && Contains(Digit, p) && Contains(Upper, p) && Contains(Lower, p) && !Contains(Special, p)
  {
  }

  /** `_` is a word character, so it never satisfies the special-character rule. */
  lemma UnderscoreIsNotSpecial()
    ensures ValidatePassword("Abcdefg1_") == Failure(PasswordNoSpecial)
  {
    var p := "Abcdefg1_";
    assert InClass(Digit, p[7]) && InClass(Upper, p[0]) && InClass(Lower, p[1]);
    forall i | 0 <= i < |p| ensures IsWord(p[i]) {
      assert p[i] in "Abcdefg1_";
    }
  }

  /** A hyphen is a special character. */
  lemma HyphenIsSpecial()
    ensures ValidatePassword("Swift-1234") == Success("Swift-1234")
  {
    assert InClass(Digit, "Swift-1234"[6]);
    assert InClass(Upper, "Swift-1234"[0]);
    assert InClass(Lower, "Swift-1234"[1]);
    assert InClass(Special, "Swift-1234"[5]);
  }

  /** validate_name */
  function ValidateName(name: string): (r: Result<string, string>)
    ensures r.Success? ==> r.value == name
  {
    if |name| < 2 then Failure(NameTooShort)
    else if !MatchPlusToEnd(NameChar, name) then Failure(NameBadChars)
    else Success(name)
  }

  /** Names: at least two characters, then only ASCII letters and whitespace. */
  lemma NameRule(name: string)
    ensures ValidateName(name).Success? <==> |name| >= 2 && AllIn(NameChar, name)
    ensures |name| < 2 ==> ValidateName(name) == Failure(NameTooShort)
    ensures |name| >= 2 && !AllIn(NameChar, name) ==> ValidateName(name) == Failure(NameBadChars)
  {
    MatchPlusToEndMeaning(NameChar, name);
  }

  /** `re.match(r'^\d{4}-\d{2}-\d{2}$', s)`. */
  predicate DateShape(s: string) {
    (|s| == 10 || (|s| == 11 && s[10] == '\n')) &&
    AllIn(Digit, s[..4]) && s[4] == '-' && AllIn(Digit, s[5..7]) && s[7] == '-' && AllIn(Digit, s[8..10])
  }

  /** validate_birthdate, with its two separate uses of the date pattern as written. */
  function ValidateBirthdate(birthdate: string): (r: Result<string, string>)
    ensures r.Success? ==> r.value == birthdate
  {
    if DateShape(birthdate) && ParseDecimal(birthdate[..4]) < 1900 then Failure(YearTooEarly)
    else if !DateShape(birthdate) then Failure(DateBadFormat)
    else Success(birthdate)
  }

  /** A date of the wrong shape gets the format message; a well-shaped one gets
      the year message exactly when its year is below 1900 (1900 itself passes);
      month and day digits are not range-checked. */
  lemma BirthdateRule(s: string)
    ensures !DateShape(s) ==> ValidateBirthdate(s) == Failure(DateBadFormat)
    ensures DateShape(s) ==>
      (ValidateBirthdate(s) == Failure(YearTooEarly) <==> ParseDecimal(s[..4]) < 1900)
    ensures ValidateBirthdate(s).Success? <==> DateShape(s) && ParseDecimal(s[..4]) >= 1900
  {
  }

  /** A well-shaped date in 1899 gets the year message. */
  lemma BirthdateTooEarlyExample()
    ensures ValidateBirthdate("1899-01-01") == Failure(YearTooEarly)
  {
    var a := "1899-01-01";
    assert a[..4] == "1899" && a[5..7] == "01" && a[8..10] == "01";
    assert "1899"[..3] == "189" && "189"[..2] == "18" && "18"[..1] == "1" && "1"[..0] == "";
    assert ParseDecimal("1899") == 1899;
  }

  /** Month 13 and day 99 pass, since only the year is range-checked. */
  lemma BirthdateUncheckedExample()
    ensures ValidateBirthdate("1900-13-99") == Success("1900-13-99")
  {
    var b := "1900-13-99";
    assert b[..4] == "1900" && b[5..7] == "13" && b[8..10] == "99";
    assert "1900"[..3] == "190" && "190"[..2] == "19" && "19"[..1] == "1" && "1"[..0] == "";
    assert ParseDecimal("1900") == 1900;
  }

  /** A day-first date gets the format message. */
  lemma BirthdateFormatExample()
    ensures ValidateBirthdate("02-01-1990") == Failure(DateBadFormat)
  {
    assert !IsAsciiDigit("02-01-1990"[2]);
  }
}
