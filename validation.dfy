/**
 * The sign-up and sign-in form validators. Each regular expression of the original is stated
 * by explicit character classes; `\s` and `String.prototype.trim` use the fixed set of
 * ECMAScript white-space and line-terminator characters.
 */
module Validation {
  // ---------------------------------------------------------------------------------------
  // Character classes.

  /** ECMAScript white space and line terminators: what `\s` matches and `trim` strips. */
  predicate IsSpace(c: char) {
    || c == '\t' || c == '\n' || c == '\U{000B}' || c == '\U{000C}' || c == '\r' || c == ' '
    || c == '\U{00A0}' || c == '\U{1680}' || ('\U{2000}' <= c <= '\U{200A}')
    || c == '\U{2028}' || c == '\U{2029}' || c == '\U{202F}' || c == '\U{205F}' || c == '\U{3000}' || c == '\U{FEFF}'
  }

  /** The characters `.` does not match. */
  predicate IsLineTerminator(c: char) {
    c == '\n' || c == '\r' || c == '\U{2028}' || c == '\U{2029}'
  }

  predicate IsLower(c: char) { 'a' <= c <= 'z' }
  predicate IsUpper(c: char) { 'A' <= c <= 'Z' }
  /** `\d`: ASCII digits only. */
  predicate IsDigit(c: char) { '0' <= c <= '9' }
  /** `[!@#$%^&*(),.?":{}|<>]` */
  predicate IsSpecial(c: char) { c in "!@#$%^&*(),.?\":{}|<>" }

  predicate Contains(s: string, k: CharClass) {
    exists i | 0 <= i < |s| :: InClass(s[i], k)
  }

  datatype CharClass = Lower | Upper | Digit | SpecialChar

  predicate InClass(c: char, k: CharClass) {
    match k
    case Lower => IsLower(c)
    case Upper => IsUpper(c)
    case Digit => IsDigit(c)
    case SpecialChar => IsSpecial(c)
  }

  // ---------------------------------------------------------------------------------------
  // trim

  /** The number of white-space characters at the start of `s`. */
  function LeadingSpaces(s: string): (k: nat)
    ensures k <= |s|
    ensures forall i :: 0 <= i < k ==> IsSpace(s[i])
    ensures k < |s| ==> !IsSpace(s[k])
  {
    if s != [] && IsSpace(s[0]) then 1 + LeadingSpaces(s[1..]) else 0
  }

  /** The length of `s` without its trailing white space. */
  function TrailingStart(s: string): (k: nat)
    ensures k <= |s|
    ensures forall i :: k <= i < |s| ==> IsSpace(s[i])
    ensures 0 < k ==> !IsSpace(s[k - 1])
  {
    if s != [] && IsSpace(s[|s| - 1]) then TrailingStart(s[..|s| - 1]) else |s|
  }

  /** `String.prototype.trim`: the slice of `s` left once white space is stripped from both ends. */
  function Trim(s: string): string {
    var a := LeadingSpaces(s);
    var t := s[a..];
    t[..TrailingStart(t)]
  }

  /** Trimming removes a white-space prefix and a white-space suffix, and leaves neither end white. */
  lemma TrimStrips(s: string)
    ensures exists a, b :: (0 <= a <= b <= |s| && Trim(s) == s[a..b] &&
      (forall i :: 0 <= i < a ==> IsSpace(s[i])) && (forall i :: b <= i < |s| ==> IsSpace(s[i])))
    ensures Trim(s) != [] ==> !IsSpace(Trim(s)[0]) && !IsSpace(Trim(s)[|Trim(s)| - 1])
  {
    var a := LeadingSpaces(s);
    var t := s[a..];
    var b := TrailingStart(t);
    assert t[..b] == s[a..a + b];
  }

  /** A string trims to nothing exactly when all of it is white space. */
  lemma TrimEmptyIff(s: string)
    ensures Trim(s) == [] <==> forall i :: 0 <= i < |s| ==> IsSpace(s[i])
  {
    TrimStrips(s);
    if Trim(s) == [] {
      var a, b :| 0 <= a <= b <= |s| && Trim(s) == s[a..b] &&
        (forall i :: 0 <= i < a ==> IsSpace(s[i])) && (forall i :: b <= i < |s| ==> IsSpace(s[i]));
      assert a == b;
    }
  }

  // ---------------------------------------------------------------------------------------
  // validateEmail

  const EmailRequired := "Email is required"
  const EmailInvalid := "Please enter a valid email address"

  predicate EmailChar(c: char) { !IsSpace(c) && c != '@' }

  predicate AllEmailChars(s: string) {
    forall i :: 0 <= i < |s| ==> EmailChar(s[i])
  }

  /**
   * `/^[^\s@]+@[^\s@]+\.[^\s@]+$/`: exactly one `@`, not first; no white space; and after the
   * `@` a `.` that is neither the first nor the last character of the domain.
   */
  predicate MatchesEmailPattern(s: string) {
    exists at | 0 < at < |s| :: exists dot | at + 1 < dot < |s| - 1 ::
      s[at] == '@' && s[dot] == '.' && forall i | 0 <= i < |s| && i != at :: EmailChar(s[i])
  }

  /** Every match of the pattern is `local@left.right` with three non-empty parts free of `@` and white space, and back. */
  lemma EmailPatternParts(local: string, left: string, right: string)
    requires local != [] && left != [] && right != []
    requires AllEmailChars(local) && AllEmailChars(left) && AllEmailChars(right)
    ensures MatchesEmailPattern(local + "@" + left + "." + right)
  {
    var s := local + "@" + left + "." + right;
    var at, dot := |local|, |local| + 1 + |left|;
    assert s[at] == '@' && s[dot] == '.';
    forall i | 0 <= i < |s| && i != at
      ensures EmailChar(s[i])
    {
      if i < at {
        assert s[i] == local[i];
      } else if i < dot {
        assert s[i] == left[i - at - 1];
      } else if i > dot {
        assert s[i] == right[i - dot - 1];
      }
    }
  }

  lemma EmailPatternSplits(s: string)
    requires MatchesEmailPattern(s)
    ensures exists local, left, right ::
      && local != [] && left != [] && right != []
      && AllEmailChars(local) && AllEmailChars(left) && AllEmailChars(right)
      && s == local + "@" + left + "." + right
  {
    var at, dot :| 0 < at < |s| && at + 1 < dot < |s| - 1 &&
      s[at] == '@' && s[dot] == '.' && forall i | 0 <= i < |s| && i != at :: EmailChar(s[i]);
    var local, left, right := s[..at], s[at + 1..dot], s[dot + 1..];
    EmailCharsBetween(s, at, 0, at);
    EmailCharsBetween(s, at, at + 1, dot);
    EmailCharsBetween(s, at, dot + 1, |s|);
    SplitAround(s, at, dot);
    assert local != [] && left != [] && right != [];
    assert AllEmailChars(local) && AllEmailChars(left) && AllEmailChars(right);
    assert s == local + "@" + left + "." + right;
  }

  /** A slice of `s` that avoids position `at` consists of email characters when all of `s` but `at` does. */
  lemma EmailCharsBetween(s: string, at: nat, lo: nat, hi: nat)
    requires lo <= hi <= |s| && (at < lo || hi <= at)
    requires forall i | 0 <= i < |s| && i != at :: EmailChar(s[i])
    ensures AllEmailChars(s[lo..hi])
  {
    forall i | 0 <= i < hi - lo ensures EmailChar(s[lo..hi][i]) {
      assert s[lo..hi][i] == s[lo + i];
    }
  }

  /** `s` cut at its `@` and at a later `.`. */
  lemma SplitAround(s: string, at: nat, dot: nat)
    requires at < dot < |s| && s[at] == '@' && s[dot] == '.'
    ensures s == s[..at] + "@" + s[at + 1..dot] + "." + s[dot + 1..]
  {
  }

  /**
   * `validateEmail`: the required message exactly when the input is blank; otherwise the empty
   * string exactly when the untrimmed input matches the pattern.
   */
  function ValidateEmail(email: string): (r: string)
    ensures r == EmailRequired <==> Trim(email) == []
    ensures r == "" <==> MatchesEmailPattern(email)
    ensures r == "" || r == EmailRequired || r == EmailInvalid
  {
    TrimEmptyIff(email);
    if Trim(email) == [] then EmailRequired
    else if !MatchesEmailPattern(email) then EmailInvalid
    else ""
  }

  /** The pattern is checked on the untrimmed input, so surrounding white space makes an address invalid. */
  lemma PaddedEmailInvalid(email: string)
    requires MatchesEmailPattern(email)
    ensures ValidateEmail(" " + email) == EmailInvalid
  {
    assert !EmailChar((" " + email)[0]);
    TrimEmptyIff(" " + email);
    assert (" " + email)[1] == email[0];
  }

  // ---------------------------------------------------------------------------------------
  // validatePassword

  const PasswordRequired := "Password is required"
  const PasswordTooShort := "Password must be at least 8 characters long"
  const PasswordComposition := "Password must contain at least one uppercase letter, one lowercase letter, and one number"

  /** `(?=.*[class])` tried at position `p`: a character of the class at or after `p` with no line terminator before it. */
  predicate AheadInLine(s: string, p: nat, k: CharClass) {
    exists q | p <= q < |s| :: InClass(s[q], k) && forall j | p <= j < q :: !IsLineTerminator(s[j])
  }

  /** `/(?=.*[a-z])(?=.*[A-Z])(?=.*\d)/.test(s)`: some position sees all three classes within its line. */
  predicate ComposedInOneLine(s: string) {
    exists p | 0 <= p <= |s| :: AheadInLine(s, p, Lower) && AheadInLine(s, p, Upper) && AheadInLine(s, p, Digit)
  }

  /** On a single line the lookaheads just ask that each class occur somewhere. */
  lemma ComposedSingleLine(s: string)
    requires forall i :: 0 <= i < |s| ==> !IsLineTerminator(s[i])
    ensures ComposedInOneLine(s) <==> Contains(s, Lower) && Contains(s, Upper) && Contains(s, Digit)
  {
    if Contains(s, Lower) && Contains(s, Upper) && Contains(s, Digit) {
      assert AheadInLine(s, 0, Lower) && AheadInLine(s, 0, Upper) && AheadInLine(s, 0, Digit);
    }
  }

  /** The three classes spread over two lines do not satisfy the lookaheads. */
  lemma ComposedAcrossLinesRejected()
    ensures !ComposedInOneLine("Abcdefgh\n1")
    ensures ValidatePassword("Abcdefgh\n1") == PasswordComposition
  {
    var s := "Abcdefgh\n1";
    NoLowerBeforeDigitInLine(s);
    assert Trim(s) != [] by { TrimEmptyIff(s); assert !IsSpace(s[0]); }
  }

  /** In `Abcdefgh\n1` no position sees both a lowercase letter and a digit within its line. */
  lemma NoLowerBeforeDigitInLine(s: string)
    requires s == "Abcdefgh\n1"
    ensures forall p | 0 <= p <= |s| :: !(AheadInLine(s, p, Lower) && AheadInLine(s, p, Digit))
  {
    forall p | 0 <= p <= |s|
      ensures !(AheadInLine(s, p, Lower) && AheadInLine(s, p, Digit))
    {
      if p <= 8 {
        assert forall q | p <= q < |s| && IsDigit(s[q]) :: q == 9 && IsLineTerminator(s[8]);
      } else {
        assert forall q | p <= q < |s| :: !IsLower(s[q]);
      }
    }
  }

  /**
   * `validatePassword`: blank, then too short (untrimmed length), then missing a class; the
   * first failing check gives the message.
   */
  function ValidatePassword(password: string): (r: string)
    ensures r == PasswordRequired <==> Trim(password) == []
    ensures r == PasswordTooShort <==> Trim(password) != [] && |password| < 8
    ensures r == "" <==> |password| >= 8 && ComposedInOneLine(password)
    ensures r == PasswordComposition <==> Trim(password) != [] && |password| >= 8 && !ComposedInOneLine(password)
  {
    TrimEmptyIff(password);
    if Trim(password) == [] then PasswordRequired
    else if |password| < 8 then PasswordTooShort
    else if !ComposedInOneLine(password) then PasswordComposition
    else ""
  }

  // ---------------------------------------------------------------------------------------
  // validatePasswordStrength

  /** The five criteria, in the order they are checked and reported. */
  datatype Criterion = MinLength | HasLower | HasUpper | HasDigit | HasSpecial

  const Criteria: seq<Criterion> := [MinLength, HasLower, HasUpper, HasDigit, HasSpecial]

  predicate Meets(password: string, k: Criterion) {
    match k
    case MinLength => |password| >= 8
    case HasLower => Contains(password, Lower)
    case HasUpper => Contains(password, Upper)
    case HasDigit => Contains(password, Digit)
    case HasSpecial => Contains(password, SpecialChar)
  }

  function Hint(k: Criterion): string {
    match k
    case MinLength => "At least 8 characters"
    case HasLower => "One lowercase letter"
    case HasUpper => "One uppercase letter"
    case HasDigit => "One number"
    case HasSpecial => "One special character"
  }

  /** The hints of the criteria in `ks` the password misses, in order. */
  function Unmet(password: string, ks: seq<Criterion>): seq<string> {
    if ks == [] then [] else (if Meets(password, ks[0]) then [] else [Hint(ks[0])]) + Unmet(password, ks[1..])
  }

  /** How many criteria in `ks` the password meets. */
  function CountMet(password: string, ks: seq<Criterion>): nat {
    if ks == [] then 0 else (if Meets(password, ks[0]) then 1 else 0) + CountMet(password, ks[1..])
  }

  /** Every criterion is either met or reported. */
  lemma {:induction false} MetPlusUnmet(password: string, ks: seq<Criterion>)
    ensures CountMet(password, ks) + |Unmet(password, ks)| == |ks|
  {
    if ks != [] {
      MetPlusUnmet(password, ks[1..]);
    }
  }

  /** A hint is reported exactly when its criterion is in `ks` and missed. */
  lemma {:induction false} UnmetHints(password: string, ks: seq<Criterion>, k: Criterion)
    ensures Hint(k) in Unmet(password, ks) <==> k in ks && !Meets(password, k)
  {
    if ks != [] {
      UnmetHints(password, ks[1..], k);
      assert Hint(ks[0]) == Hint(k) ==> ks[0] == k;
      assert k in ks <==> k == ks[0] || k in ks[1..];
    }
  }

  /** Checking one more criterion appends at most its hint. */
  lemma {:induction false} CheckOneMore(password: string, ks: seq<Criterion>, k: Criterion)
    ensures Unmet(password, ks + [k]) == Unmet(password, ks) + (if Meets(password, k) then [] else [Hint(k)])
    ensures CountMet(password, ks + [k]) == CountMet(password, ks) + (if Meets(password, k) then 1 else 0)
  {
    if ks == [] {
      assert [k][1..] == [];
    } else {
      assert (ks + [k])[1..] == ks[1..] + [k];
      CheckOneMore(password, ks[1..], k);
    }
  }

  /** One step of the meter: criterion `k`, the `i`-th, either scores or adds its hint. */
  lemma CriterionStep(password: string, i: nat, k: Criterion, score: nat, feedback: seq<string>)
    requires i < |Criteria| && Criteria[i] == k
    requires score == CountMet(password, Criteria[..i]) && feedback == Unmet(password, Criteria[..i])
    ensures Meets(password, k) ==> score + 1 == CountMet(password, Criteria[..i + 1]) && feedback == Unmet(password, Criteria[..i + 1])
    ensures !Meets(password, k) ==> score == CountMet(password, Criteria[..i + 1]) && feedback + [Hint(k)] == Unmet(password, Criteria[..i + 1])
  {
    assert Criteria[..i + 1] == Criteria[..i] + [k];
    CheckOneMore(password, Criteria[..i], k);
  }

  const Green := "bg-green-500"
  const Yellow := "bg-yellow-500"
  const Orange := "bg-orange-500"
  const Red := "bg-red-500"

  /** `validatePasswordStrength`: one point per criterion met, a hint per criterion missed, and a colour for the score. */
  method PasswordStrength(password: string) returns (score: nat, feedback: seq<string>, color: string)
    ensures score == CountMet(password, Criteria) && feedback == Unmet(password, Criteria)
    ensures color == if score >= 4 then Green else if score >= 3 then Yellow else if score >= 2 then Orange else Red
  {
    feedback := [];
    score := 0;
    assert Criteria[..0] == [];

    CriterionStep(password, 0, MinLength, score, feedback);
    assert Meets(password, MinLength) == (|password| >= 8);
    if |password| >= 8 { score := score + 1; } else { feedback := feedback + [Hint(MinLength)]; }
    CriterionStep(password, 1, HasLower, score, feedback);
    assert Meets(password, HasLower) == (Contains(password, Lower));
    if Contains(password, Lower) { score := score + 1; } else { feedback := feedback + [Hint(HasLower)]; }
    CriterionStep(password, 2, HasUpper, score, feedback);
    assert Meets(password, HasUpper) == (Contains(password, Upper));
    if Contains(password, Upper) { score := score + 1; } else { feedback := feedback + [Hint(HasUpper)]; }
    CriterionStep(password, 3, HasDigit, score, feedback);
    assert Meets(password, HasDigit) == (Contains(password, Digit));
    if Contains(password, Digit) { score := score + 1; } else { feedback := feedback + [Hint(HasDigit)]; }
    CriterionStep(password, 4, HasSpecial, score, feedback);
    assert Meets(password, HasSpecial) == (Contains(password, SpecialChar));
    if Contains(password, SpecialChar) { score := score + 1; } else { feedback := feedback + [Hint(HasSpecial)]; }
    assert Criteria[..5] == Criteria;

    color := Red;
    if score >= 4 {
      color := Green;
    } else if score >= 3 {
      color := Yellow;
    } else if score >= 2 {
      color := Orange;
    }
  }

  /** The meter's score and feedback account for all five criteria, each exactly once. */
  lemma StrengthAccounts(password: string)
    ensures CountMet(password, Criteria) + |Unmet(password, Criteria)| == 5
    ensures forall k :: Hint(k) in Unmet(password, Criteria) <==> !Meets(password, k)
  {
    MetPlusUnmet(password, Criteria);
    forall k ensures Hint(k) in Unmet(password, Criteria) <==> !Meets(password, k) {
      UnmetHints(password, Criteria, k);
    }
  }

  /** The lookaheads succeed only on a password holding all three classes. */
  lemma ComposedContainsClasses(password: string)
    requires ComposedInOneLine(password)
    ensures Contains(password, Lower) && Contains(password, Upper) && Contains(password, Digit)
  {
    var p :| 0 <= p <= |password| && AheadInLine(password, p, Lower) && AheadInLine(password, p, Upper) && AheadInLine(password, p, Digit);
    var ql :| p <= ql < |password| && InClass(password[ql], Lower);
    var qu :| p <= qu < |password| && InClass(password[qu], Upper);
    var qd :| p <= qd < |password| && InClass(password[qd], Digit);
  }

  /** Every password the sign-up validator accepts meets at least four criteria, so the meter shows it green. */
  lemma AcceptedPasswordIsStrong(password: string)
    requires ValidatePassword(password) == ""
    ensures CountMet(password, Criteria) >= 4
  {
    assert |password| >= 8 && ComposedInOneLine(password);
    MeetsFour(password);
  }

  lemma MeetsFour(password: string)
    requires |password| >= 8 && ComposedInOneLine(password)
    ensures CountMet(password, Criteria) >= 4
  {
    ComposedContainsClasses(password);
    assert Criteria[..0] == [];
    CriterionStep(password, 0, MinLength, 0, []);
    CriterionStep(password, 1, HasLower, 1, Unmet(password, Criteria[..1]));
    CriterionStep(password, 2, HasUpper, 2, Unmet(password, Criteria[..2]));
    CriterionStep(password, 3, HasDigit, 3, Unmet(password, Criteria[..3]));
    assert Criteria[..4] + [HasSpecial] == Criteria;
    CheckOneMore(password, Criteria[..4], HasSpecial);
  }

  // ---------------------------------------------------------------------------------------
  // validateName, validateConfirmPassword

  const NameRequired := "Name is required"
  const NameTooShort := "Name must be at least 2 characters long"
  const NameTooLong := "Name must not exceed 100 characters"

  /** `validateName`: judges the trimmed length only. */
  function ValidateName(name: string): (r: string)
    ensures r == NameRequired <==> |Trim(name)| == 0
    ensures r == NameTooShort <==> |Trim(name)| == 1
    ensures r == NameTooLong <==> |Trim(name)| > 100
    ensures r == "" <==> 2 <= |Trim(name)| <= 100
  {
    var trimmed := Trim(name);
    if trimmed == [] then NameRequired
    else if |trimmed| < 2 then NameTooShort
    else if |trimmed| > 100 then NameTooLong
    else ""
  }

  const ConfirmRequired := "Please confirm your password"
  const PasswordsDiffer := "Passwords do not match"

  /** `validateConfirmPassword`: a blank confirmation first, then an exact comparison. */
  function ValidateConfirmPassword(password: string, confirmPassword: string): (r: string)
    ensures r == ConfirmRequired <==> Trim(confirmPassword) == []
    ensures r == PasswordsDiffer <==> Trim(confirmPassword) != [] && password != confirmPassword
    ensures r == "" <==> Trim(confirmPassword) != [] && password == confirmPassword
  {
    if Trim(confirmPassword) == [] then ConfirmRequired
    else if password != confirmPassword then PasswordsDiffer
    else ""
  }

  // ---------------------------------------------------------------------------------------
  // validateLoginForm, validateRegisterForm

  /** `validateLoginForm`: the email rule in full, but for the password only that it is not blank. */
  method ValidateLoginForm(email: string, password: string) returns (errors: map<string, string>)
    ensures "email" in errors <==> !MatchesEmailPattern(email)
    ensures "email" in errors ==> errors["email"] == ValidateEmail(email)
    ensures "password" in errors <==> Trim(password) == []
    ensures "password" in errors ==> errors["password"] == PasswordRequired
    ensures errors.Keys <= {"email", "password"}
    ensures errors == map[] <==> MatchesEmailPattern(email) && Trim(password) != []
  {
    errors := map[];

    var emailError := ValidateEmail(email);
    if emailError != "" {
      errors := errors["email" := emailError];
    }

    var passwordError := if Trim(password) != [] then "" else PasswordRequired;
    if passwordError != "" {
      errors := errors["password" := passwordError];
    }
    assert "email" in errors ==> errors != map[];
  }

  /** Everything the sign-up form demands, stated without the validators. */
  predicate RegisterInputValid(name: string, email: string, password: string, confirmPassword: string) {
    && 2 <= |Trim(name)| <= 100
    && MatchesEmailPattern(email)
    && |password| >= 8 && ComposedInOneLine(password)
    && confirmPassword == password
  }

  /** The four field names of the sign-up form are different keys. */
  lemma FieldNamesDistinct()
    ensures "name" != "email" && "name" != "password" && "name" != "confirmPassword"
    ensures "email" != "password" && "email" != "confirmPassword" && "password" != "confirmPassword"
  {
    assert "name"[0] != "email"[0] && "name"[0] != "password"[0] && "name"[0] != "confirmPassword"[0];
    assert "email"[0] != "password"[0] && "email"[0] != "confirmPassword"[0] && "password"[0] != "confirmPassword"[0];
  }

  /** The four validators all pass exactly when the sign-up requirements hold. */
  lemma RegisterValidIff(name: string, email: string, password: string, confirmPassword: string)
    ensures RegisterInputValid(name, email, password, confirmPassword) <==>
      && ValidateName(name) == "" && ValidateEmail(email) == ""
      && ValidatePassword(password) == "" && ValidateConfirmPassword(password, confirmPassword) == ""
  {
    if password == confirmPassword && ValidatePassword(password) == "" {
      ComposedNotBlank(password);
    }
  }

  /** `validateRegisterForm`: one entry per failing field, holding that field's message. */
  method ValidateRegisterForm(name: string, email: string, password: string, confirmPassword: string)
    returns (errors: map<string, string>)
    ensures "name" in errors <==> ValidateName(name) != ""
    ensures "email" in errors <==> ValidateEmail(email) != ""
    ensures "password" in errors <==> ValidatePassword(password) != ""
    ensures "confirmPassword" in errors <==> ValidateConfirmPassword(password, confirmPassword) != ""
    ensures "name" in errors ==> errors["name"] == ValidateName(name)
    ensures "email" in errors ==> errors["email"] == ValidateEmail(email)
    ensures "password" in errors ==> errors["password"] == ValidatePassword(password)
    ensures "confirmPassword" in errors ==> errors["confirmPassword"] == ValidateConfirmPassword(password, confirmPassword)
    ensures errors.Keys <= {"name", "email", "password", "confirmPassword"}
    ensures errors == map[] <==> RegisterInputValid(name, email, password, confirmPassword)
  {
    FieldNamesDistinct();
    errors := map[];

    var nameError := ValidateName(name);
    if nameError != "" {
      errors := errors["name" := nameError];
    }

    var emailError := ValidateEmail(email);
    if emailError != "" {
      errors := errors["email" := emailError];
    }

    var passwordError := ValidatePassword(password);
    if passwordError != "" {
      errors := errors["password" := passwordError];
    }

    var confirmPasswordError := ValidateConfirmPassword(password, confirmPassword);
    if confirmPasswordError != "" {
      errors := errors["confirmPassword" := confirmPasswordError];
    }

    RegisterValidIff(name, email, password, confirmPassword);
    assert errors == map[] <==> nameError == "" && emailError == "" && passwordError == "" && confirmPasswordError == "" by {
      if errors == map[] {
        assert "name" !in errors && "email" !in errors && "password" !in errors && "confirmPassword" !in errors;
      }
    }
  }

  /** A password that passes the lookaheads holds a letter, so it is not blank. */
  lemma ComposedNotBlank(password: string)
    requires ComposedInOneLine(password)
    ensures Trim(password) != []
  {
    var p :| 0 <= p <= |password| && AheadInLine(password, p, Lower);
    var q :| p <= q < |password| && IsLower(password[q]);
    TrimEmptyIff(password);
  }
}
