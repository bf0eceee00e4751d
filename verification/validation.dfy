/**
  The pure field validators of public/script.js: validateEmail,
  validatePassword, calculatePasswordStrength and validateName.
*/
module Validation {
  import opened Text

  // ---------------------------------------------------------------- email

  /** A character of the class `[^\s@]`. */
  predicate IsEmailChar(c: char) {
    !IsWhitespace(c) && c != '@'
  }

  /** s[lo..hi] is a non-empty run of `[^\s@]`, that is, it matches `[^\s@]+`. */
  ghost predicate EmailRun(s: string, lo: int, hi: int) {
    0 <= lo < hi <= |s| && forall k :: lo <= k < hi ==> IsEmailChar(s[k])
  }

  /** `s` matches /^[^\s@]+@[^\s@]+\.[^\s@]+$/ with the '@' at `at` and the
      literal '.' at `dot`. */
  ghost predicate EmailPatternAt(s: string, at: int, dot: int) {
    && 0 <= at < dot < |s|
    && s[at] == '@'
    && s[dot] == '.'
    && EmailRun(s, 0, at)
    && EmailRun(s, at + 1, dot)
    && EmailRun(s, dot + 1, |s|)
  }

  /** The language of the anchored regular expression of validateEmail:
      some choice of the '@' and of the literal '.' splits `s` into the
      three `[^\s@]+` runs. */
  ghost predicate MatchesEmailPattern(s: string) {
    exists at, dot :: EmailPatternAt(s, at, dot)
  }

  predicate NoWhitespace(s: string) {
    forall k :: 0 <= k < |s| ==> !IsWhitespace(s[k])
  }

  /** `at` is the position of the one and only '@' of `s`. */
  predicate IsOnlyAt(s: string, at: int) {
    0 <= at < |s| && s[at] == '@' && forall k :: 0 <= k < |s| && s[k] == '@' ==> k == at
  }

  /** The domain holds a '.' that is neither its first nor its last character. */
  predicate HasInnerDot(domain: string) {
    exists k :: 0 < k < |domain| - 1 && domain[k] == '.'
  }

  /** The shape of an address that validateEmail accepts, stated without the
      regular expression: no whitespace, exactly one '@', something before it,
      and a '.' strictly inside the part after it. */
  predicate HasEmailShape(s: string) {
    NoWhitespace(s) && exists at :: 0 < at < |s| && IsOnlyAt(s, at) && HasInnerDot(s[at + 1..])
  }

  lemma ShapeMatchesPattern(s: string)
    requires HasEmailShape(s)
    ensures MatchesEmailPattern(s)
  {
    var at :| 0 < at < |s| && IsOnlyAt(s, at) && HasInnerDot(s[at + 1..]);
    var domain := s[at + 1..];
    var k :| 0 < k < |domain| - 1 && domain[k] == '.';
    var dot := at + 1 + k;
    assert s[dot] == domain[k];
    assert EmailPatternAt(s, at, dot);
  }

  lemma PatternHasShape(s: string, at: int, dot: int)
    requires EmailPatternAt(s, at, dot)
    ensures HasEmailShape(s)
  {
    assert forall k :: 0 <= k < |s| && k != at && k != dot ==> IsEmailChar(s[k]);
    assert IsOnlyAt(s, at);
    var domain := s[at + 1..];
    assert domain[dot - at - 1] == '.';
    assert HasInnerDot(domain);
  }

  /** The regular expression of validateEmail accepts exactly the strings of
      the shape above. */
  lemma EmailShapeIsPattern(s: string)
    ensures HasEmailShape(s) <==> MatchesEmailPattern(s)
  {
    if HasEmailShape(s) {
      ShapeMatchesPattern(s);
    }
    if MatchesEmailPattern(s) {
      var at, dot :| EmailPatternAt(s, at, dot);
      PatternHasShape(s, at, dot);
    }
  }

  /** validateEmail: the regular-expression test, decided through the shape. */
  function ValidateEmail(email: string): (r: bool)
    ensures r <==> MatchesEmailPattern(email)
  {
    EmailShapeIsPattern(email);
    HasEmailShape(email)
  }

  /** An accepted address holds no whitespace, so trimming it, as
      validateForm and the blur handlers do before validating, changes
      nothing. */
  lemma AcceptedEmailIsTrimmed(email: string)
    requires ValidateEmail(email)
    ensures NoWhitespace(email)
    ensures Trim(email) == email
  {
  }

  // ------------------------------------------------------------- password

  const MinPasswordLength: nat := 8

  /** The class `[!@#$%^&*(),.?":{}|<>]`. */
  const SpecialChars: string := "!@#$%^&*(),.?\":{}|<>"

  predicate IsSpecialChar(c: char) {
    c in SpecialChars
  }

  predicate HasUpperCase(p: string) { exists k :: 0 <= k < |p| && IsAsciiUpper(p[k]) }

  predicate HasLowerCase(p: string) { exists k :: 0 <= k < |p| && IsAsciiLower(p[k]) }

  predicate HasDigit(p: string) { exists k :: 0 <= k < |p| && IsAsciiDigit(p[k]) }

  predicate HasSpecialChar(p: string) { exists k :: 0 <= k < |p| && IsSpecialChar(p[k]) }

  /** `password.length >= 8`, counting UTF-16 code units. */
  predicate LongEnough(p: string) { Utf16Length(p) >= MinPasswordLength }

  datatype Strength = Weak | Fair | Good | Strong {
    /** The position of the label on the weak-to-strong scale. */
    function Rank(): nat {
      match this
      case Weak => 0
      case Fair => 1
      case Good => 2
      case Strong => 3
    }

    /** The label string calculatePasswordStrength returns. */
    function Label(): string {
      match this
      case Weak => "weak"
      case Fair => "fair"
      case Good => "good"
      case Strong => "strong"
    }
  }

  /** The `requirements` object of validatePassword. */
  datatype Requirements = Requirements(
    minLength: bool,
    hasUpperCase: bool,
    hasLowerCase: bool,
    hasNumbers: bool,
    hasSpecialChar: bool)
  {
    /** How many of the five requirements hold. */
    function Met(): nat {
      (if minLength then 1 else 0) + (if hasUpperCase then 1 else 0)
      + (if hasLowerCase then 1 else 0) + (if hasNumbers then 1 else 0)
      + (if hasSpecialChar then 1 else 0)
    }
  }

  /** The object validatePassword returns. */
  datatype PasswordCheck = PasswordCheck(isValid: bool, strength: Strength, requirements: Requirements)

  /** The five regular-expression tests on the password. */
  function RequirementsOf(p: string): Requirements {
    Requirements(LongEnough(p), HasUpperCase(p), HasLowerCase(p), HasDigit(p), HasSpecialChar(p))
  }

  /** calculatePasswordStrength: one point per criterion, in the order the
      source tests them, then the score mapped to a label. */
  function CalculatePasswordStrength(p: string): (r: Strength)
    ensures r == Weak <==> RequirementsOf(p).Met() <= 2
    ensures r == Fair <==> RequirementsOf(p).Met() == 3
    ensures r == Good <==> RequirementsOf(p).Met() == 4
    ensures r == Strong <==>
      LongEnough(p) && HasLowerCase(p) && HasUpperCase(p) && HasDigit(p) && HasSpecialChar(p)
  {
    var score :=
      (if Utf16Length(p) >= MinPasswordLength then 1 else 0)
      + (if HasLowerCase(p) then 1 else 0)
      + (if HasUpperCase(p) then 1 else 0)
      + (if HasDigit(p) then 1 else 0)
      + (if HasSpecialChar(p) then 1 else 0);
    if score <= 2 then Weak
    else if score == 3 then Fair
    else if score == 4 then Good
    else Strong
  }

  /** validatePassword. */
  function ValidatePassword(p: string): (r: PasswordCheck)
    ensures r.isValid <==> LongEnough(p) && HasUpperCase(p) && HasLowerCase(p) && HasDigit(p)
    ensures r.strength == CalculatePasswordStrength(p)
    ensures r.requirements.minLength == LongEnough(p)
    ensures r.requirements.hasUpperCase == HasUpperCase(p)
    ensures r.requirements.hasLowerCase == HasLowerCase(p)
    ensures r.requirements.hasNumbers == HasDigit(p)
    ensures r.requirements.hasSpecialChar == HasSpecialChar(p)
    ensures r.isValid ==> r.strength == Good || r.strength == Strong
    ensures r.strength == Strong <==> r.isValid && r.requirements.hasSpecialChar
  {
    var req := RequirementsOf(p);
    PasswordCheck(
      req.minLength && req.hasUpperCase && req.hasLowerCase && req.hasNumbers,
      CalculatePasswordStrength(p),
      req)
  }

  /** The requirements reported by validatePassword are the criteria the
      strength score counts: the label is a function of how many hold. */
  lemma StrengthAgreesWithRequirements(p: string)
    ensures var check := ValidatePassword(p);
      check.strength == (if check.requirements.Met() <= 2 then Weak
                         else if check.requirements.Met() == 3 then Fair
                         else if check.requirements.Met() == 4 then Good
                         else Strong)
  {
  }

  /** Whether a password is valid never depends on special characters: two
      passwords that agree on the other four criteria are both valid or both
      invalid, whatever their special characters. */
  lemma ValidityIgnoresSpecialChars(p: string, q: string)
    requires RequirementsOf(p).(hasSpecialChar := false) == RequirementsOf(q).(hasSpecialChar := false)
    ensures ValidatePassword(p).isValid == ValidatePassword(q).isValid
  {
  }

  /** The empty password meets no criterion, is classified weak and is invalid. */
  lemma EmptyPasswordIsWeak()
    ensures RequirementsOf("").Met() == 0
    ensures CalculatePasswordStrength("") == Weak
    ensures !ValidatePassword("").isValid
  {
  }

  /** Every criterion that holds of a password still holds once more
      characters are typed after it. */
  lemma RequirementsGrowWithAppend(p: string, extra: string)
    ensures LongEnough(p) ==> LongEnough(p + extra)
    ensures HasUpperCase(p) ==> HasUpperCase(p + extra)
    ensures HasLowerCase(p) ==> HasLowerCase(p + extra)
    ensures HasDigit(p) ==> HasDigit(p + extra)
    ensures HasSpecialChar(p) ==> HasSpecialChar(p + extra)
  {
    Utf16LengthAppend(p, extra);
    assert forall k :: 0 <= k < |p| ==> (p + extra)[k] == p[k];
  }

  /** Typing more characters after a password never lowers its strength and
      never makes a valid password invalid. */
  lemma StrengthMonotoneUnderAppend(p: string, extra: string)
    ensures CalculatePasswordStrength(p).Rank() <= CalculatePasswordStrength(p + extra).Rank()
    ensures ValidatePassword(p).isValid ==> ValidatePassword(p + extra).isValid
  {
    RequirementsGrowWithAppend(p, extra);
  }

  // ----------------------------------------------------------------- name

  /** A character of the class `[a-zA-ZÀ-ỹ\s]`; the range À-ỹ is taken
      literally as U+00C0..U+1EF9, so it also holds × and ÷. */
  predicate IsNameChar(c: char) {
    IsAsciiUpper(c) || IsAsciiLower(c) || (0xC0 <= c as int <= 0x1EF9) || IsWhitespace(c)
  }

  /** validateName: at least two UTF-16 code units once trimmed, and the whole
      untrimmed string matches /^[a-zA-ZÀ-ỹ\s]+$/. */
  function ValidateName(name: string): (r: bool)
    ensures r <==> Utf16Length(Trim(name)) >= 2 && forall k :: 0 <= k < |name| ==> IsNameChar(name[k])
    ensures r ==> !AllWhitespace(name)
    ensures r ==> forall k :: 0 <= k < |name| ==> !IsAsciiDigit(name[k])
  {
    Utf16Length(Trim(name)) >= 2
    && |name| > 0
    && forall k :: 0 <= k < |name| ==> IsNameChar(name[k])
  }

  /** Trimming a name never changes its verdict, so validating the trimmed
      value, as validateForm and the blur handler do, is validating the name
      as typed. */
  lemma TrimPreservesNameVerdict(name: string)
    ensures ValidateName(Trim(name)) <==> ValidateName(name)
  {
    TrimIdempotent(name);
    var i, j := TrimIsSlice(name);
    if ValidateName(Trim(name)) {
      forall k | 0 <= k < |name|
        ensures IsNameChar(name[k])
      {
        if i <= k < j {
          assert name[k] == Trim(name)[k - i];
        }
      }
    }
  }
}
