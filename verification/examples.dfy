/**
  Concrete cases of the validators and of validateForm's rules.
*/
module Examples {
  import opened Text
  import opened Validation
  import opened Forms

  lemma EmailExamples()
    ensures ValidateEmail("a@b.com")
    ensures !ValidateEmail("bad")
    ensures !ValidateEmail("a@b.")
    ensures !ValidateEmail("a b@c.de")
  {
    assert EmailPatternAt("a@b.com", 1, 3);
    assert !HasEmailShape("a@b.");
    EmailShapeIsPattern("a@b.");
    assert IsWhitespace("a b@c.de"[1]);
    EmailShapeIsPattern("a b@c.de");
  }

  /** No special character is an ASCII letter or digit. */
  lemma SpecialCharsArePunctuation(c: char)
    requires IsSpecialChar(c)
    ensures !IsAsciiUpper(c) && !IsAsciiLower(c) && !IsAsciiDigit(c)
  {
  }

  lemma ValidPasswordExample()
    ensures ValidatePassword("Abcdef12").isValid
    ensures ValidatePassword("Abcdef12").strength == Good
  {
    var p := "Abcdef12";
    assert IsAsciiUpper(p[0]) && IsAsciiLower(p[1]) && IsAsciiDigit(p[6]);
    forall k | 0 <= k < |p|
      ensures !IsSpecialChar(p[k])
    {
      assert IsAsciiUpper(p[k]) || IsAsciiLower(p[k]) || IsAsciiDigit(p[k]);
      if IsSpecialChar(p[k]) {
        SpecialCharsArePunctuation(p[k]);
      }
    }
  }

  lemma StrengthExamples()
    ensures CalculatePasswordStrength("") == Weak
    ensures CalculatePasswordStrength("Ab1!aaaa") == Strong
    ensures CalculatePasswordStrength("").Label() == "weak"
    ensures CalculatePasswordStrength("Ab1!aaaa").Label() == "strong"
  {
    var q := "Ab1!aaaa";
    assert IsAsciiUpper(q[0]) && IsAsciiLower(q[1]) && IsAsciiDigit(q[2]) && IsSpecialChar(q[3]);
  }

  lemma NoUpperCaseExample()
    ensures !ValidatePassword("abcdefgh!").isValid
  {
    var p := "abcdefgh!";
    assert forall k :: 0 <= k < |p| ==> !IsAsciiUpper(p[k]);
  }

  lemma VietnameseNameChars()
    ensures forall k :: 0 <= k < |"Nguyễn Văn A"| ==> IsNameChar("Nguyễn Văn A"[k])
  {
  }

  lemma VietnameseNameExample()
    ensures ValidateName("Nguyễn Văn A")
  {
    var s := "Nguyễn Văn A";
    assert Unpadded(s);
    TrimOfUnpadded(s);
    VietnameseNameChars();
  }

  lemma RejectedNameExamples()
    ensures !ValidateName("A1")
    ensures !ValidateName(" a ")
    ensures !ValidateName("   ")
  {
  }

  /** As written, validateForm compares the trimmed confirmation with the raw
      register password, while the password rule checks the trimmed password:
      a password typed identically in both inputs with a leading space passes
      the password rule and fails the confirmation rule. */
  lemma ConfirmComparesTrimmedWithRaw(d: Decoration)
    ensures var typed := " Abcdef12";
      && !FieldBroken(Field("registerPassword", "password", "password", typed, true, d), Register, typed)
      && FieldBroken(Field("confirmPassword", "confirmPassword", "password", typed, true, d), Register, typed)
  {
    LeadingSpaceTrimmed();
    ValidPasswordExample();
  }

  lemma LeadingSpaceTrimmed()
    ensures Trim(" Abcdef12") == "Abcdef12"
  {
    TrimUnique("Abcdef12", " Abcdef12", 1, 9);
  }

  /** On the login form a non-empty password is never judged by strength. */
  lemma LoginIgnoresPasswordStrength(f: Field, registerPassword: string)
    requires f.name == "password" && f.kind == "password"
    requires !AllWhitespace(f.value)
    ensures !FieldBroken(f, Login, registerPassword)
  {
  }
}
