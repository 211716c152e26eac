/** Password rules: the strength check run on registration and on reset,
    and the guard in front of the bcrypt comparison. */
module Password {
  import opened Common

  const MinLength: nat := 8

  const TooShortMessage := "Password must be at least 8 characters long"
  const NoUppercaseMessage := "Password must contain at least one uppercase letter"
  const NoLowercaseMessage := "Password must contain at least one lowercase letter"
  const NoDigitMessage := "Password must contain at least one digit"

  /** The `(is_valid, error_message)` pair the check returns. */
  datatype Strength = Strength(isValid: bool, error: Option<string>)

  predicate IsUpper(c: char) { 'A' <= c <= 'Z' }
  predicate IsLower(c: char) { 'a' <= c <= 'z' }

  /** `n` lies in the block of ten decimal digits that starts at `start`. */
  predicate DigitBlock(n: int, start: int) { start <= n < start + 10 }

  /** `\d` on a `str` pattern: a character of Unicode general category Nd
      (decimal digit) in Unicode 15.0, the character database of Python
      3.12. Nd is made of blocks of ten consecutive code points: the ASCII
      digits, then the blocks below, all at U+0660 or above (the fifty
      mathematical digits from U+1D7CE are listed as five blocks). */
  predicate IsDigit(c: char)
  {
    var n := c as int;
    DigitBlock(n, 0x0030) ||
    (n >= 0x0660 && (
      DigitBlock(n, 0x0660) || DigitBlock(n, 0x06F0) || DigitBlock(n, 0x07C0) ||
      DigitBlock(n, 0x0966) || DigitBlock(n, 0x09E6) || DigitBlock(n, 0x0A66) ||
      DigitBlock(n, 0x0AE6) || DigitBlock(n, 0x0B66) || DigitBlock(n, 0x0BE6) ||
      DigitBlock(n, 0x0C66) || DigitBlock(n, 0x0CE6) || DigitBlock(n, 0x0D66) ||
      DigitBlock(n, 0x0DE6) || DigitBlock(n, 0x0E50) || DigitBlock(n, 0x0ED0) ||
      DigitBlock(n, 0x0F20) || DigitBlock(n, 0x1040) || DigitBlock(n, 0x1090) ||
      DigitBlock(n, 0x17E0) || DigitBlock(n, 0x1810) || DigitBlock(n, 0x1946) ||
      DigitBlock(n, 0x19D0) || DigitBlock(n, 0x1A80) || DigitBlock(n, 0x1A90) ||
      DigitBlock(n, 0x1B50) || DigitBlock(n, 0x1BB0) || DigitBlock(n, 0x1C40) ||
      DigitBlock(n, 0x1C50) || DigitBlock(n, 0xA620) || DigitBlock(n, 0xA8D0) ||
      DigitBlock(n, 0xA900) || DigitBlock(n, 0xA9D0) || DigitBlock(n, 0xA9F0) ||
      DigitBlock(n, 0xAA50) || DigitBlock(n, 0xABF0) || DigitBlock(n, 0xFF10) ||
      DigitBlock(n, 0x104A0) || DigitBlock(n, 0x10D30) || DigitBlock(n, 0x11066) ||
      DigitBlock(n, 0x110F0) || DigitBlock(n, 0x11136) || DigitBlock(n, 0x111D0) ||
      DigitBlock(n, 0x112F0) || DigitBlock(n, 0x11450) || DigitBlock(n, 0x114D0) ||
      DigitBlock(n, 0x11650) || DigitBlock(n, 0x116C0) || DigitBlock(n, 0x11730) ||
      DigitBlock(n, 0x118E0) || DigitBlock(n, 0x11950) || DigitBlock(n, 0x11C50) ||
      DigitBlock(n, 0x11D50) || DigitBlock(n, 0x11DA0) || DigitBlock(n, 0x11F50) ||
      DigitBlock(n, 0x16A60) || DigitBlock(n, 0x16AC0) || DigitBlock(n, 0x16B50) ||
      DigitBlock(n, 0x1D7CE) || DigitBlock(n, 0x1D7D8) || DigitBlock(n, 0x1D7E2) ||
      DigitBlock(n, 0x1D7EC) || DigitBlock(n, 0x1D7F6) || DigitBlock(n, 0x1E140) ||
      DigitBlock(n, 0x1E2F0) || DigitBlock(n, 0x1E4F0) || DigitBlock(n, 0x1E950) ||
      DigitBlock(n, 0x1FBF0)))
  }

  /** `re.search(r"[A-Z]", password)` found a match. */
  predicate HasUpper(pw: string) { exists i :: 0 <= i < |pw| && IsUpper(pw[i]) }
  predicate HasLower(pw: string) { exists i :: 0 <= i < |pw| && IsLower(pw[i]) }
  predicate HasDigit(pw: string) { exists i :: 0 <= i < |pw| && IsDigit(pw[i]) }

  /** The documented requirement, as one statement. */
  predicate Strong(pw: string)
  {
    |pw| >= MinLength && HasUpper(pw) && HasLower(pw) && HasDigit(pw)
  }

  /** `validate_password_strength`: the checks run in the order length,
      upper case, lower case, digit, and the first one that fails names the
      error. */
  function ValidatePasswordStrength(pw: string): (r: Strength)
    ensures r.isValid <==> Strong(pw)
    ensures r.isValid <==> r.error == None
    ensures |pw| < MinLength ==> r.error == Some(TooShortMessage)
    ensures |pw| >= MinLength && !HasUpper(pw) ==> r.error == Some(NoUppercaseMessage)
    ensures |pw| >= MinLength && HasUpper(pw) && !HasLower(pw) ==> r.error == Some(NoLowercaseMessage)
    ensures |pw| >= MinLength && HasUpper(pw) && HasLower(pw) && !HasDigit(pw) ==> r.error == Some(NoDigitMessage)
  {
    if |pw| < MinLength then Strength(false, Some(TooShortMessage))
    else if !HasUpper(pw) then Strength(false, Some(NoUppercaseMessage))
    else if !HasLower(pw) then Strength(false, Some(NoLowercaseMessage))
    else if !HasDigit(pw) then Strength(false, Some(NoDigitMessage))
    else Strength(true, None)
  }

  /** The passwords the unit tests accept are accepted. */
  lemma StrengthAccepts()
    ensures ValidatePasswordStrength("Secure1!") == Strength(true, None)
    ensures ValidatePasswordStrength("SecurePass123") == Strength(true, None)
  {
    var p := "Secure1!";
    assert IsUpper(p[0]) && IsLower(p[1]) && IsDigit(p[6]);
    var q := "SecurePass123";
    assert IsUpper(q[0]) && IsLower(q[1]) && IsDigit(q[10]);
  }

  /** The ASCII digits are digits, and so is every other block of Nd. */
  lemma AsciiDigitsAreDigits()
    ensures forall c: char :: '0' <= c <= '9' ==> IsDigit(c)
  {
  }

  /** A digit outside ASCII counts: ARABIC-INDIC DIGIT THREE (U+0663) and
      FULLWIDTH DIGIT SEVEN (U+FF17) satisfy the digit rule. */
  lemma StrengthAcceptsNonAsciiDigits()
    ensures ValidatePasswordStrength("Abcdefg\U{0663}") == Strength(true, None)
    ensures ValidatePasswordStrength("Abcdefg\U{FF17}") == Strength(true, None)
  {
    var p := "Abcdefg\U{0663}";
    assert IsUpper(p[0]) && IsLower(p[1]) && IsDigit(p[7]);
    var q := "Abcdefg\U{FF17}";
    assert IsUpper(q[0]) && IsLower(q[1]) && IsDigit(q[7]);
  }

  /** The passwords the unit tests refuse are refused with the message they
      expect. */
  lemma StrengthRejects()
    ensures ValidatePasswordStrength("Short1").error == Some(TooShortMessage)
    ensures ValidatePasswordStrength("lowercase123").error == Some(NoUppercaseMessage)
  {
  }

  lemma StrengthRejectsMissingClass()
    ensures ValidatePasswordStrength("UPPERCASE123").error == Some(NoLowercaseMessage)
    ensures ValidatePasswordStrength("NoDigitsHere").error == Some(NoDigitMessage)
  {
    var u := "UPPERCASE123";
    assert IsUpper(u[0]);
    var n := "NoDigitsHere";
    assert IsUpper(n[0]) && IsLower(n[1]);
  }

  /** `verify_password`: an empty plain password is refused before the
      hash is consulted; otherwise the answer is bcrypt's. `checkpw` stands
      for `bcrypt.checkpw`, with its ValueError/TypeError already turned into
      false. */
  function VerifyPassword(plain: string, hashed: string, checkpw: (string, string) -> bool): (r: bool)
    ensures plain == [] ==> !r
    ensures r <==> plain != [] && checkpw(plain, hashed)
  {
    if plain == [] then false else checkpw(plain, hashed)
  }
}
