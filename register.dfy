/** The registration form: the password-match check, the five password
    strength criteria and the percentage, label and colour derived from
    them, the show/hide toggles, and submission. */
module Register {
  import opened Models

  // ---------------------------------------------------------------------
  // Password match
  // ---------------------------------------------------------------------

  datatype ValidationError = PasswordMismatch

  /** A mismatch is reported only when both fields are filled in and they
      differ; an empty field is left to the required-field check. */
  function PasswordMatchValidator(password: string, confirmPassword: string): (r: Option<ValidationError>)
    ensures r == Some(PasswordMismatch) <==> password != [] && confirmPassword != [] && password != confirmPassword
    ensures r.None? <==> password == [] || confirmPassword == [] || password == confirmPassword
  {
    if password != [] && confirmPassword != [] && password != confirmPassword then Some(PasswordMismatch)
    else None
  }

  /** The check does not depend on which field was typed first, and a
      password always matches itself. */
  lemma PasswordMatchSymmetric(a: string, b: string)
    ensures PasswordMatchValidator(a, b) == PasswordMatchValidator(b, a)
    ensures PasswordMatchValidator(a, a).None?
  {
  }

  // ---------------------------------------------------------------------
  // Password strength
  // ---------------------------------------------------------------------

  const MinPasswordLength: int := 8

  /** The characters the special-character criterion looks for. */
  const SpecialChars: string := "!@#$%^&*(),.?\":{}|<>"

  datatype CharClass = Upper | Lower | Digit | Special

  predicate InClass(c: char, k: CharClass)
  {
    match k
    case Upper => 'A' <= c <= 'Z'
    case Lower => 'a' <= c <= 'z'
    case Digit => '0' <= c <= '9'
    case Special => c in SpecialChars
  }

  /** Whether some character of `s` is in class `k`. */
  function ContainsClass(s: string, k: CharClass): (b: bool)
    ensures b <==> exists i :: 0 <= i < |s| && InClass(s[i], k)
  {
    if s == [] then false
    else if InClass(s[0], k) then true
    else
      var b := ContainsClass(s[1..], k);
      assert b <==> exists i :: 1 <= i < |s| && InClass(s[i], k) by {
        if b {
          var j :| 0 <= j < |s| - 1 && InClass(s[1..][j], k);
          assert InClass(s[j + 1], k);
        }
      }
      b
  }

  /** The five criteria shown under the password field. */
  datatype Strength = Strength(
    minLength: bool,
    hasUpperCase: bool,
    hasLowerCase: bool,
    hasNumber: bool,
    hasSpecialChar: bool)

  /** The criteria a password meets: at least eight characters, and at
      least one upper-case letter, lower-case letter, digit and special
      character respectively. */
  function StrengthOf(password: string): (s: Strength)
    ensures s.minLength <==> |password| >= MinPasswordLength
    ensures s.hasUpperCase <==> exists i :: 0 <= i < |password| && 'A' <= password[i] <= 'Z'
    ensures s.hasLowerCase <==> exists i :: 0 <= i < |password| && 'a' <= password[i] <= 'z'
    ensures s.hasNumber <==> exists i :: 0 <= i < |password| && '0' <= password[i] <= '9'
    ensures s.hasSpecialChar <==> exists i :: 0 <= i < |password| && password[i] in SpecialChars
  {
    Strength(
      |password| >= MinPasswordLength,
      ContainsClass(password, Upper),
      ContainsClass(password, Lower),
      ContainsClass(password, Digit),
      ContainsClass(password, Special))
  }

  function Ind(b: bool): nat { if b then 1 else 0 }

  /** How many criteria are met. */
  function MetCount(s: Strength): (n: nat)
    ensures n <= 5
    ensures n == 0 <==> s == Strength(false, false, false, false, false)
    ensures n == 5 <==> s == Strength(true, true, true, true, true)
  {
    Ind(s.minLength) + Ind(s.hasUpperCase) + Ind(s.hasLowerCase) + Ind(s.hasNumber) + Ind(s.hasSpecialChar)
  }

  /** The share of criteria met, as a percentage (met / 5 * 100). */
  function Percentage(s: Strength): (p: int)
    ensures p == 20 * MetCount(s)
    ensures 0 <= p <= 100 && p % 20 == 0
  {
    MetCount(s) * 100 / 5
  }

  function Label(percentage: int): (name: string)
    ensures name in {"Weak", "Fair", "Good", "Strong"}
  {
    if percentage < 40 then "Weak"
    else if percentage < 60 then "Fair"
    else if percentage < 80 then "Good"
    else "Strong"
  }

  /** The colour of the strength bar for a label; any other text gets grey. */
  function Color(strengthLabel: string): (color: string)
    ensures strengthLabel !in {"Weak", "Fair", "Good", "Strong"} ==> color == "#6c757d"
  {
    if strengthLabel == "Weak" then "#dc3545"
    else if strengthLabel == "Fair" then "#fd7e14"
    else if strengthLabel == "Good" then "#ffc107"
    else if strengthLabel == "Strong" then "#28a745"
    else "#6c757d"
  }

  /** The label by number of criteria met: Weak for at most one, Fair for
      two, Good for three, Strong for four or five; the grey fallback colour
      is never shown for a computed label. */
  lemma LabelByCount(s: Strength)
    ensures Label(Percentage(s)) == "Weak" <==> MetCount(s) <= 1
    ensures Label(Percentage(s)) == "Fair" <==> MetCount(s) == 2
    ensures Label(Percentage(s)) == "Good" <==> MetCount(s) == 3
    ensures Label(Percentage(s)) == "Strong" <==> MetCount(s) >= 4
    ensures Color(Label(Percentage(s))) != "#6c757d"
  {
  }

  /** A password meeting all five criteria. */
  lemma StrongPasswordExample()
    ensures StrengthOf("Aa1!aaaa") == Strength(true, true, true, true, true)
  {
    var p := "Aa1!aaaa";
    assert InClass(p[0], Upper);
    assert InClass(p[1], Lower);
    assert InClass(p[2], Digit);
    assert p[3] == SpecialChars[0];
  }

  lemma LabelExamples()
    ensures Percentage(Strength(true, true, false, false, false)) == 40
    ensures Label(Percentage(Strength(true, false, false, false, false))) == "Weak"
    ensures Label(Percentage(Strength(true, true, false, false, false))) == "Fair"
    ensures Label(Percentage(Strength(true, true, true, false, false))) == "Good"
    ensures Label(Percentage(Strength(true, true, true, true, true))) == "Strong"
    ensures Color("Good") == "#ffc107" && Color("Weak") == "#dc3545"
    ensures Color("Fair") == "#fd7e14" && Color("Strong") == "#28a745" && Color("") == "#6c757d"
  {
  }

  // ---------------------------------------------------------------------
  // Submission
  // ---------------------------------------------------------------------

  /** The full name sent on registration: first name, a space, last name. */
  function FullName(firstName: string, lastName: string): (name: string)
    ensures |name| == |firstName| + 1 + |lastName|
    ensures name[..|firstName|] == firstName && name[|firstName|] == ' ' && name[|firstName| + 1..] == lastName
  {
    firstName + " " + lastName
  }

  /** The position of the first space in `s`, or |s| if there is none. */
  function FirstSpace(s: string): (k: nat)
    ensures k <= |s|
    ensures forall i :: 0 <= i < k ==> s[i] != ' '
    ensures k < |s| ==> s[k] == ' '
  {
    if s == [] || s[0] == ' ' then 0 else 1 + FirstSpace(s[1..])
  }

  /** A first name without spaces is recovered from the full name by cutting
      at the first space, and the last name is what follows it. */
  lemma FullNameSplits(firstName: string, lastName: string)
    requires ' ' !in firstName
    ensures var name := FullName(firstName, lastName);
            FirstSpace(name) == |firstName| &&
            name[..FirstSpace(name)] == firstName && name[FirstSpace(name) + 1..] == lastName
  {
  }

  const InvalidFormMessage: string := "Please fill in all required fields correctly"
  const FailureMessage: string := "Registration failed. Please try again."
  const SuccessMessage: string := "Registration successful! Redirecting to login..."

  /** The values of the form fields at submission. */
  datatype FormValue = FormValue(firstName: string, lastName: string, email: string, password: string)

  /** A registration request as sent to the server. */
  datatype UserRegister = UserRegister(fullName: string, email: string, password: string)

  class RegisterForm {
    var showPassword: bool
    var showConfirmPassword: bool
    var isLoading: bool
    var errorMessage: string
    var successMessage: string
    var passwordStrength: Strength
    /** Every registration request sent, oldest first. */
    var registrations: seq<UserRegister>

    constructor ()
      ensures !showPassword && !showConfirmPassword && !isLoading
      ensures errorMessage == [] && successMessage == [] && registrations == []
      ensures passwordStrength == Strength(false, false, false, false, false)
    {
      showPassword := false;
      showConfirmPassword := false;
      isLoading := false;
      errorMessage := [];
      successMessage := [];
      passwordStrength := Strength(false, false, false, false, false);
      registrations := [];
    }

    /** Show or hide the password; pressing twice restores the setting. */
    method TogglePasswordVisibility()
      modifies this`showPassword
      ensures showPassword == !old(showPassword)
    {
      showPassword := !showPassword;
    }

    /** Show or hide the confirmation; pressing twice restores the setting. */
    method ToggleConfirmPasswordVisibility()
      modifies this`showConfirmPassword
      ensures showConfirmPassword == !old(showConfirmPassword)
    {
      showConfirmPassword := !showConfirmPassword;
    }

    /** Recompute the five criteria for the password typed so far. */
    method UpdatePasswordStrength(password: string)
      modifies this`passwordStrength
      ensures passwordStrength == StrengthOf(password)
    {
      passwordStrength := passwordStrength.(minLength := |password| >= MinPasswordLength);
      passwordStrength := passwordStrength.(hasUpperCase := ContainsClass(password, Upper));
      passwordStrength := passwordStrength.(hasLowerCase := ContainsClass(password, Lower));
      passwordStrength := passwordStrength.(hasNumber := ContainsClass(password, Digit));
      passwordStrength := passwordStrength.(hasSpecialChar := ContainsClass(password, Special));
    }

    /** Submit the form. An invalid form only shows the fixed error message.
        Otherwise the messages are cleared and loading starts; then, if all
        four fields are filled in, the registration request is sent with the
        full name, and if not, the failure message is shown. */
    method OnSubmit(formValid: bool, value: FormValue)
      modifies this`isLoading, this`errorMessage, this`successMessage, this`registrations
      ensures !formValid ==>
        && errorMessage == InvalidFormMessage
        && isLoading == old(isLoading) && successMessage == old(successMessage)
        && registrations == old(registrations)
      ensures formValid && value.email != [] && value.password != [] && value.firstName != [] && value.lastName != [] ==>
        && isLoading && errorMessage == [] && successMessage == []
        && registrations == old(registrations) +
             [UserRegister(FullName(value.firstName, value.lastName), value.email, value.password)]
      ensures formValid && !(value.email != [] && value.password != [] && value.firstName != [] && value.lastName != []) ==>
        && !isLoading && errorMessage == FailureMessage && successMessage == []
        && registrations == old(registrations)
    {
      if !formValid {
        errorMessage := InvalidFormMessage;
        return;
      }
      isLoading := true;
      errorMessage := [];
      successMessage := [];
      if value.email != [] && value.password != [] && value.firstName != [] && value.lastName != [] {
        var newUser := UserRegister(value.firstName + " " + value.lastName, value.email, value.password);
        registrations := registrations + [newUser];
      } else {
        errorMessage := FailureMessage;
        isLoading := false;
      }
    }

    /** The server accepted the registration. */
    method OnRegisterSuccess()
      modifies this`isLoading, this`successMessage
      ensures !isLoading && successMessage == SuccessMessage
    {
      isLoading := false;
      successMessage := SuccessMessage;
    }

    /** The server refused the registration: its message is shown if it sent
        a non-empty one, the generic failure message otherwise. */
    method OnRegisterError(serverMessage: Option<string>)
      modifies this`isLoading, this`errorMessage
      ensures !isLoading
      ensures errorMessage == if serverMessage.Some? && serverMessage.value != [] then serverMessage.value else FailureMessage
    {
      isLoading := false;
      if serverMessage.Some? && serverMessage.value != [] {
        errorMessage := serverMessage.value;
      } else {
        errorMessage := FailureMessage;
      }
    }
  }
}
