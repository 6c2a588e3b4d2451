/** The register and login validators. validator.js's `isEmail` is a
    parameter of the model; the password rules are written out. */
module AuthValidation {
  import opened Wrappers
  import opened Text
  import opened Entities
  import opened Validation
  import Svc = AuthServices
  import Repo = UserRepo

  const EmailInvalid: string := "Please provide a valid email address"
  const PasswordTooShort: string := "Password must be at least 6 characters long"
  const PasswordNeedsLetter: string := "Password must contain at least one letter"
  const PasswordNeedsDigit: string := "Password must contain at least one number"
  const PasswordRequired: string := "Password is required"

  const MinPassword: nat := 6

  /** `/[A-Za-z]/` finds a match. */
  predicate HasLetter(p: string) {
    exists i :: 0 <= i < |p| && ('A' <= p[i] <= 'Z' || 'a' <= p[i] <= 'z')
  }

  /** `/[0-9]/` finds a match. */
  predicate HasDigit(p: string) {
    exists i :: 0 <= i < |p| && '0' <= p[i] <= '9'
  }

  /** The password chain of `validateRegister`: all three rules run, so a
      password may collect up to three messages. The minimum length is
      `isLength`'s, so variation selectors do not count towards it. */
  function PasswordErrors(p: string): (errs: seq<string>)
    ensures errs == [] <==> ValidatorLength(p) >= MinPassword && HasLetter(p) && HasDigit(p)
    ensures p == "" ==> errs == [PasswordTooShort, PasswordNeedsLetter, PasswordNeedsDigit]
  {
    Check(ValidatorLength(p) >= MinPassword, PasswordTooShort)
    + Check(HasLetter(p), PasswordNeedsLetter)
    + Check(HasDigit(p), PasswordNeedsDigit)
  }

  /** A variation selector does not count towards the minimum: five visible
      characters and U+FE0F are six UTF-16 units but too short for the
      chain. */
  lemma SelectorDoesNotCount()
    ensures Utf16Length("abc12\U{FE0F}") == MinPassword
    ensures PasswordErrors("abc12\U{FE0F}") == [PasswordTooShort]
  {
    var p := "abc12\U{FE0F}";
    assert ValidatorLength(p) == 5 by {
      assert IsVariationSelector(p[5]);
      assert p[1..][1..][1..][1..][1..] == "\U{FE0F}";
    }
    assert HasLetter(p) by {
      assert 'a' <= p[0] <= 'z';
    }
    assert HasDigit(p) by {
      assert '0' <= p[3] <= '9';
    }
  }

  /** `validateRegister`'s messages: the email first, then the password's. */
  function RegisterErrors(email: Field, isEmail: string -> bool, password: Field): (errs: seq<string>)
    ensures errs == [] <==> isEmail(Seen(email)) && ValidatorLength(Seen(password)) >= MinPassword
                            && HasLetter(Seen(password)) && HasDigit(Seen(password))
    ensures !isEmail(Seen(email)) ==> errs[0] == EmailInvalid
  {
    Check(isEmail(Seen(email)), EmailInvalid) + PasswordErrors(Seen(password))
  }

  /** `validateLogin`'s messages: a valid email and a non-empty password
      (white space counts: `notEmpty` does not trim here). */
  function LoginErrors(email: Field, isEmail: string -> bool, password: Field): (errs: seq<string>)
    ensures errs == [] <==> isEmail(Seen(email)) && Truthy(password)
  {
    Check(isEmail(Seen(email)), EmailInvalid) + Check(Seen(password) != "", PasswordRequired)
  }

  /** A request the register chain accepts passes `register`'s own input
      checks; only the duplicate-email check remains. validator.js rejects
      the empty string as an email. */
  lemma RegisterValidatorImpliesServiceChecks(repo: Repo.UserRepository, email: Field, isEmail: string -> bool, password: Field)
    requires !isEmail("")
    requires RegisterErrors(email, isEmail, password) == []
    ensures Svc.RegisterViolation(repo, email, password).None? <==> repo.FindByEmail(email.value).None?
    ensures Svc.RegisterViolation(repo, email, password).Some? ==>
              Svc.RegisterViolation(repo, email, password).value == Errors.ValidationError(Svc.EmailTaken)
  {
    assert email.Some? && email.value != "";
    ValidatorLengthAtMostUtf16(password.value);
    assert Utf16Length(password.value) >= MinPassword;
  }

  /** A request the login chain accepts never meets `login`'s "required"
      error: the service goes on to look the user up. */
  lemma LoginValidatorImpliesServiceChecks(repo: Repo.UserRepository, crypto: Svc.Crypto, email: Field,
                                           isEmail: string -> bool, password: Field)
    requires !isEmail("")
    requires LoginErrors(email, isEmail, password) == []
    ensures Svc.Login(repo, crypto, email, password) != Failure(Errors.ValidationError(Svc.CredentialsRequired))
  {
    assert Truthy(email);
  }
}
