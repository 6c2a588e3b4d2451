/** The authentication service: registration, login and the current-user
    lookup. Password hashing, hash comparison and token signing are library
    calls; they are parameters here. */
module AuthServices {
  import opened Wrappers
  import opened Text
  import opened Entities
  import opened Errors
  import opened UserRepo

  const CredentialsRequired: string := "Email and password are required"
  const PasswordTooShort: string := "Password must be at least 6 characters long"
  const EmailTaken: string := "User with this email already exists"
  const InvalidCredentials: string := "Invalid email or password"
  const UserNotFound: string := "User not found"
  const MinPassword: nat := 6

  /** The password and token library: `hash`, `compare` and `generateToken`. */
  datatype Crypto = Crypto(hash: string -> string, compare: (string, string) -> bool, sign: Payload -> string)

  /** A hash verifies against the password it was made from. */
  ghost predicate Sound(c: Crypto) {
    forall p :: c.compare(p, c.hash(p))
  }

  /** What register and login return: the user without its password, and a
      token for `{userId, email}`. */
  datatype Session = Session(user: PublicUser, token: string)

  function SessionFor(crypto: Crypto, u: User): (s: Session)
    ensures s.user == WithoutPassword(u)
    ensures s.token == crypto.sign(Payload(u.id, u.email))
  {
    Session(WithoutPassword(u), crypto.sign(Payload(u.id, u.email)))
  }

  /** `register`'s checks before anything is written, in order. */
  function RegisterViolation(repo: UserRepository, email: Field, password: Field): (r: Option<Error>)
    reads repo
    ensures r.Some? ==> r.value.ValidationError?
    ensures r.None? <==> Truthy(email) && Truthy(password) && Utf16Length(password.value) >= MinPassword
                         && repo.FindByEmail(email.value).None?
    ensures !Truthy(email) || !Truthy(password) ==> r == Some(ValidationError(CredentialsRequired))
    ensures Truthy(email) && Truthy(password) && Utf16Length(password.value) < MinPassword ==> r == Some(ValidationError(PasswordTooShort))
  {
    if !Truthy(email) || !Truthy(password) then Some(ValidationError(CredentialsRequired))
    else if Utf16Length(password.value) < MinPassword then Some(ValidationError(PasswordTooShort))
    else if repo.FindByEmail(email.value).Some? then Some(ValidationError(EmailTaken))
    else None
  }

  /** `register`: on success stores the email with `hash(password)` (never
      the password itself) and returns the new user and its token; on any
      failure the store is unchanged. Keeps emails unique. */
  method Register(repo: UserRepository, crypto: Crypto, email: Field, password: Field, now: int) returns (r: Result<Session, Error>)
    requires repo.Valid()
    modifies repo
    ensures repo.Valid()
    ensures repo.profiles == old(repo.profiles)
    ensures old(RegisterViolation(repo, email, password)).Some? ==>
              r == Failure(old(RegisterViolation(repo, email, password)).value)
              && repo.users == old(repo.users) && repo.nextUserId == old(repo.nextUserId)
    ensures old(RegisterViolation(repo, email, password)).None? ==>
              var u := User(old(repo.nextUserId), email.value, crypto.hash(password.value), now, now);
              && repo.users == old(repo.users) + [u]
              && repo.nextUserId == old(repo.nextUserId) + 1
              && r == Success(SessionFor(crypto, u))
    ensures old(repo.EmailsUnique()) ==> repo.EmailsUnique()
  {
    var violation := RegisterViolation(repo, email, password);
    if violation.Some? {
      return Failure(violation.value);
    }
    var hashed := crypto.hash(password.value);
    var user := repo.Create(email.value, hashed, now);
    r := Success(SessionFor(crypto, user));
  }

  /** `login`: an unknown email and a wrong password fail with the very same
      error; success requires the stored hash to verify. Nothing is written. */
  function Login(repo: UserRepository, crypto: Crypto, email: Field, password: Field): (r: Result<Session, Error>)
    reads repo
    ensures !Truthy(email) || !Truthy(password) ==> r == Failure(ValidationError(CredentialsRequired))
    ensures Truthy(email) && Truthy(password) ==>
              (r.Success? <==> repo.FindByEmail(email.value).Some?
                               && crypto.compare(password.value, repo.FindByEmail(email.value).value.password))
    ensures Truthy(email) && Truthy(password) && r.Failure? ==> r.error == AuthenticationError(InvalidCredentials)
    ensures r.Success? ==> r == Success(SessionFor(crypto, repo.FindByEmail(email.value).value))
  {
    if !Truthy(email) || !Truthy(password) then Failure(ValidationError(CredentialsRequired))
    else match repo.FindByEmail(email.value)
      case None => Failure(AuthenticationError(InvalidCredentials))
      case Some(user) =>
        if !crypto.compare(password.value, user.password) then Failure(AuthenticationError(InvalidCredentials))
        else Success(SessionFor(crypto, user))
  }

  /** After a registration appended `u` as the only user with its email, a
      login with the same credentials succeeds and yields `u`'s session. */
  lemma LoginAfterRegister(repo: UserRepository, crypto: Crypto, email: string, password: string)
    requires Sound(crypto)
    requires email != "" && password != ""
    requires |repo.users| > 0
    requires repo.users[|repo.users| - 1].email == email
    requires repo.users[|repo.users| - 1].password == crypto.hash(password)
    requires forall j :: 0 <= j < |repo.users| - 1 ==> repo.users[j].email != email
    ensures Login(repo, crypto, Some(email), Some(password)) == Success(SessionFor(crypto, repo.users[|repo.users| - 1]))
  {
    var u := repo.users[|repo.users| - 1];
    assert u in repo.users;
    var found := repo.FindByEmail(email);
    assert found == Some(u) by {
      var k :| 0 <= k < |repo.users| && repo.users[k] == found.value;
      assert k == |repo.users| - 1;
    }
    assert crypto.compare(password, crypto.hash(password));
  }

  /** `getCurrentUser`: the user without its password, or an authentication
      error for an unknown id. */
  function GetCurrentUser(repo: UserRepository, userId: int): (r: Result<PublicUser, Error>)
    reads repo
    ensures r.Failure? <==> forall u :: u in repo.users ==> u.id != userId
    ensures r.Failure? ==> r.error == AuthenticationError(UserNotFound)
    ensures r.Success? ==> r.value.id == userId && exists u :: u in repo.users && r.value == WithoutPassword(u)
  {
    match repo.FindById(userId)
    case None => Failure(AuthenticationError(UserNotFound))
    case Some(user) => Success(WithoutPassword(user))
  }
}
