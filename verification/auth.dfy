/** Registration, login and e-mail verification (app/use_cases/auth.py),
    each an ordered sequence of checks. */
module Auth {
  import opened Wrappers
  import opened User
  import opened UserRepo
  import opened Security

  const EmailTakenMessage: string := "Email already registered"
  const UsernameTakenMessage: string := "Username already taken"
  const InvalidCredentialsMessage: string := "Invalid credentials"
  const NotVerifiedMessage: string := "Email not verified"
  const NotImplementedMessage: string := "Email verification requires token repository"

  /** `RegisterUserUseCase.execute`; `now` stands for `datetime.utcnow()`.
      The outcome records every user handed to the repository's `create`. */
  function Register(
    repo: UserRepository, sec: Security, now: Timestamp,
    email: string, username: string, password: string): (o: Recorded<User, User>)
    ensures repo.getByEmail(email).Some? ==>
      o == Recorded(Failure(ValueError(EmailTakenMessage)), [])
    ensures repo.getByEmail(email).None? && repo.getByUsername(username).Some? ==>
      o == Recorded(Failure(ValueError(UsernameTakenMessage)), [])
    ensures repo.getByEmail(email).None? && repo.getByUsername(username).None? && |email| == 0 ==>
      o == Recorded(Failure(ValueError(EmailEmptyMessage)), [])
    ensures && repo.getByEmail(email).None? && repo.getByUsername(username).None?
            && |email| > 0 && |username| == 0 ==>
      o == Recorded(Failure(ValueError(UsernameEmptyMessage)), [])
    ensures o.result.Success? <==>
      && repo.getByEmail(email).None? && repo.getByUsername(username).None?
      && |email| > 0 && |username| > 0
    ensures o.result.Failure? ==> o.created == []
    ensures o.result.Success? ==>
      && |o.created| == 1
      && o.result.value == repo.create(o.created[0])
      && o.created[0].email == email && o.created[0].username == username
      && o.created[0].hashedPassword == sec.hashPassword(password)
      && !o.created[0].isVerified
      && o.created[0].id.None? && o.created[0].createdAt == Some(now)
  {
    if repo.getByEmail(email).Some? then
      Recorded(Failure(ValueError(EmailTakenMessage)), [])
    else if repo.getByUsername(username).Some? then
      Recorded(Failure(ValueError(UsernameTakenMessage)), [])
    else
      var hashed := sec.hashPassword(password);
      match NewUser(email := email, username := username, hashedPassword := hashed,
                    isVerified := false, createdAt := Some(now))
      case Failure(e) => Recorded(Failure(e), [])
      case Success(user) => Recorded(Success(repo.create(user)), [user])
  }

  /** `AuthenticateUserUseCase.execute`: the user and an access token for
      the user's id. */
  function Authenticate(repo: UserRepository, sec: Security, email: string, password: string)
    : (r: Result<(User, string), Exception>)
    ensures repo.getByEmail(email).None? ==> r == Failure(ValueError(InvalidCredentialsMessage))
    ensures repo.getByEmail(email).Some? ==>
      var user := repo.getByEmail(email).value;
      && (!sec.verifyPassword(password, user.hashedPassword) ==>
            r == Failure(ValueError(InvalidCredentialsMessage)))
      && (sec.verifyPassword(password, user.hashedPassword) && !user.isVerified ==>
            r == Failure(ValueError(NotVerifiedMessage)))
    ensures r.Success? <==>
      && repo.getByEmail(email).Some?
      && sec.verifyPassword(password, repo.getByEmail(email).value.hashedPassword)
      && repo.getByEmail(email).value.isVerified
    ensures r.Success? ==>
      r.value == (repo.getByEmail(email).value,
                  sec.createAccessToken(repo.getByEmail(email).value.id))
  {
    match repo.getByEmail(email)
    case None => Failure(ValueError(InvalidCredentialsMessage))
    case Some(user) =>
      if !sec.verifyPassword(password, user.hashedPassword) then
        Failure(ValueError(InvalidCredentialsMessage))
      else if !user.isVerified then
        Failure(ValueError(NotVerifiedMessage))
      else
        Success((user, sec.createAccessToken(user.id)))
  }

  /** `VerifyEmailUseCase.execute`: not implemented for any token. */
  function VerifyEmail(repo: UserRepository, token: string): (r: Result<User, Exception>)
    ensures r.Failure? && r.error.NotImplementedError?
    ensures r.error.message == NotImplementedMessage
  {
    Failure(NotImplementedError(NotImplementedMessage))
  }

  /** A repository whose `create` stores what it is given: the password hash
      and the verification flag survive. */
  predicate CreateKeepsCredentials(repo: UserRepository, user: User) {
    && repo.create(user).hashedPassword == user.hashedPassword
    && repo.create(user).isVerified == user.isVerified
  }

  /** A freshly registered user cannot log in: with the right password the
      login reports the unverified e-mail, with a wrong one the usual
      invalid credentials. */
  lemma {:induction false} RegisteredUserCannotLogIn(
    repo: UserRepository, after: UserRepository, sec: Security, now: Timestamp,
    email: string, username: string, password: string, attempt: string)
    requires Register(repo, sec, now, email, username, password).result.Success?
    requires CreateKeepsCredentials(repo, Register(repo, sec, now, email, username, password).created[0])
    requires after.getByEmail(email) == Some(Register(repo, sec, now, email, username, password).result.value)
    requires sec.verifyPassword(password, sec.hashPassword(password))
    ensures Authenticate(after, sec, email, attempt).Failure?
    ensures Authenticate(after, sec, email, password) == Failure(ValueError(NotVerifiedMessage))
  {
    var stored := Register(repo, sec, now, email, username, password).result.value;
    assert !stored.isVerified;
    assert stored.hashedPassword == sec.hashPassword(password);
  }
}
