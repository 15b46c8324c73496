/** The `User` and `EmailToken` entities (app/entities/user.py). */
module User {
  import opened Wrappers

  /** A point in time (`datetime`); only its identity matters here. */
  type Timestamp = int

  datatype User = User(
    id: Option<int>,
    email: string,
    username: string,
    hashedPassword: string,
    isVerified: bool,
    createdAt: Option<Timestamp>)

  /** An email-verification token; nothing about it is validated. */
  datatype EmailToken = EmailToken(
    id: Option<int>,
    userId: int,
    token: string,
    createdAt: Option<Timestamp>,
    expiresAt: Option<Timestamp>,
    isUsed: bool)

  const EmailEmptyMessage: string := "Email cannot be empty"
  const UsernameEmptyMessage: string := "Username cannot be empty"

  /** The `User` dataclass constructor, with its defaults, followed by
      `__post_init__`: the email is checked before the username, and neither
      is trimmed. */
  function NewUser(
    id: Option<int> := None,
    email: string := "",
    username: string := "",
    hashedPassword: string := "",
    isVerified: bool := false,
    createdAt: Option<Timestamp> := None): (r: Result<User, Exception>)
    ensures |email| == 0 ==> r == Failure(ValueError(EmailEmptyMessage))
    ensures |email| > 0 && |username| == 0 ==> r == Failure(ValueError(UsernameEmptyMessage))
    ensures r.Success? <==> |email| > 0 && |username| > 0
    ensures r.Success? ==>
      && r.value.id == id && r.value.email == email && r.value.username == username
      && r.value.hashedPassword == hashedPassword && r.value.isVerified == isVerified
      && r.value.createdAt == createdAt
  {
    if |email| == 0 then Failure(ValueError(EmailEmptyMessage))
    else if |username| == 0 then Failure(ValueError(UsernameEmptyMessage))
    else Success(User(id, email, username, hashedPassword, isVerified, createdAt))
  }

  /** A user built from just an email and a username is unverified, has no
      id and no creation time; whitespace-only names are accepted. */
  lemma NewUserDefaults(email: string, username: string)
    requires |email| > 0 && |username| > 0
    ensures NewUser(email := email, username := username)
         == Success(User(None, email, username, "", false, None))
    ensures NewUser(email := " ", username := "\t").Success?
  {
  }

  /** The `EmailToken` dataclass constructor with its defaults. */
  function NewEmailToken(
    id: Option<int> := None,
    userId: int := 0,
    token: string := "",
    createdAt: Option<Timestamp> := None,
    expiresAt: Option<Timestamp> := None,
    isUsed: bool := false): (t: EmailToken)
    ensures t.id == id && t.userId == userId && t.token == token
    ensures t.createdAt == createdAt && t.expiresAt == expiresAt && t.isUsed == isUsed
  {
    EmailToken(id, userId, token, createdAt, expiresAt, isUsed)
  }

  /** A token built without arguments is unused, for user 0, with no id, an
      empty token and no timestamps. */
  lemma EmailTokenDefaults()
    ensures NewEmailToken() == EmailToken(None, 0, "", None, None, false)
    ensures !NewEmailToken(userId := 7, token := "t").isUsed
  {
  }
}
