/** Resolving the current user from an `Authorization` header
    (App/interfaces/api/dependencies.py). Every failure is an HTTP error whose
    status is chosen by the caller, except an unverified user, which is
    always refused with 403. */
module Dependencies {
  import opened Wrappers
  import opened Text
  import opened User
  import opened UserRepo
  import opened Security

  const Unauthorized: int := 401
  const Forbidden: int := 403

  const MissingHeaderMessage: string := "Missing authorization header"
  const InvalidHeaderMessage: string := "Invalid authorization header"
  const InvalidSchemeMessage: string := "Invalid authentication scheme"
  const InvalidTokenMessage: string := "Invalid or expired token"
  const UserNotFoundMessage: string := "User not found"
  const NotVerifiedMessage: string := "User email not verified"

  /** The header is absent or empty (`not authorization`). */
  predicate MissingHeader(authorization: Option<string>) {
    authorization.None? || |authorization.value| == 0
  }

  /** The header splits into exactly a scheme and a token. */
  predicate TwoParts(authorization: Option<string>) {
    !MissingHeader(authorization) && |Split(authorization.value)| == 2
  }

  /** The scheme of a two-part header is "bearer" in any letter case. */
  predicate BearerScheme(authorization: Option<string>)
    requires TwoParts(authorization)
  {
    Lower(Split(authorization.value)[0]) == "bearer"
  }

  function TokenOf(authorization: Option<string>): string
    requires TwoParts(authorization)
  {
    Split(authorization.value)[1]
  }

  /** `verify_token` produced a usable id (`if not user_id` also rejects 0). */
  predicate UsableId(id: Option<int>) {
    id.Some? && id.value != 0
  }

  /** The header passed every check before the user lookup. */
  predicate AcceptedToken(authorization: Option<string>, sec: Security) {
    && TwoParts(authorization) && BearerScheme(authorization)
    && UsableId(sec.verifyToken(TokenOf(authorization)))
  }

  /** The user id an accepted header's token verifies to. */
  function ClaimedId(authorization: Option<string>, sec: Security): int
    requires AcceptedToken(authorization, sec)
  {
    sec.verifyToken(TokenOf(authorization)).value
  }

  /** An accepted header whose id names a stored user who is not verified. */
  predicate UnverifiedUser(authorization: Option<string>, repo: UserRepository, sec: Security) {
    && AcceptedToken(authorization, sec)
    && repo.getById(ClaimedId(authorization, sec)).Some?
    && !repo.getById(ClaimedId(authorization, sec)).value.isVerified
  }

  /** `_resolve_user(authorization, user_repo, error_status)`. */
  function ResolveUser(
    authorization: Option<string>, repo: UserRepository, sec: Security, errorStatus: int)
    : (r: Result<User, Exception>)
    ensures MissingHeader(authorization) ==>
      r == Failure(HttpException(errorStatus, MissingHeaderMessage))
    ensures !MissingHeader(authorization) && !TwoParts(authorization) ==>
      r == Failure(HttpException(errorStatus, InvalidHeaderMessage))
    ensures TwoParts(authorization) && !BearerScheme(authorization) ==>
      r == Failure(HttpException(errorStatus, InvalidSchemeMessage))
    ensures (&& TwoParts(authorization) && BearerScheme(authorization)
             && !UsableId(sec.verifyToken(TokenOf(authorization)))) ==>
      r == Failure(HttpException(errorStatus, InvalidTokenMessage))
    ensures AcceptedToken(authorization, sec) && repo.getById(ClaimedId(authorization, sec)).None? ==>
      r == Failure(HttpException(errorStatus, UserNotFoundMessage))
    ensures UnverifiedUser(authorization, repo, sec) ==>
      r == Failure(HttpException(Forbidden, NotVerifiedMessage))
    ensures r.Failure? ==> r.error.HttpException?
    ensures r.Failure? && r.error.status != errorStatus ==>
      r.error == HttpException(Forbidden, NotVerifiedMessage)
    ensures r.Success? <==>
      && TwoParts(authorization) && BearerScheme(authorization)
      && UsableId(sec.verifyToken(TokenOf(authorization)))
      && repo.getById(sec.verifyToken(TokenOf(authorization)).value).Some?
      && repo.getById(sec.verifyToken(TokenOf(authorization)).value).value.isVerified
    ensures r.Success? ==>
      Some(r.value) == repo.getById(sec.verifyToken(TokenOf(authorization)).value)
  {
    if authorization.None? || |authorization.value| == 0 then
      Failure(HttpException(errorStatus, MissingHeaderMessage))
    else
      var parts := Split(authorization.value);
      if |parts| != 2 then
        Failure(HttpException(errorStatus, InvalidHeaderMessage))
      else if Lower(parts[0]) != "bearer" then
        Failure(HttpException(errorStatus, InvalidSchemeMessage))
      else
        var userId := sec.verifyToken(parts[1]);
        if userId.None? || userId.value == 0 then
          Failure(HttpException(errorStatus, InvalidTokenMessage))
        else
          match repo.getById(userId.value)
          case None => Failure(HttpException(errorStatus, UserNotFoundMessage))
          case Some(user) =>
            if !user.isVerified then Failure(HttpException(Forbidden, NotVerifiedMessage))
            else Success(user)
  }

  /** `get_current_user`: failures are 401, except an unverified user (403). */
  function GetCurrentUser(authorization: Option<string>, repo: UserRepository, sec: Security)
    : (r: Result<User, Exception>)
    ensures r.Failure? ==> r.error.HttpException? && r.error.status in {Unauthorized, Forbidden}
    ensures r.Failure? && r.error.status == Forbidden ==> r.error.detail == NotVerifiedMessage
    ensures UnverifiedUser(authorization, repo, sec) ==>
      r == Failure(HttpException(Forbidden, NotVerifiedMessage))
    ensures r.Failure? && !UnverifiedUser(authorization, repo, sec) ==> r.error.status == Unauthorized
    ensures r.Success? <==> ResolveUser(authorization, repo, sec, Forbidden).Success?
    ensures r.Failure? ==> r.error.detail == ResolveUser(authorization, repo, sec, Forbidden).error.detail
    ensures r.Success? ==>
      AcceptedToken(authorization, sec) && Some(r.value) == repo.getById(ClaimedId(authorization, sec))
  {
    ResolveUser(authorization, repo, sec, Unauthorized)
  }

  /** `get_current_user_forbidden`: every failure is 403. */
  function GetCurrentUserForbidden(authorization: Option<string>, repo: UserRepository, sec: Security)
    : (r: Result<User, Exception>)
    ensures r.Failure? ==> r.error.HttpException? && r.error.status == Forbidden
    ensures r.Success? <==> ResolveUser(authorization, repo, sec, Unauthorized).Success?
    ensures r.Failure? ==> r.error.detail == ResolveUser(authorization, repo, sec, Unauthorized).error.detail
    ensures r.Success? ==>
      AcceptedToken(authorization, sec) && Some(r.value) == repo.getById(ClaimedId(authorization, sec))
  {
    ResolveUser(authorization, repo, sec, Forbidden)
  }

  /** A header made of a scheme spelled "bearer" in any case, a single space
      and a whitespace-free token is resolved by verifying exactly that
      token. */
  lemma BearerHeaderUsesToken(scheme: string, token: string)
    requires SpellsIgnoringCase(scheme, "bearer")
    requires |token| > 0 && NoSpace(token)
    ensures TwoParts(Some(scheme + " " + token))
    ensures BearerScheme(Some(scheme + " " + token))
    ensures TokenOf(Some(scheme + " " + token)) == token
  {
    assert NoSpace(scheme) by {
      forall i | 0 <= i < |scheme|
        ensures !IsSpace(scheme[i])
      {
        assert scheme[i] == "bearer"[i] || scheme[i] as int == "bearer"[i] as int - 32;
      }
    }
    SplitJoinSpaced([scheme, token]);
    assert JoinSpaced([scheme, token]) == scheme + " " + token;
    LowerEqualsIffSpells(scheme, "bearer");
  }

  /** A token issued at login is accepted on the next request: when
      `verify_token` recovers the id the token was created for, the header
      "Bearer <token>" resolves to the stored, verified user. */
  lemma {:induction false} IssuedTokenResolves(
    repo: UserRepository, sec: Security, user: User, errorStatus: int)
    requires user.id.Some? && user.id.value != 0
    requires repo.getById(user.id.value) == Some(user) && user.isVerified
    requires sec.verifyToken(sec.createAccessToken(user.id)) == user.id
    requires |sec.createAccessToken(user.id)| > 0 && NoSpace(sec.createAccessToken(user.id))
    ensures ResolveUser(Some("Bearer " + sec.createAccessToken(user.id)), repo, sec, errorStatus)
         == Success(user)
  {
    var token := sec.createAccessToken(user.id);
    assert "Bearer " + token == "Bearer" + " " + token;
    BearerHeaderUsesToken("Bearer", token);
  }
}
