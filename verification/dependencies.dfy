/** Bearer authentication of a request: a missing or empty credential and a
    token the accounts service rejects are told apart. */
module Dependencies {
  import opened Base
  import opened AccountsSdk

  /** The bearer credentials of a request's authorization header. */
  datatype Credentials = Credentials(scheme: string, credentials: string)

  /** The authentication error, tagged with its cause. */
  datatype IncorrectCredentials = IncorrectCredentials(noCredentials: bool)

  datatype AuthResult = Authenticated(user: UserTokenData) | AuthFailed(error: IncorrectCredentials)

  /** The token a request carries: none without credentials, else the
      credential string (possibly empty). */
  function TokenOf(bearer: Option<Credentials>): Option<string> {
    if bearer.Some? then Some(bearer.value.credentials) else None
  }

  /** Authenticating the current user: no token or an empty one fails with
      `no_credentials`, without consulting the decoder; a token the decoder
      rejects fails without it; otherwise the decoded token data is the
      user. */
  function GetCurrentUserAuth(bearer: Option<Credentials>, decodeToken: string -> Option<UserTokenData>): (r: AuthResult)
    ensures (TokenOf(bearer).None? || TokenOf(bearer) == Some("")) ==> r == AuthFailed(IncorrectCredentials(true))
    ensures r == AuthFailed(IncorrectCredentials(false)) <==>
              TokenOf(bearer).Some? && TokenOf(bearer).value != "" && decodeToken(TokenOf(bearer).value).None?
    ensures r.Authenticated? <==>
              TokenOf(bearer).Some? && TokenOf(bearer).value != "" && decodeToken(TokenOf(bearer).value).Some?
    ensures r.Authenticated? ==> r.user == decodeToken(TokenOf(bearer).value).value
  {
    var token := TokenOf(bearer);
    if token.None? || token.value == "" then AuthFailed(IncorrectCredentials(true))
    else
      match decodeToken(token.value)
      case None => AuthFailed(IncorrectCredentials(false))
      case Some(tokenData) => Authenticated(tokenData)
  }

  /** Without a non-empty token the outcome does not depend on the decoder. */
  lemma DecoderOnlyForTokens(bearer: Option<Credentials>, d1: string -> Option<UserTokenData>,
                             d2: string -> Option<UserTokenData>)
    requires TokenOf(bearer).None? || TokenOf(bearer) == Some("")
    ensures GetCurrentUserAuth(bearer, d1) == GetCurrentUserAuth(bearer, d2)
  {
  }
}
