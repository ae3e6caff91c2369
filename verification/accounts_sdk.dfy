/** The shapes the external accounts service answers with. The service
    itself (token decoding, user lookup by id or email, batch lookup) is not
    part of this model: callers receive its operations as function
    parameters. */
module AccountsSdk {
  import opened Base

  /** The university single-sign-on part of a profile. */
  datatype InnopolisSso = InnopolisSso(name: string, email: string)

  /** The Telegram part of a profile. */
  datatype TelegramData = TelegramData(username: string)

  /** A user profile of the accounts service. */
  datatype UserProfile = UserProfile(id: string, innopolisSso: Option<InnopolisSso>, telegram: Option<TelegramData>)

  /** What a valid bearer token decodes to. */
  datatype UserTokenData = UserTokenData(innohassleId: string, email: string)
}
