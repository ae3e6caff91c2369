/** The user route handlers: the caller's own record, and the role change
    reserved to superadmins. `auth` is the result of bearer authentication,
    which runs before the handler. */
module UsersRoutes {
  import opened Base
  import opened AccountsSdk
  import opened MongoUser
  import opened MongoClub
  import opened Dependencies
  import UsersCrud
  import ClubsCrud

  /** The caller's user record with the clubs it leads. */
  datatype UserWithClubs = UserWithClubs(innohassleId: string, role: UserRole, leaderInClubs: seq<Club>)

  /** The caller's record: its stored role, or the default role when no user
      is stored (nothing is written), and exactly the clubs it leads. */
  function GetMe(auth: AuthResult, users: UserCollection, clubs: ClubCollection): (r: Outcome<UserWithClubs>)
    ensures auth.AuthFailed? ==> r == Unauthorized(auth.error.noCredentials)
    ensures auth.Authenticated? ==> r.Ok? && r.value.innohassleId == auth.user.innohassleId
    ensures auth.Authenticated? && (forall u :: u in users.docs ==> u.schema.innohassleId != auth.user.innohassleId) ==>
              r.value.role == Default
    ensures auth.Authenticated? && users.Valid() ==>
              forall u :: u in users.docs && u.schema.innohassleId == auth.user.innohassleId ==> r.value.role == u.schema.role
    ensures auth.Authenticated? ==>
              forall c :: c in r.value.leaderInClubs <==>
                c in clubs.docs && c.schema.leaderInnohassleId == Some(auth.user.innohassleId)
    ensures auth.Authenticated? ==> multiset(r.value.leaderInClubs) <= multiset(clubs.docs)
  {
    match auth
    case AuthFailed(error) => Unauthorized(error.noCredentials)
    case Authenticated(currentUser) =>
      var userData := UsersCrud.ReadByInnohassleId(users, currentUser.innohassleId);
      var leaderInClubs := ClubsCrud.ReadByLeaderInnohassleId(clubs, currentUser.innohassleId);
      Ok(UserWithClubs(currentUser.innohassleId,
                       if userData.Some? then userData.value.schema.role else Default,
                       leaderInClubs))
  }

  /** Change the role of the user with the given email: 403 (no lookup, no
      write) unless the caller's email is a superadmin's; 404 (no write) when
      the accounts service knows no such email; otherwise the role change is
      applied to the target's account id. */
  function ChangeRole(auth: AuthResult, role: UserRole, userToChangeEmail: string, superadminEmails: seq<string>,
                      getUserByEmail: string -> Option<UserProfile>, users: UserCollection): (r: (Outcome<()>, UserCollection))
    ensures auth.AuthFailed? ==> r == (Unauthorized(auth.error.noCredentials), users)
    ensures auth.Authenticated? && auth.user.email !in superadminEmails ==>
              r == (Forbidden(Some("Only superadmin can change role")), users)
    ensures auth.Authenticated? && auth.user.email in superadminEmails && getUserByEmail(userToChangeEmail).None? ==>
              r == (NotFound("User to change not found"), users)
    ensures r.0.Ok? <==> auth.Authenticated? && auth.user.email in superadminEmails &&
                          getUserByEmail(userToChangeEmail).Some?
    ensures r.0.Ok? ==> r.1 == UsersCrud.ChangeRoleOfUser(users, getUserByEmail(userToChangeEmail).value.id, role).1
    ensures !r.0.Ok? ==> r.1 == users
  {
    match auth
    case AuthFailed(error) => (Unauthorized(error.noCredentials), users)
    case Authenticated(currentUser) =>
      if currentUser.email !in superadminEmails then (Forbidden(Some("Only superadmin can change role")), users)
      else
        match getUserByEmail(userToChangeEmail)
        case None => (NotFound("User to change not found"), users)
        case Some(userToChange) => (Ok(()), UsersCrud.ChangeRoleOfUser(users, userToChange.id, role).1)
  }

  /** After a successful role change, the target's account id reads a user
      with the requested role, and the caller's own record is untouched
      unless the caller is the target. */
  lemma ChangeRoleTargetsUser(auth: AuthResult, role: UserRole, userToChangeEmail: string, superadminEmails: seq<string>,
                              getUserByEmail: string -> Option<UserProfile>, users: UserCollection)
    requires users.Valid()
    requires ChangeRole(auth, role, userToChangeEmail, superadminEmails, getUserByEmail, users).0.Ok?
    ensures var s1 := ChangeRole(auth, role, userToChangeEmail, superadminEmails, getUserByEmail, users).1;
            var target := getUserByEmail(userToChangeEmail).value.id;
            s1.Valid() &&
            UsersCrud.ReadByInnohassleId(s1, target).Some? &&
            UsersCrud.ReadByInnohassleId(s1, target).value.schema.role == role &&
            (auth.user.innohassleId != target ==>
               UsersCrud.ReadByInnohassleId(s1, auth.user.innohassleId) == UsersCrud.ReadByInnohassleId(users, auth.user.innohassleId))
  {
    UsersCrud.ChangeRoleKeepsValid(users, getUserByEmail(userToChangeEmail).value.id, role);
  }
}
