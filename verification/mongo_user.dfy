/** The user document of the Mongo storage: the role enum, the user schema
    with its default role, and the user collection with its unique index. */
module MongoUser {
  import opened Base

  datatype UserRole = Default | Admin

  /** The string each role is stored and sent as. */
  function UserRoleValue(r: UserRole): string {
    match r
    case Default => "default"
    case Admin => "admin"
  }

  /** Validation of an incoming role string. */
  function ParseUserRole(s: string): (r: Option<UserRole>)
    ensures r.Some? ==> UserRoleValue(r.value) == s
    ensures r.None? <==> forall t: UserRole :: UserRoleValue(t) != s
  {
    if s == "default" then Some(Default)
    else if s == "admin" then Some(Admin)
    else None
  }

  /** Every role's value parses back to that role. */
  lemma UserRoleRoundTrip(t: UserRole)
    ensures ParseUserRole(UserRoleValue(t)) == Some(t)
  {
  }

  /** The fields a user carries: its account id and its role. */
  datatype UserSchema = UserSchema(innohassleId: string, role: UserRole)

  /** A user built without a role. */
  function NewUserSchema(innohassleId: string): (u: UserSchema)
    ensures u.innohassleId == innohassleId
    ensures u.role == Default
  {
    UserSchema(innohassleId, Default)
  }

  /** A stored user document. */
  datatype User = User(id: ObjectId, schema: UserSchema)

  /** The user collection: its documents in natural order, and the next
      ObjectId the id generator hands out. */
  datatype UserCollection = UserCollection(docs: seq<User>, nextId: ObjectId) {

    /** The unique indexes hold (on `_id` and on `innohassle_id`), and every
        stored id was handed out before `nextId`. */
    predicate Valid() {
      && (forall i, j :: 0 <= i < j < |docs| ==> docs[i].id != docs[j].id)
      && (forall i, j :: 0 <= i < j < |docs| ==>
            docs[i].schema.innohassleId != docs[j].schema.innohassleId)
      && (forall i :: 0 <= i < |docs| ==> docs[i].id < nextId)
    }
  }

  /** In a valid collection, two stored users with the same account id are
      the same document. */
  lemma {:induction false} UniqueInnohassleIds(s: UserCollection, a: User, b: User)
    requires s.Valid() && a in s.docs && b in s.docs
    ensures a.schema.innohassleId == b.schema.innohassleId ==> a == b
  {
    var i :| 0 <= i < |s.docs| && s.docs[i] == a;
    var j :| 0 <= j < |s.docs| && s.docs[j] == b;
    if i < j {
      assert a.schema.innohassleId != b.schema.innohassleId;
    } else if j < i {
      assert a.schema.innohassleId != b.schema.innohassleId;
    }
  }
}
