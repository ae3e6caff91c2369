/** The user repository: lookup by account id, and the role change that
    creates the user when it is not stored yet. */
module UsersCrud {
  import opened Base
  import opened Seqs
  import opened MongoUser

  /** Position of the first user with the given account id. */
  function IndexOfInnohassleId(docs: seq<User>, innohassleId: string): (r: Option<nat>)
    ensures r.Some? ==> r.value < |docs| && docs[r.value].schema.innohassleId == innohassleId
    ensures r.Some? ==> forall j :: 0 <= j < r.value ==> docs[j].schema.innohassleId != innohassleId
    ensures r.None? <==> forall u :: u in docs ==> u.schema.innohassleId != innohassleId
  {
    FirstIndex(docs, (u: User) => u.schema.innohassleId == innohassleId)
  }

  /** The user with the given account id, or none. */
  function ReadByInnohassleId(s: UserCollection, innohassleId: string): (r: Option<User>)
    ensures r.None? <==> forall u :: u in s.docs ==> u.schema.innohassleId != innohassleId
    ensures r.Some? ==> r.value in s.docs && r.value.schema.innohassleId == innohassleId
    ensures s.Valid() ==> forall u :: u in s.docs && u.schema.innohassleId == innohassleId ==> r == Some(u)
  {
    match IndexOfInnohassleId(s.docs, innohassleId)
    case None => None
    case Some(i) =>
      assert s.Valid() ==> forall u :: u in s.docs && u.schema.innohassleId == innohassleId ==> u == s.docs[i] by {
        forall u | u in s.docs && u.schema.innohassleId == innohassleId && s.Valid() {
          UniqueInnohassleIds(s, u, s.docs[i]);
        }
      }
      Some(s.docs[i])
  }

  /** Upsert of a role: an unknown account id gets a new user document with
      the next ObjectId and the requested role; a known one keeps its
      document and id and only its role changes. Returns the user written
      and the collection afterwards. */
  function ChangeRoleOfUser(s: UserCollection, innohassleId: string, role: UserRole): (r: (User, UserCollection))
    ensures r.0.schema == UserSchema(innohassleId, role)
    ensures ReadByInnohassleId(s, innohassleId).None? ==>
              r.1.docs == s.docs + [r.0] && r.0.id == s.nextId && r.1.nextId == s.nextId + 1
    ensures ReadByInnohassleId(s, innohassleId).Some? ==>
              r.0.id == ReadByInnohassleId(s, innohassleId).value.id &&
              r.1.nextId == s.nextId && |r.1.docs| == |s.docs|
  {
    match IndexOfInnohassleId(s.docs, innohassleId)
    case None =>
      var user := User(s.nextId, UserSchema(innohassleId, role));
      (user, UserCollection(s.docs + [user], s.nextId + 1))
    case Some(i) =>
      var user := s.docs[i].(schema := s.docs[i].schema.(role := role));
      (user, UserCollection(s.docs[i := user], s.nextId))
  }

  /** A role change keeps the unique indexes; afterwards the account id
      reads the written user, with the requested role, and every other
      account id reads what it did before. */
  lemma {:induction false} ChangeRoleKeepsValid(s: UserCollection, innohassleId: string, role: UserRole)
    requires s.Valid()
    ensures ChangeRoleOfUser(s, innohassleId, role).1.Valid()
    ensures ReadByInnohassleId(ChangeRoleOfUser(s, innohassleId, role).1, innohassleId)
              == Some(ChangeRoleOfUser(s, innohassleId, role).0)
    ensures forall other :: other != innohassleId ==>
              ReadByInnohassleId(ChangeRoleOfUser(s, innohassleId, role).1, other)
                == ReadByInnohassleId(s, other)
  {
    var (user, s1) := ChangeRoleOfUser(s, innohassleId, role);
    match IndexOfInnohassleId(s.docs, innohassleId)
    case None =>
      assert s1.docs == s.docs + [user];
      assert s1.Valid();
      assert user in s1.docs;
    case Some(i) =>
      SetRoleKeepsValid(s, i, role);
      assert user == s1.docs[i];
      forall other | other != innohassleId
        ensures ReadByInnohassleId(s1, other) == ReadByInnohassleId(s, other)
      {
        SetRoleFrame(s, i, role, other);
      }
  }

  /** Changing the role of the stored user at `i` keeps the unique indexes. */
  lemma {:induction false} SetRoleKeepsValid(s: UserCollection, i: nat, role: UserRole)
    requires s.Valid() && i < |s.docs|
    ensures UserCollection(s.docs[i := s.docs[i].(schema := s.docs[i].schema.(role := role))], s.nextId).Valid()
  {
    var d := s.docs[i := s.docs[i].(schema := s.docs[i].schema.(role := role))];
    assert forall k :: 0 <= k < |d| ==> d[k].id == s.docs[k].id && d[k].schema.innohassleId == s.docs[k].schema.innohassleId;
  }

  /** Changing the role of the stored user at `i` does not change what
      another account id reads. */
  lemma {:induction false} SetRoleFrame(s: UserCollection, i: nat, role: UserRole, other: string)
    requires s.Valid() && i < |s.docs| && s.docs[i].schema.innohassleId != other
    requires UserCollection(s.docs[i := s.docs[i].(schema := s.docs[i].schema.(role := role))], s.nextId).Valid()
    ensures ReadByInnohassleId(UserCollection(s.docs[i := s.docs[i].(schema := s.docs[i].schema.(role := role))], s.nextId), other)
              == ReadByInnohassleId(s, other)
  {
    var s1 := UserCollection(s.docs[i := s.docs[i].(schema := s.docs[i].schema.(role := role))], s.nextId);
    forall u | u in s1.docs && u.schema.innohassleId == other ensures u in s.docs {
      var k :| 0 <= k < |s1.docs| && s1.docs[k] == u;
      assert k != i;
    }
    forall u | u in s.docs && u.schema.innohassleId == other ensures u in s1.docs {
      var k :| 0 <= k < |s.docs| && s.docs[k] == u;
      assert s1.docs[k] == u;
    }
  }

  /** Changing a role twice to the same value leaves the collection as
      changing it once. */
  lemma {:induction false} ChangeRoleIdempotent(s: UserCollection, innohassleId: string, role: UserRole)
    ensures var s1 := ChangeRoleOfUser(s, innohassleId, role).1;
            ChangeRoleOfUser(s1, innohassleId, role).1 == s1
  {
    var (user, s1) := ChangeRoleOfUser(s, innohassleId, role);
    var i :| 0 <= i < |s1.docs| && s1.docs[i] == user && forall j :: 0 <= j < i ==> s1.docs[j].schema.innohassleId != innohassleId by {
      match IndexOfInnohassleId(s.docs, innohassleId)
      case None =>
        assert s1.docs[|s.docs|] == user;
        assert forall j :: 0 <= j < |s.docs| ==> s1.docs[j] == s.docs[j];
      case Some(k) =>
        assert s1.docs[k] == user;
        assert forall j :: 0 <= j < k ==> s1.docs[j] == s.docs[j];
    }
    var i1 := IndexOfInnohassleId(s1.docs, innohassleId);
    assert i1.Some? by { assert s1.docs[i] in s1.docs; }
    assert i1.value == i;
    assert s1.docs[i := user] == s1.docs;
  }
}
