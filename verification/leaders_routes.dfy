/** The leader route handlers: all club leaders, and the leader of one club
    by id or slug. The accounts service lookups are parameters. */
module LeadersRoutes {
  import opened Base
  import opened AccountsSdk
  import opened MongoClub
  import opened LeadersCrud
  import ClubsCrud

  /** The leader id of every club, in club order, absent ones included. */
  function LeaderIds(clubs: seq<Club>): (r: seq<Option<string>>)
    ensures |r| == |clubs|
    ensures forall i :: 0 <= i < |clubs| ==> r[i] == clubs[i].schema.leaderInnohassleId
  {
    if |clubs| == 0 then [] else [clubs[0].schema.leaderInnohassleId] + LeaderIds(clubs[1..])
  }

  /** The keys of a dict that are not none: what iterating a dict and
      dropping none yields. */
  function PresentKeys<V>(items: seq<Entry<Option<string>, V>>): (r: seq<Option<string>>)
    ensures forall k :: k in r ==> k.Some?
    ensures forall k :: k in r <==> k.Some? && exists i :: 0 <= i < |items| && items[i].key == k
  {
    if |items| == 0 then []
    else if items[0].key.Some? then [items[0].key] + PresentKeys(items[1..])
    else PresentKeys(items[1..])
  }

  /** The values of a dict that are not none. */
  function PresentValues(items: seq<Entry<Option<string>, Option<Leader>>>): (r: seq<Leader>)
    ensures |r| <= |items|
    ensures forall l :: l in r <==> exists i :: 0 <= i < |items| && items[i].value == Some(l)
  {
    if |items| == 0 then []
    else if items[0].value.Some? then [items[0].value.value] + PresentValues(items[1..])
    else PresentValues(items[1..])
  }

  /** All club leaders, as written: the batch answer is a dict, and
      filtering a dict walks its keys, so the handler returns the non-none
      account ids rather than the resolved leaders. */
  function GetAllLeadersAsWritten(clubs: ClubCollection,
                                  getUsers: seq<Option<string>> -> seq<Entry<Option<string>, Option<UserProfile>>>)
    : (r: seq<Option<string>>)
    ensures forall k :: k in r ==> k.Some?
    ensures forall k :: k in r <==>
              k.Some? && exists i :: 0 <= i < |getUsers(LeaderIds(clubs.docs))| && getUsers(LeaderIds(clubs.docs))[i].key == k
  {
    PresentKeys(ReadManyByInnohassleIds(getUsers, LeaderIds(clubs.docs)))
  }

  /** The route as written returns some id exactly when the batch answer
      has a non-none key. */
  lemma AsWrittenNonEmptyIff(clubs: ClubCollection,
                             getUsers: seq<Option<string>> -> seq<Entry<Option<string>, Option<UserProfile>>>)
    ensures |GetAllLeadersAsWritten(clubs, getUsers)| > 0 <==>
              exists i :: 0 <= i < |getUsers(LeaderIds(clubs.docs))| && getUsers(LeaderIds(clubs.docs))[i].key.Some?
  {
    var ids := GetAllLeadersAsWritten(clubs, getUsers);
    var answer := getUsers(LeaderIds(clubs.docs));
    if |ids| > 0 {
      assert ids[0] in ids;
      var i :| 0 <= i < |answer| && answer[i].key == ids[0];
      assert answer[i].key.Some?;
    }
  }

  /** What the client receives from the route as written: the handler's
      list is checked against the declared `list[Leader]` response, which an
      account id string does not satisfy, so any non-empty list becomes a
      server error; only the empty list gets through. */
  function GetAllLeadersResponseAsWritten(clubs: ClubCollection,
                                          getUsers: seq<Option<string>> -> seq<Entry<Option<string>, Option<UserProfile>>>)
    : (r: Outcome<seq<Leader>>)
    ensures r == Ok([]) || r == ServerError
    ensures r == ServerError <==>
              exists i :: 0 <= i < |getUsers(LeaderIds(clubs.docs))| && getUsers(LeaderIds(clubs.docs))[i].key.Some?
  {
    AsWrittenNonEmptyIff(clubs, getUsers);
    if |GetAllLeadersAsWritten(clubs, getUsers)| == 0 then Ok([]) else ServerError
  }

  /** All club leaders, filtering the resolved values: one batch lookup of
      every club's leader id, and the leaders it found, none dropped. */
  function GetAllLeaders(clubs: ClubCollection,
                         getUsers: seq<Option<string>> -> seq<Entry<Option<string>, Option<UserProfile>>>)
    : (r: seq<Leader>)
    ensures |r| <= |getUsers(LeaderIds(clubs.docs))|
    ensures forall l :: l in r <==>
              exists i :: 0 <= i < |getUsers(LeaderIds(clubs.docs))| &&
                getUsers(LeaderIds(clubs.docs))[i].value.Some? &&
                l == LeaderFromUser(getUsers(LeaderIds(clubs.docs))[i].value.value)
  {
    var resolved := ReadManyByInnohassleIds(getUsers, LeaderIds(clubs.docs));
    var r := PresentValues(resolved);
    assert forall i :: 0 <= i < |resolved| ==>
             (resolved[i].value.Some? <==> getUsers(LeaderIds(clubs.docs))[i].value.Some?);
    r
  }

  /** One club led by a user the accounts service knows: the route as
      written returns that user's account id, where its leader profile was
      meant, and the client gets a server error instead of the leader. */
  lemma GetAllLeadersAsWrittenReturnsIds()
    ensures var p := UserProfile("u1", Some(InnopolisSso("Ann", "a@x")), None);
            var club := Club(0, NewClubSchema("chess", "Chess", "", "", Hobby).(leaderInnohassleId := Some("u1")));
            var clubs := ClubCollection([club], 1);
            var gateway := (ids: seq<Option<string>>) => [Entry(Some("u1"), Some(p))];
            GetAllLeadersAsWritten(clubs, gateway) == [Some("u1")] &&
            GetAllLeadersResponseAsWritten(clubs, gateway) == ServerError &&
            GetAllLeaders(clubs, gateway) == [Leader("u1", Some("Ann"), Some("a@x"), None)]
  {
    var p := UserProfile("u1", Some(InnopolisSso("Ann", "a@x")), None);
    var club := Club(0, NewClubSchema("chess", "Chess", "", "", Hobby).(leaderInnohassleId := Some("u1")));
    var clubs := ClubCollection([club], 1);
    var gateway := (ids: seq<Option<string>>) => [Entry(Some("u1"), Some(p))];
    var resolved := ReadManyByInnohassleIds(gateway, LeaderIds(clubs.docs));
    assert resolved == [Entry(Some("u1"), Some(LeaderFromUser(p)))];
    assert PresentKeys(resolved) == [Some("u1")];
    assert PresentValues(resolved) == [LeaderFromUser(p)];
  }

  /** The leader of the club with the given id: 404 when no club has it,
      otherwise the resolution of its leader id, which may be none. */
  function GetClubLeaderById(clubs: ClubCollection, id: ObjectId, getUser: Option<string> -> Option<UserProfile>)
    : (r: Outcome<Option<Leader>>)
    ensures r == NotFound("Club not found") <==> forall c :: c in clubs.docs ==> c.id != id
    ensures r.Ok? || r == NotFound("Club not found")
    ensures r.Ok? ==> exists c :: c in clubs.docs && c.id == id && r.value == ReadByInnohassleId(getUser, c.schema.leaderInnohassleId)
    ensures clubs.Valid() ==>
              forall c :: c in clubs.docs && c.id == id ==> r == Ok(ReadByInnohassleId(getUser, c.schema.leaderInnohassleId))
  {
    match ClubsCrud.Read(clubs, id)
    case None => NotFound("Club not found")
    case Some(club) => Ok(ReadByInnohassleId(getUser, club.schema.leaderInnohassleId))
  }

  /** The leader of the club with the given slug: 404 when no club has it,
      otherwise the resolution of its leader id, which may be none. */
  function GetClubLeaderBySlug(clubs: ClubCollection, slug: string, getUser: Option<string> -> Option<UserProfile>)
    : (r: Outcome<Option<Leader>>)
    ensures r == NotFound("Club not found") <==> forall c :: c in clubs.docs ==> c.schema.slug != slug
    ensures r.Ok? || r == NotFound("Club not found")
    ensures r.Ok? ==>
              exists c :: c in clubs.docs && c.schema.slug == slug &&
                r.value == ReadByInnohassleId(getUser, c.schema.leaderInnohassleId)
    ensures clubs.Valid() ==>
              forall c :: c in clubs.docs && c.schema.slug == slug ==>
                r == Ok(ReadByInnohassleId(getUser, c.schema.leaderInnohassleId))
  {
    match ClubsCrud.ReadBySlug(clubs, slug)
    case None => NotFound("Club not found")
    case Some(club) => Ok(ReadByInnohassleId(getUser, club.schema.leaderInnohassleId))
  }
}
