/** Club leaders: the leader view projected from an accounts-service
    profile, resolved singly and in batch. */
module LeadersCrud {
  import opened Base
  import opened AccountsSdk

  /** A club leader as shown to clients; every field but the id may be
      unknown. */
  datatype Leader = Leader(innohassleId: string, name: Option<string>, email: Option<string>,
                           telegramAlias: Option<string>)

  /** The projection of a profile: its id, name and email from the
      single-sign-on part, and the Telegram username. */
  function LeaderFromUser(user: UserProfile): (l: Leader)
    ensures l.innohassleId == user.id
    ensures l.name.None? <==> user.innopolisSso.None?
    ensures l.email.None? <==> user.innopolisSso.None?
    ensures user.innopolisSso.Some? ==>
              l.name == Some(user.innopolisSso.value.name) && l.email == Some(user.innopolisSso.value.email)
    ensures l.telegramAlias.None? <==> user.telegram.None?
    ensures user.telegram.Some? ==> l.telegramAlias == Some(user.telegram.value.username)
  {
    Leader(
      user.id,
      if user.innopolisSso.Some? then Some(user.innopolisSso.value.name) else None,
      if user.innopolisSso.Some? then Some(user.innopolisSso.value.email) else None,
      if user.telegram.Some? then Some(user.telegram.value.username) else None)
  }

  /** Name and email are known together or not at all. */
  predicate NameAndEmailTogether(l: Leader) {
    l.name.None? <==> l.email.None?
  }

  /** The smallest profile that shows a given leader. */
  function ProfileOf(l: Leader): UserProfile
    requires NameAndEmailTogether(l)
  {
    UserProfile(
      l.innohassleId,
      if l.name.Some? then Some(InnopolisSso(l.name.value, l.email.value)) else None,
      if l.telegramAlias.Some? then Some(TelegramData(l.telegramAlias.value)) else None)
  }

  /** The leaders some profile projects to are exactly those whose name and
      email are known together. */
  lemma {:induction false} LeaderFromUserImage(l: Leader)
    ensures (exists p :: LeaderFromUser(p) == l) <==> NameAndEmailTogether(l)
  {
    if NameAndEmailTogether(l) {
      assert LeaderFromUser(ProfileOf(l)) == l;
    }
  }

  /** Resolving one account id: none when the accounts service knows no such
      user, else the projection of its profile. The id may itself be absent
      (a club without a leader), and is passed on as it is. */
  function ReadByInnohassleId(getUser: Option<string> -> Option<UserProfile>, innohassleId: Option<string>): (r: Option<Leader>)
    ensures r.None? <==> getUser(innohassleId).None?
    ensures r.Some? ==> r.value == LeaderFromUser(getUser(innohassleId).value)
  {
    match getUser(innohassleId)
    case None => None
    case Some(user) => Some(LeaderFromUser(user))
  }

  /** Projecting every profile of a dict, keeping its keys and their order. */
  function ProjectAll(items: seq<Entry<Option<string>, Option<UserProfile>>>): (r: seq<Entry<Option<string>, Option<Leader>>>)
    ensures |r| == |items|
    ensures forall i :: 0 <= i < |items| ==> r[i].key == items[i].key
    ensures forall i :: 0 <= i < |items| ==> (r[i].value.None? <==> items[i].value.None?)
    ensures forall i :: 0 <= i < |items| && items[i].value.Some? ==>
              r[i].value == Some(LeaderFromUser(items[i].value.value))
  {
    if |items| == 0 then []
    else
      var head := Entry(items[0].key, if items[0].value.Some? then Some(LeaderFromUser(items[0].value.value)) else None);
      [head] + ProjectAll(items[1..])
  }

  /** Resolving many ids with one batch call of the accounts service: the
      answer has the keys of the service's dict, in its order, each mapped to
      the projection of its profile or to none. */
  function ReadManyByInnohassleIds(getUsers: seq<Option<string>> -> seq<Entry<Option<string>, Option<UserProfile>>>,
                                   innohassleIds: seq<Option<string>>): (r: seq<Entry<Option<string>, Option<Leader>>>)
    ensures |r| == |getUsers(innohassleIds)|
    ensures forall i :: 0 <= i < |r| ==> r[i].key == getUsers(innohassleIds)[i].key
    ensures forall i :: 0 <= i < |r| ==>
              r[i].value == (match getUsers(innohassleIds)[i].value
                             case None => None
                             case Some(user) => Some(LeaderFromUser(user)))
  {
    ProjectAll(getUsers(innohassleIds))
  }
}
