/** The club document of the Mongo storage: the link and club enums, the
    link and club schemas with their defaults, the stored document, and the
    club collection with its unique indexes. */
module MongoClub {
  import opened Base

  datatype LinkType = TelegramChannel | TelegramChat | TelegramUser | ExternalUrl

  /** The string each link type is stored and sent as. */
  function LinkTypeValue(t: LinkType): string {
    match t
    case TelegramChannel => "telegram_channel"
    case TelegramChat => "telegram_chat"
    case TelegramUser => "telegram_user"
    case ExternalUrl => "external_url"
  }

  /** Validation of an incoming link type string: accepted exactly when it
      is the value of some link type, and then it is that type. */
  function ParseLinkType(s: string): (r: Option<LinkType>)
    ensures r.Some? ==> LinkTypeValue(r.value) == s
    ensures r.None? <==> forall t: LinkType :: LinkTypeValue(t) != s
  {
    if s == "telegram_channel" then Some(TelegramChannel)
    else if s == "telegram_chat" then Some(TelegramChat)
    else if s == "telegram_user" then Some(TelegramUser)
    else if s == "external_url" then Some(ExternalUrl)
    else None
  }

  /** Every link type's value parses back to that type. */
  lemma LinkTypeRoundTrip(t: LinkType)
    ensures ParseLinkType(LinkTypeValue(t)) == Some(t)
  {
  }

  /** A club resource link; `label` (here `linkLabel`, since `label` is a Dafny keyword) is optional. */
  datatype Link = Link(linkType: LinkType, link: string, linkLabel: Option<string>)

  /** A link built without a label. */
  function NewLink(linkType: LinkType, link: string): (l: Link)
    ensures l.linkType == linkType && l.link == link
    ensures l.linkLabel.None?
  {
    Link(linkType, link, None)
  }

  datatype ClubType = Tech | Sport | Hobby | Art

  /** The string each club type is stored and sent as. */
  function ClubTypeValue(t: ClubType): string {
    match t
    case Tech => "tech"
    case Sport => "sport"
    case Hobby => "hobby"
    case Art => "art"
  }

  /** Validation of an incoming club type string. */
  function ParseClubType(s: string): (r: Option<ClubType>)
    ensures r.Some? ==> ClubTypeValue(r.value) == s
    ensures r.None? <==> forall t: ClubType :: ClubTypeValue(t) != s
  {
    if s == "tech" then Some(Tech)
    else if s == "sport" then Some(Sport)
    else if s == "hobby" then Some(Hobby)
    else if s == "art" then Some(Art)
    else None
  }

  /** Every club type's value parses back to that type. */
  lemma ClubTypeRoundTrip(t: ClubType)
    ensures ParseClubType(ClubTypeValue(t)) == Some(t)
  {
  }

  /** Every field a club carries besides its id. `links` is ordered: it is
      shown in the order given. */
  datatype ClubSchema = ClubSchema(
    isActive: bool,
    slug: string,
    title: string,
    shortDescription: string,
    description: string,
    logoFileId: Option<string>,
    clubType: ClubType,
    leaderInnohassleId: Option<string>,
    links: seq<Link>,
    sportId: Option<string>)

  /** A schema built from its required fields only: every other field takes
      its declared default. */
  function NewClubSchema(slug: string, title: string, shortDescription: string,
                         description: string, clubType: ClubType): (s: ClubSchema)
    ensures s.slug == slug && s.title == title && s.clubType == clubType
    ensures s.shortDescription == shortDescription && s.description == description
    ensures s.isActive
    ensures s.logoFileId.None? && s.leaderInnohassleId.None? && s.sportId.None?
    ensures s.links == []
  {
    ClubSchema(true, slug, title, shortDescription, description, None, clubType, None, [], None)
  }

  /** A stored club document. */
  datatype Club = Club(id: ObjectId, schema: ClubSchema)

  /** The club collection: its documents in natural order, and the next
      ObjectId the id generator hands out. */
  datatype ClubCollection = ClubCollection(docs: seq<Club>, nextId: ObjectId) {

    /** The unique indexes hold (on `_id` and on `slug`), and every stored id
        was handed out before `nextId`. */
    predicate Valid() {
      && (forall i, j :: 0 <= i < j < |docs| ==> docs[i].id != docs[j].id)
      && (forall i, j :: 0 <= i < j < |docs| ==> docs[i].schema.slug != docs[j].schema.slug)
      && (forall i :: 0 <= i < |docs| ==> docs[i].id < nextId)
    }
  }

  /** In a valid collection, two stored clubs that share an id or a slug are
      the same document. */
  lemma {:induction false} UniqueKeys(s: ClubCollection, a: Club, b: Club)
    requires s.Valid() && a in s.docs && b in s.docs
    ensures a.id == b.id ==> a == b
    ensures a.schema.slug == b.schema.slug ==> a == b
  {
    var i :| 0 <= i < |s.docs| && s.docs[i] == a;
    var j :| 0 <= j < |s.docs| && s.docs[j] == b;
    if i < j {
      assert a.id != b.id && a.schema.slug != b.schema.slug;
    } else if j < i {
      assert a.id != b.id && a.schema.slug != b.schema.slug;
    }
  }
}
