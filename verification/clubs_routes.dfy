/** The club route handlers: create, get, edit and delete a club, and get or
    set its logo. `admin` is whether the admin guard let the caller through;
    image sniffing and conversion, and the generated logo file id, are
    parameters. */
module ClubsRoutes {
  import opened Base
  import opened MongoClub
  import ClubsCrud

  /** Create a club; a duplicate slug is not caught and surfaces as a server
      error. */
  function CreateClub(clubs: ClubCollection, clubInfo: ClubSchema, admin: bool): (r: (Outcome<Club>, ClubCollection))
    ensures !admin ==> r == (Forbidden(None), clubs)
    ensures admin && r.0.Ok? ==> r.0.value.schema == clubInfo && r.1.docs == clubs.docs + [r.0.value]
    ensures admin && !r.0.Ok? ==> r == (ServerError, clubs)
    ensures admin ==> (r.0 == ServerError <==> exists c :: c in clubs.docs && c.schema.slug == clubInfo.slug)
  {
    if !admin then (Forbidden(None), clubs)
    else
      match ClubsCrud.Create(clubs, clubInfo)
      case DuplicateKey => (ServerError, clubs)
      case Done(club, s) => (Ok(club), s)
  }

  /** Get a club by id: 404 when absent, else the stored club. */
  function GetClubInfo(clubs: ClubCollection, id: ObjectId): (r: Outcome<Club>)
    ensures r == NotFound("Club not found") <==> forall c :: c in clubs.docs ==> c.id != id
    ensures r.Ok? || r == NotFound("Club not found")
    ensures r.Ok? ==> r.value in clubs.docs && r.value.id == id
  {
    match ClubsCrud.Read(clubs, id)
    case None => NotFound("Club not found")
    case Some(club) => Ok(club)
  }

  /** Get a club by slug: 404 when absent, else the club with that slug. */
  function GetClubInfoBySlug(clubs: ClubCollection, slug: string): (r: Outcome<Club>)
    ensures r == NotFound("Club not found") <==> forall c :: c in clubs.docs ==> c.schema.slug != slug
    ensures r.Ok? || r == NotFound("Club not found")
    ensures r.Ok? ==> r.value in clubs.docs && r.value.schema.slug == slug
  {
    match ClubsCrud.ReadBySlug(clubs, slug)
    case None => NotFound("Club not found")
    case Some(club) => Ok(club)
  }

  /** Edit a club by id: 404 exactly when no club has the id; a slug
      conflict is not caught (server error); otherwise the updated club. */
  function EditClubInfo(clubs: ClubCollection, id: ObjectId, clubInfo: ClubsCrud.UpdateClub, admin: bool)
    : (r: (Outcome<Club>, ClubCollection))
    ensures !admin ==> r == (Forbidden(None), clubs)
    ensures admin ==> (r.0 == NotFound("Club not found") <==> forall c :: c in clubs.docs ==> c.id != id)
    ensures admin ==> (r.0 == ServerError <==>
              (exists c :: c in clubs.docs && c.id == id) && ClubsCrud.SlugHeldByOther(clubs.docs, clubInfo.schema.slug, id))
    ensures !r.0.Ok? ==> r.1 == clubs
    ensures r.0.Ok? ==> r.0.value == Club(id, clubInfo.schema) && r.1 == ClubsCrud.Replace(clubs, r.0.value)
  {
    if !admin then (Forbidden(None), clubs)
    else
      match ClubsCrud.Update(clubs, id, clubInfo.schema)
      case DuplicateKey => (ServerError, clubs)
      case Done(None, s) => (NotFound("Club not found"), s)
      case Done(Some(club), s) => (Ok(club), s)
  }

  /** Edit a club by slug: 404 when no club has the slug; 400 when the new
      slug belongs to another club; otherwise that club, updated. */
  function EditClubInfoBySlug(clubs: ClubCollection, slug: string, clubInfo: ClubsCrud.UpdateClub, admin: bool)
    : (r: (Outcome<Club>, ClubCollection))
    ensures !admin ==> r == (Forbidden(None), clubs)
    ensures admin ==> (r.0 == NotFound("Club not found") <==> forall c :: c in clubs.docs ==> c.schema.slug != slug)
    ensures admin && r.0 == BadRequest("Slug already exists") ==>
              exists c :: c in clubs.docs && c.schema.slug == slug &&
                ClubsCrud.SlugHeldByOther(clubs.docs, clubInfo.schema.slug, c.id)
    ensures admin && clubs.Valid() ==>
              (r.0 == BadRequest("Slug already exists") <==>
                 exists c :: c in clubs.docs && c.schema.slug == slug &&
                   ClubsCrud.SlugHeldByOther(clubs.docs, clubInfo.schema.slug, c.id))
    ensures admin ==> r.0.Ok? || r.0 == NotFound("Club not found") || r.0 == BadRequest("Slug already exists")
    ensures !r.0.Ok? ==> r.1 == clubs
    ensures r.0.Ok? ==>
              exists c :: c in clubs.docs && c.schema.slug == slug &&
                r.0.value == Club(c.id, clubInfo.schema) && r.1 == ClubsCrud.Replace(clubs, r.0.value)
  {
    if !admin then (Forbidden(None), clubs)
    else
      match ClubsCrud.ReadBySlug(clubs, slug)
      case None => (NotFound("Club not found"), clubs)
      case Some(club) =>
        match ClubsCrud.Update(clubs, club.id, clubInfo.schema)
        case DuplicateKey => (BadRequest("Slug already exists"), clubs)
        case Done(None, s) => assert false; (ServerError, s)
        case Done(Some(updated), s) => (Ok(updated), s)
  }

  /** Editing by slug keeps the unique indexes: a conflicting slug is
      refused before anything is written. */
  lemma EditClubInfoBySlugKeepsValid(clubs: ClubCollection, slug: string, clubInfo: ClubsCrud.UpdateClub, admin: bool)
    requires clubs.Valid()
    ensures EditClubInfoBySlug(clubs, slug, clubInfo, admin).1.Valid()
  {
    var found := ClubsCrud.ReadBySlug(clubs, slug);
    if admin && found.Some? {
      ClubsCrud.UpdateKeepsValid(clubs, found.value.id, clubInfo.schema);
    }
  }

  /** Delete a club by id, as written: the repository call is never awaited,
      so nothing is deleted and the 404 branch is never taken. */
  function DeleteClubAsWritten(clubs: ClubCollection, id: ObjectId, admin: bool): (r: (Outcome<()>, ClubCollection))
    ensures !admin ==> r == (Forbidden(None), clubs)
    ensures admin ==> r.0 == Ok(())
    ensures r.1 == clubs
  {
    if !admin then (Forbidden(None), clubs) else (Ok(()), clubs)
  }

  /** An existing club survives the delete route as written. */
  lemma DeleteClubAsWrittenKeepsClub(clubs: ClubCollection, c: Club)
    requires c in clubs.docs
    ensures DeleteClubAsWritten(clubs, c.id, true) == (Ok(()), clubs)
    ensures ClubsCrud.Read(DeleteClubAsWritten(clubs, c.id, true).1, c.id).Some?
    ensures ClubsCrud.Read(DeleteClub(clubs, c.id, true).1, c.id).None? || !clubs.Valid()
  {
    if clubs.Valid() {
      ClubsCrud.DeleteKeepsValid(clubs, c.id);
    }
  }

  /** Delete a club by id, with the repository call awaited: 404 exactly
      when no club had the id; the collection is the repository delete's. */
  function DeleteClub(clubs: ClubCollection, id: ObjectId, admin: bool): (r: (Outcome<()>, ClubCollection))
    ensures !admin ==> r == (Forbidden(None), clubs)
    ensures admin ==> (r.0 == NotFound("Club not found") <==> forall c :: c in clubs.docs ==> c.id != id)
    ensures admin ==> r.0.Ok? || r.0 == NotFound("Club not found")
    ensures admin ==> r.1 == ClubsCrud.Delete(clubs, id).1
  {
    if !admin then (Forbidden(None), clubs)
    else
      var (deleted, s) := ClubsCrud.Delete(clubs, id);
      if !deleted then (NotFound("Club not found"), s) else (Ok(()), s)
  }

  /** A served logo: the stored file, sent as a WebP image named after the
      club's slug. */
  datatype LogoStream = LogoStream(fileId: string, mediaType: string, contentDisposition: string)

  /** Get a club's logo. Unlike the other by-id routes, the id arrives as a
      plain string and is parsed only by the lookup, which raises (a server
      error) when `parseId` rejects it. Then: 404 when the club is absent,
      404 when it has no logo or an empty logo id, else its file as
      `image/webp`. */
  function GetClubLogo(clubs: ClubCollection, rawId: string, parseId: string -> Option<ObjectId>): (r: Outcome<LogoStream>)
    ensures r == ServerError <==> parseId(rawId).None?
    ensures parseId(rawId).Some? ==>
              (r == NotFound("Club not found") <==> forall c :: c in clubs.docs ==> c.id != parseId(rawId).value)
    ensures r == NotFound("No logo available") ==>
              exists c :: c in clubs.docs && c.id == parseId(rawId).value && c.schema.logoFileId in {None, Some("")}
    ensures r.Ok? || r == ServerError || r == NotFound("Club not found") || r == NotFound("No logo available")
    ensures r.Ok? ==>
              exists c :: c in clubs.docs && c.id == parseId(rawId).value && c.schema.logoFileId == Some(r.value.fileId) &&
                r.value.fileId != "" && r.value.mediaType == "image/webp" &&
                r.value.contentDisposition == "inline; filename=" + c.schema.slug + ".webp"
  {
    match parseId(rawId)
    case None => ServerError
    case Some(id) =>
      match ClubsCrud.Read(clubs, id)
      case None => NotFound("Club not found")
      case Some(club) =>
        if club.schema.logoFileId.None? || club.schema.logoFileId.value == "" then NotFound("No logo available")
        else Ok(LogoStream(club.schema.logoFileId.value, "image/webp",
                           "inline; filename=" + club.schema.slug + ".webp"))
  }

  /** An uploaded file: its bytes and the content type it declared, if any. */
  datatype Upload = Upload(content: Bytes, contentType: Option<string>)

  /** A file written to the logo storage. */
  datatype StoredFile = StoredFile(fileId: string, content: Bytes)

  /** The answer of the set-logo route, the club collection afterwards, and
      the file it wrote, if any. */
  datatype SetLogoResult = SetLogoResult(outcome: Outcome<Club>, store: ClubCollection, written: Option<StoredFile>)

  const AllowedContentTypes: seq<string> := ["image/jpeg", "image/png", "image/webp"]

  /** The declared content type, or the sniffed one when none is declared. */
  function ContentTypeOf(upload: Upload, sniff: Bytes -> string): string {
    if upload.contentType.Some? then upload.contentType.value else sniff(upload.content)
  }

  /** Whether the upload's content type is one the route converts to WebP. */
  predicate NeedsConversion(contentType: string) {
    contentType == "image/jpeg" || contentType == "image/png"
  }

  /** Set a club's logo: 404 for an unknown club before the upload is looked
      at; 400 for a content type outside JPEG, PNG and WebP; otherwise JPEG
      and PNG are converted to WebP, WebP is stored as uploaded, and only the
      club's `logo_file_id` changes, to the new file id. A conversion that
      fails (bytes that do not decode as the declared type) raises before
      anything is written: a server error with nothing changed. */
  function SetClubLogo(clubs: ClubCollection, id: ObjectId, upload: Upload, admin: bool,
                       sniff: Bytes -> string, toWebp: Bytes -> Option<Bytes>, newFileId: string): (r: SetLogoResult)
    ensures !admin ==> r == SetLogoResult(Forbidden(None), clubs, None)
    ensures admin && (forall c :: c in clubs.docs ==> c.id != id) ==>
              r == SetLogoResult(NotFound("Club not found"), clubs, None)
    ensures admin && (exists c :: c in clubs.docs && c.id == id) ==>
              (r.outcome.BadRequest? <==> ContentTypeOf(upload, sniff) !in AllowedContentTypes)
    ensures r.outcome.BadRequest? ==>
              r == SetLogoResult(BadRequest("Invalid content type (" + ContentTypeOf(upload, sniff) + ")"), clubs, None)
    ensures admin && (exists c :: c in clubs.docs && c.id == id) ==>
              (r.outcome == ServerError <==>
                 NeedsConversion(ContentTypeOf(upload, sniff)) && toWebp(upload.content).None?)
    ensures r.outcome == ServerError ==> r == SetLogoResult(ServerError, clubs, None)
    ensures admin && (exists c :: c in clubs.docs && c.id == id) ==>
              r.outcome.Ok? || r.outcome.BadRequest? || r.outcome == ServerError
    ensures r.outcome.Ok? ==>
              var contentType := ContentTypeOf(upload, sniff);
              contentType in AllowedContentTypes &&
              r.written == Some(StoredFile(newFileId,
                                           if NeedsConversion(contentType) then toWebp(upload.content).value
                                           else upload.content))
    ensures r.outcome.Ok? ==>
              exists c :: c in clubs.docs && c.id == id &&
                r.outcome.value == Club(id, c.schema.(logoFileId := Some(newFileId))) &&
                r.store == ClubsCrud.Replace(clubs, r.outcome.value)
  {
    if !admin then SetLogoResult(Forbidden(None), clubs, None)
    else
      match ClubsCrud.Read(clubs, id)
      case None => SetLogoResult(NotFound("Club not found"), clubs, None)
      case Some(club) =>
        var contentType := ContentTypeOf(upload, sniff);
        if contentType !in AllowedContentTypes then
          SetLogoResult(BadRequest("Invalid content type (" + contentType + ")"), clubs, None)
        else
          var converted := if NeedsConversion(contentType) then toWebp(upload.content) else Some(upload.content);
          if converted.None? then SetLogoResult(ServerError, clubs, None)
          else
            var saved := club.(schema := club.schema.(logoFileId := Some(newFileId)));
            SetLogoResult(Ok(saved), ClubsCrud.Replace(clubs, saved), Some(StoredFile(newFileId, converted.value)))
  }

  /** Setting a logo keeps the unique indexes; afterwards the club reads with
      its new logo id and every other club is untouched. */
  lemma SetClubLogoKeepsValid(clubs: ClubCollection, id: ObjectId, upload: Upload, admin: bool,
                              sniff: Bytes -> string, toWebp: Bytes -> Option<Bytes>, newFileId: string)
    requires clubs.Valid()
    ensures SetClubLogo(clubs, id, upload, admin, sniff, toWebp, newFileId).store.Valid()
    ensures var r := SetClubLogo(clubs, id, upload, admin, sniff, toWebp, newFileId);
            r.outcome.Ok? ==> ClubsCrud.Read(r.store, id) == Some(r.outcome.value)
    ensures var r := SetClubLogo(clubs, id, upload, admin, sniff, toWebp, newFileId);
            forall other :: other != id ==> ClubsCrud.Read(r.store, other) == ClubsCrud.Read(clubs, other)
  {
    var r := SetClubLogo(clubs, id, upload, admin, sniff, toWebp, newFileId);
    if r.outcome.Ok? {
      var club := ClubsCrud.Read(clubs, id).value;
      var saved := r.outcome.value;
      assert !ClubsCrud.SlugHeldByOther(clubs.docs, saved.schema.slug, id) by {
        forall c | c in clubs.docs && c.id != id ensures c.schema.slug != saved.schema.slug {
          UniqueKeys(clubs, c, club);
        }
      }
      ClubsCrud.ReplaceKeepsValid(clubs, saved);
    }
  }
}
