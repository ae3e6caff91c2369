# Student clubs backend — a Dafny model of its core

This project models the core of a catalog backend for university student
clubs. It covers four parts:

- **Stores.** The club and user documents of the Mongo storage, with their
  enums, defaults and unique indexes.
- **Repositories.** The club repository (create, read by id, slug or leader,
  full update, delete) and the user repository (lookup and the role-change
  upsert).
- **Leader resolver.** It projects an accounts-service profile to a `Leader`,
  for one id or for a batch.
- **Request decisions.** Bearer authentication, the club, user and leader
  route handlers with their 400/401/403/404 outcomes, the logo upload gate,
  and the logo object naming.

Everything is a pure function. A collection is the sequence of its documents
in natural order, plus the next ObjectId the id generator hands out. This
lets `find_one` be "the first match" and `find().to_list()` keep the
collection order. It also makes every new id provably fresh. The unique
indexes (club `_id` and `slug`, user `_id` and `innohassle_id`) are the
`Valid()` predicate of each collection. Operations take any collection. Their
contracts and lemmas say what holds when the collection is valid, and that
every write keeps it valid.

Route handlers return an `Outcome`: `Ok`, `NotFound`, `BadRequest`,
`Forbidden`, `Unauthorized`, or `ServerError` for an exception that no handler
catches. A handler that writes also returns the collection afterwards.
Handlers that only read return no collection, so they cannot write.

Some parts are external and become parameters:

- The accounts service: `decode_token`, `get_user` by id or by email, and the
  batch `get_users`. The batch answer is a dict, given as its item sequence.
- Image sniffing and WebP conversion.
- The generated logo file id.
- The ODM's parsing of a raw id string, for the one route that takes its id as a plain string. It is the parameter `parseId`, and a string it rejects raises.
- The admin guard, given as the boolean `admin`.

## Model

| member | source | states |
|---|---|---|
| `MongoClub.ParseLinkType` | src/storages/mongo/club.py:12-16 | A link type string is accepted exactly when it is one of telegram_channel, telegram_chat, telegram_user, external_url, and it is read as that type |
| `MongoClub.NewLink` | src/storages/mongo/club.py:19-22 | A link built from a type and a URL has no label |
| `MongoClub.ParseClubType` | src/storages/mongo/club.py:25-29 | A club type string is accepted exactly when it is one of tech, sport, hobby, art, and it is read as that type |
| `MongoClub.NewClubSchema` | src/storages/mongo/club.py:32-52 | A schema built from its required fields keeps them; it is active, has no logo, leader or sport id, and has no links |
| `MongoClub.UniqueKeys` | src/storages/mongo/club.py:55-59 | In a valid collection, two stored clubs with the same id, or with the same slug, are the same document |
| `ClubsCrud.Create` | src/modules/clubs/crud.py:14-15 | The insert is rejected exactly when the slug is taken. Otherwise exactly one club is appended with the given fields, under an id no stored club has, and the collection stays valid |
| `ClubsCrud.CreateReads` | src/modules/clubs/crud.py:14-15 | After a create, the new id reads the new club and every other id reads what it did before |
| `ClubsCrud.Read` | src/modules/clubs/crud.py:18-19 | The result is none exactly when no club has the id; otherwise it is a stored club with that id, and in a valid collection it is the only one |
| `ClubsCrud.ReadBySlug` | src/modules/clubs/crud.py:22-23 | The result is none exactly when no club has the slug; otherwise it is a stored club with that slug, and in a valid collection it is the only one |
| `ClubsCrud.ReadByLeaderInnohassleId` | src/modules/clubs/crud.py:26-27 | A club is in the result exactly when it is stored and its leader id is the given one; no club is listed more often than it is stored |
| `ClubsCrud.Replace` | src/modules/clubs/crud.py:37 | Writing a document back by id keeps the collection's size and counter, adds no document but the written one, and the written one is stored when its id was |
| `ClubsCrud.ReplaceKeepsValid` | src/modules/clubs/crud.py:34-38 | Writing a document back keeps the unique indexes if no other club holds its slug; afterwards its id reads it and every other id reads what it did before |
| `ClubsCrud.Update` | src/modules/clubs/crud.py:34-38 | An unknown id gives none and changes nothing. A slug held by another club is rejected. Otherwise the stored club becomes the input's full schema under the same id |
| `ClubsCrud.UpdateKeepsValid` | src/modules/clubs/crud.py:34-38 | Every update keeps the unique indexes; a successful one makes the id read the input's values and leaves every other club as it was |
| `ClubsCrud.UpdateIdempotent` | src/modules/clubs/crud.py:37 | Applying the same update twice gives the same collection as applying it once |
| `ClubsCrud.Delete` | src/modules/clubs/crud.py:41-43 | It returns true exactly when a club with the id existed; then one document fewer remains and none is added; otherwise nothing changes |
| `ClubsCrud.DeleteKeepsValid` | src/modules/clubs/crud.py:41-43 | A delete keeps the unique indexes; afterwards no club has the id and every other club is still stored |
| `MongoUser.ParseUserRole` | src/storages/mongo/user.py:9-11 | A role string is accepted exactly when it is default or admin, and it is read as that role |
| `MongoUser.NewUserSchema` | src/storages/mongo/user.py:14-18 | A user built without a role keeps its account id and has role default |
| `MongoUser.UniqueInnohassleIds` | src/storages/mongo/user.py:21-25 | In a valid user collection, two stored users with the same account id are the same document |
| `UsersCrud.ReadByInnohassleId` | src/modules/users/crud.py:4-5 | The result is none exactly when no user has the account id; otherwise it is a stored user with it, and in a valid collection it is the only one |
| `UsersCrud.ChangeRoleOfUser` | src/modules/users/crud.py:8-15 | The written user has the account id and the requested role. An unknown account id gets exactly one new document under the next id. A known one keeps its document id and the collection's size |
| `UsersCrud.ChangeRoleKeepsValid` | src/modules/users/crud.py:8-15 | A role change keeps the unique indexes; afterwards the account id reads the written user with the requested role, and every other account id reads what it did before |
| `UsersCrud.ChangeRoleIdempotent` | src/modules/users/crud.py:8-15 | Changing a role twice to the same value gives the same collection as changing it once |
| `LeadersCrud.LeaderFromUser` | src/modules/leaders/crud.py:18-24 | The leader's id is the profile's id. Name and email are none exactly when the profile has no single-sign-on part, and are copied from it otherwise. The Telegram alias is none exactly without a Telegram part, and is its username otherwise |
| `LeadersCrud.LeaderFromUserImage` | src/modules/leaders/crud.py:5-24 | A leader is the projection of some profile exactly when its name and email are known together |
| `LeadersCrud.ReadByInnohassleId` | src/modules/leaders/crud.py:27-31 | The result is none exactly when the accounts service returns no user; otherwise it is the projection of that profile |
| `LeadersCrud.ReadManyByInnohassleIds` | src/modules/leaders/crud.py:34-36 | The result has the keys of the service's dict, in its order; each value is the projection of the matching profile, or none when the profile is none |
| `Decimal.IntToString` | src/modules/clubs/minio.py:9 | An int's decimal form is canonical: an optional minus, then digits with no leading zero and no `-0`. It reads back as the same int |
| `Decimal.CanonicalIntRoundTrip` | src/modules/clubs/minio.py:9 | Every canonical literal is the decimal form of the int it reads as, so each int has exactly one decimal form |
| `ClubsMinio.GetClubLogoObjectName` | src/modules/clubs/minio.py:8-10 | The name starts with prefix and file id. It is exactly that when the size is none or zero; otherwise it continues with `-` and a canonical decimal that reads back as the size |
| `ClubsMinio.ObjectNameSuffixIsStr` | src/modules/clubs/minio.py:9 | For a truthy size, the name is prefix, file id, `-` and the one canonical decimal of the size, which is Python's `f"-{size}"` |
| `ClubsMinio.ObjectNamesDistinct` | src/modules/clubs/minio.py:8-10 | For one file id, distinct non-zero sizes give distinct names, and a sized name differs from the unsized one |
| `Dependencies.GetCurrentUserAuth` | src/api/dependencies.py:19-29 | No credentials, or an empty credential string, fail with no_credentials true. A token the decoder rejects fails with no_credentials false. Otherwise the user is exactly the decoded token data |
| `Dependencies.DecoderOnlyForTokens` | src/api/dependencies.py:23-26 | Without a non-empty token, the outcome does not depend on the decoder |
| `ClubsRoutes.CreateClub` | src/modules/clubs/routes.py:46-48 | Non-admins are refused. A taken slug is an uncaught error that leaves the collection unchanged. Otherwise the created club is appended with the given fields |
| `ClubsRoutes.GetClubInfo` | src/modules/clubs/routes.py:58-63 | The answer is 404 exactly when no club has the id; otherwise it is a stored club with that id |
| `ClubsRoutes.GetClubInfoBySlug` | src/modules/clubs/routes.py:73-78 | The answer is 404 exactly when no club has the slug; otherwise it is a stored club with that slug |
| `ClubsRoutes.EditClubInfo` | src/modules/clubs/routes.py:89-95 | The answer is 404 exactly when no club has the id, and a server error exactly when another club holds the new slug; on failure nothing changes. On success the club becomes the input's schema under its id |
| `ClubsRoutes.EditClubInfoBySlug` | src/modules/clubs/routes.py:107-116 | The answer is 404 exactly when no club has the slug, and 400 "Slug already exists" only when another club holds the new slug. In a valid collection the converse holds too: a clash always gives 400. On failure nothing changes. On success that club becomes the input's schema |
| `ClubsRoutes.EditClubInfoBySlugKeepsValid` | src/modules/clubs/routes.py:111-116 | Editing by slug keeps the unique indexes, because a clashing slug is refused before anything is written |
| `ClubsRoutes.DeleteClubAsWritten` | src/modules/clubs/routes.py:127-131 | For an admin the route always answers success and the collection never changes |
| `ClubsRoutes.DeleteClubAsWrittenKeepsClub` | src/modules/clubs/routes.py:127-131 | A stored club is still readable after the delete route as written; with the awaited delete it is gone |
| `ClubsRoutes.DeleteClub` | src/modules/clubs/routes.py:127-131 | With the delete awaited: 404 exactly when no club had the id; the collection afterwards is the repository delete's |
| `ClubsRoutes.GetClubLogo` | src/modules/clubs/routes.py:142-157 | The id arrives as a plain string: the answer is a server error exactly when it does not parse as an ObjectId. Otherwise it is 404 "Club not found" exactly when no club has the parsed id, and 404 "No logo available" only when its logo id is none or empty. A served logo is the stored file id, as image/webp, with filename slug + ".webp" |
| `ClubsRoutes.SetClubLogo` | src/modules/clubs/routes.py:169-197 | An unknown club gives 404 whatever the upload. The sniffed type is used only when none is declared. A type outside JPEG, PNG and WebP gives 400 with nothing saved or written. A JPEG or PNG that fails to convert is a server error, exactly then, and nothing is saved or written. On success WebP bytes are written unchanged, JPEG and PNG converted, and only `logo_file_id` changes, to the new file id |
| `ClubsRoutes.SetClubLogoKeepsValid` | src/modules/clubs/routes.py:195-196 | Saving the club with its new logo keeps the unique indexes; the club reads with its new logo id and every other club is untouched |
| `UsersRoutes.GetMe` | src/modules/users/routes.py:32-40 | A failed authentication gives 401 with its cause. Otherwise the role is the stored user's role, or default when no user is stored, and the clubs listed are exactly those the caller leads, none more often than it is stored |
| `UsersRoutes.ChangeRole` | src/modules/users/routes.py:48-59 | A caller whose email is not a superadmin's gets 403, with no lookup and no write. An email unknown to the accounts service gives 404 and no write. Otherwise the role change is applied to the target's account id |
| `UsersRoutes.ChangeRoleTargetsUser` | src/modules/users/routes.py:56-59 | After a successful change the target reads with the requested role, and the caller's own record is untouched unless the caller is the target |
| `LeadersRoutes.LeaderIds` | src/modules/leaders/routes.py:29-30 | One leader id per club, in club order, absent ids included |
| `LeadersRoutes.GetAllLeadersAsWritten` | src/modules/leaders/routes.py:27-31 | The result holds no none entries; it is exactly the non-none keys of the batch answer |
| `LeadersRoutes.GetAllLeadersAsWrittenReturnsIds` | src/modules/leaders/routes.py:31 | For one club led by a known user, the handler as written returns the account id and the client gets a server error, while filtering the values answers the leader |
| `LeadersRoutes.GetAllLeadersResponseAsWritten` | src/modules/leaders/routes.py:27-31 | The client gets a server error exactly when the batch answer has a non-none key, because the declared `list[Leader]` response rejects account id strings. Otherwise it gets the empty list |
| `LeadersRoutes.GetAllLeaders` | src/modules/leaders/routes.py:27-31 | A leader is in the result exactly when it is the projection of a profile present in the batch answer for the clubs' leader ids |
| `LeadersRoutes.GetClubLeaderById` | src/modules/leaders/routes.py:41-47 | The answer is 404 exactly when no club has the id; otherwise it is the resolution of that club's leader id, which may be none |
| `LeadersRoutes.GetClubLeaderBySlug` | src/modules/leaders/routes.py:57-63 | The answer is 404 exactly when no club has the slug; otherwise it is the resolution of that club's leader id, which may be none |

## Left out

- Image handling: libmagic sniffing and pyvips conversion to WebP are foreign calls. They are the function parameters `sniff` and `toWebp`. `toWebp` answers none for bytes that do not decode as an image, which is where pyvips raises.
- File and object-store I/O: reading and writing logo files, MinIO `put_object`, and building the public URL from client internals. The set-logo route returns the file it would write instead. The get-logo route returns the file id it would stream.
- The accounts service (`decode_token`, `get_user`, `get_users`) is external and given as function parameters. Its profile fields are taken as plain strings. The batch answer's key order and key uniqueness are whatever the service returns.
- The admin guard is not part of this model. Its verdict is the input `admin`, and a refusal is `Forbidden(None)`.
- The framework, ODM and driver internals are left out. So is the registration of documentation tags at import time.
- The list route `get_clubs_list` and the repository's `read_all` return the collection's documents in order, which is the `docs` field itself.
- HTTP status codes of successes are not modelled. Every success, create included, is `Outcome.Ok`. The create route sets no status code, so it answers 200; its 201 entry only documents the route.
- `new_leader_email` is carried by `UpdateClub` but never resolved to a leader id, as in the code. The code's `model_dump` also writes that key into the stored document. No schema field reads it, and the model drops it.
- A duplicate slug on update is one store-level conflict here. The edit-by-slug route translates it to 400. Which exception class Beanie raises for it is an ODM detail that is not modelled.
- Concurrency is left out: simultaneous first-time role changes for one account id, racing slug updates, and the revision mechanism. Each call is modelled as atomic.
- ClubsCrud.ReadByLeaderInnohassleId: the contract says which clubs are in the result, and that none occurs more often than it is stored, but not that they keep collection order. The filter keeps that order by construction, but no clause states it.
- UsersRoutes.GetMe: the clubs listed are stated as a set, each occurring no more often than it is stored, but their order is not stated, for the same reason.
- LeadersRoutes.GetAllLeaders: the contract says which leaders are in the result, not their order or how often each occurs.
- SetClubLogo: the new logo file id is a parameter. That it is fresh is a property of the ObjectId generator, and it is not stated.
- The update overwrites every schema field; it does not merge. Leader resolution is one batch call to the accounts service. No thumbnail is produced. Get-logo streams the file; it does not redirect to the object store.

## Findings

| source | as written | input that shows it | evidently intended | confidence | as-written member | corrected member |
|---|---|---|---|---|---|---|
| src/modules/clubs/routes.py:129-131 | `c.delete(id)` is called without `await`. The coroutine object is always truthy, so the 404 branch is never taken and the club is never deleted | An admin deletes the id of any stored club: the answer is success and the club is still stored | Await the delete; answer 404 when nothing was deleted | high, not executed | `ClubsRoutes.DeleteClubAsWritten`, `ClubsRoutes.DeleteClubAsWrittenKeepsClub` | `ClubsRoutes.DeleteClub` |
| src/modules/leaders/routes.py:31 | `filter` over the dict from the batch lookup walks its keys, so the handler returns account ids where `Leader` records are declared. The declared `list[Leader]` response rejects them, so the client gets a server error whenever some leader id is known | One club led by `u1`, whom the accounts service knows: the handler returns `["u1"]` and the client gets a 500, not that user's leader record | Filter the dict's values | high, not executed | `LeadersRoutes.GetAllLeadersAsWritten`, `LeadersRoutes.GetAllLeadersResponseAsWritten`, `LeadersRoutes.GetAllLeadersAsWrittenReturnsIds` | `LeadersRoutes.GetAllLeaders` |
