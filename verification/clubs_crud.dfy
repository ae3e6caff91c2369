/** The club repository: create, read by id, by slug and by leader, full
    update and delete, over the club collection. */
module ClubsCrud {
  import opened Base
  import opened Seqs
  import opened MongoClub

  /** The body of an update request: a full schema plus a write-only leader
      email that nothing resolves. */
  datatype UpdateClub = UpdateClub(schema: ClubSchema, newLeaderEmail: Option<string>)

  /** A write either returns its value with the collection afterwards, or
      fails with the duplicate-key error of the unique slug index, leaving
      the collection as it was. */
  datatype Write<+T> = Done(value: T, store: ClubCollection) | DuplicateKey

  /** The collection after a write that started from `s`. */
  function After<T>(w: Write<T>, s: ClubCollection): ClubCollection {
    if w.Done? then w.store else s
  }

  /** Position of the first document with the given id. */
  function IndexOfId(docs: seq<Club>, id: ObjectId): (r: Option<nat>)
    ensures r.Some? ==> r.value < |docs| && docs[r.value].id == id
    ensures r.Some? ==> forall j :: 0 <= j < r.value ==> docs[j].id != id
    ensures r.None? <==> forall c :: c in docs ==> c.id != id
  {
    FirstIndex(docs, (c: Club) => c.id == id)
  }

  /** True when a document other than `id` already holds `slug`. */
  predicate SlugHeldByOther(docs: seq<Club>, slug: string, id: ObjectId) {
    exists c :: c in docs && c.id != id && c.schema.slug == slug
  }

  /** Inserting a new document: it gets the next ObjectId, unless the slug is
      already taken, in which case the unique index rejects the insert. */
  function Create(s: ClubCollection, data: ClubSchema): (r: Write<Club>)
    ensures r.DuplicateKey? <==> exists c :: c in s.docs && c.schema.slug == data.slug
    ensures r.Done? ==> r.value.schema == data
    ensures r.Done? ==> r.store.docs == s.docs + [r.value]
    ensures r.Done? && s.Valid() ==> forall c :: c in s.docs ==> c.id != r.value.id
    ensures r.Done? && s.Valid() ==> r.store.Valid()
  {
    if exists c :: c in s.docs && c.schema.slug == data.slug then DuplicateKey
    else
      var club := Club(s.nextId, data);
      Done(club, ClubCollection(s.docs + [club], s.nextId + 1))
  }

  /** After a create, the new id reads the new club and every other id reads
      what it did before. */
  lemma CreateReads(s: ClubCollection, data: ClubSchema)
    requires s.Valid() && Create(s, data).Done?
    ensures Read(Create(s, data).store, Create(s, data).value.id) == Some(Create(s, data).value)
    ensures forall id :: id != Create(s, data).value.id ==> Read(Create(s, data).store, id) == Read(s, id)
  {
  }

  /** The club stored under `id`, or none. */
  function Read(s: ClubCollection, id: ObjectId): (r: Option<Club>)
    ensures r.None? <==> forall c :: c in s.docs ==> c.id != id
    ensures r.Some? ==> r.value in s.docs && r.value.id == id
    ensures s.Valid() ==> forall c :: c in s.docs && c.id == id ==> r == Some(c)
  {
    match IndexOfId(s.docs, id)
    case None => None
    case Some(i) =>
      assert s.Valid() ==> forall c :: c in s.docs && c.id == id ==> c == s.docs[i] by {
        forall c | c in s.docs && c.id == id && s.Valid() {
          UniqueKeys(s, c, s.docs[i]);
        }
      }
      Some(s.docs[i])
  }

  /** The club whose slug is `slug`, or none. */
  function ReadBySlug(s: ClubCollection, slug: string): (r: Option<Club>)
    ensures r.None? <==> forall c :: c in s.docs ==> c.schema.slug != slug
    ensures r.Some? ==> r.value in s.docs && r.value.schema.slug == slug
    ensures s.Valid() ==> forall c :: c in s.docs && c.schema.slug == slug ==> r == Some(c)
  {
    match FirstIndex(s.docs, (c: Club) => c.schema.slug == slug)
    case None => None
    case Some(i) =>
      assert s.Valid() ==> forall c :: c in s.docs && c.schema.slug == slug ==> c == s.docs[i] by {
        forall c | c in s.docs && c.schema.slug == slug && s.Valid() {
          UniqueKeys(s, c, s.docs[i]);
        }
      }
      Some(s.docs[i])
  }

  /** The clubs led by `leaderInnohassleId`, each listed no more often than
      it is stored. */
  function ReadByLeaderInnohassleId(s: ClubCollection, leaderInnohassleId: string): (r: seq<Club>)
    ensures forall c :: c in r <==> c in s.docs && c.schema.leaderInnohassleId == Some(leaderInnohassleId)
    ensures multiset(r) <= multiset(s.docs)
  {
    Filter(s.docs, (c: Club) => c.schema.leaderInnohassleId == Some(leaderInnohassleId))
  }

  /** Writing a document back over the stored one with the same id, as a
      document's `save` and `set` do. */
  function Replace(s: ClubCollection, club: Club): (r: ClubCollection)
    ensures r.nextId == s.nextId && |r.docs| == |s.docs|
    ensures forall c :: c in r.docs ==> c in s.docs || c == club
    ensures (exists c :: c in s.docs && c.id == club.id) ==> club in r.docs
  {
    match IndexOfId(s.docs, club.id)
    case None => s
    case Some(i) =>
      assert s.docs[i := club][i] == club;
      ClubCollection(s.docs[i := club], s.nextId)
  }

  /** Replacing a document by one with the same id keeps the unique indexes,
      provided no other document holds the new slug; afterwards the id reads
      the new document and every other id reads what it did before. */
  lemma {:induction false} ReplaceKeepsValid(s: ClubCollection, club: Club)
    requires s.Valid()
    requires exists c :: c in s.docs && c.id == club.id
    requires !SlugHeldByOther(s.docs, club.schema.slug, club.id)
    ensures Replace(s, club).Valid()
    ensures Read(Replace(s, club), club.id) == Some(club)
    ensures forall id :: id != club.id ==> Read(Replace(s, club), id) == Read(s, id)
  {
    var i := IndexOfId(s.docs, club.id).value;
    var d := s.docs[i := club];
    assert Replace(s, club).docs == d;
    forall a, b | 0 <= a < b < |d|
      ensures d[a].id != d[b].id && d[a].schema.slug != d[b].schema.slug
    {
      if a == i {
        assert s.docs[b] in s.docs;
      } else if b == i {
        assert s.docs[a] in s.docs;
      }
    }
    var r := Replace(s, club);
    assert r.Valid();
    forall id | id != club.id
      ensures Read(r, id) == Read(s, id)
    {
      forall c | c in r.docs && c.id == id ensures c in s.docs { }
      forall c | c in s.docs && c.id == id ensures c in r.docs {
        var k :| 0 <= k < |s.docs| && s.docs[k] == c;
        assert d[k] == c;
      }
    }
  }

  /** Full update: every schema field is overwritten by the input (not
      merged), the id is kept. Unknown id: none, nothing changes. A slug held
      by another club: the unique index rejects the write. */
  function Update(s: ClubCollection, id: ObjectId, data: ClubSchema): (r: Write<Option<Club>>)
    ensures (r.Done? && r.value.None?) <==> forall c :: c in s.docs ==> c.id != id
    ensures r.Done? && r.value.None? ==> r.store == s
    ensures r.DuplicateKey? <==>
              (exists c :: c in s.docs && c.id == id) && SlugHeldByOther(s.docs, data.slug, id)
    ensures r.Done? && r.value.Some? ==> r.value.value == Club(id, data)
    ensures r.Done? && r.value.Some? ==> r.store == Replace(s, Club(id, data))
  {
    match IndexOfId(s.docs, id)
    case None => Done(None, s)
    case Some(i) =>
      if SlugHeldByOther(s.docs, data.slug, id) then DuplicateKey
      else Done(Some(Club(id, data)), Replace(s, Club(id, data)))
  }

  /** An update keeps the unique indexes; after a successful one the id reads
      the input's values and every other club is untouched. */
  lemma UpdateKeepsValid(s: ClubCollection, id: ObjectId, data: ClubSchema)
    requires s.Valid()
    ensures After(Update(s, id, data), s).Valid()
    ensures Update(s, id, data).Done? && Update(s, id, data).value.Some? ==>
              Read(After(Update(s, id, data), s), id) == Some(Club(id, data))
    ensures forall other :: other != id ==> Read(After(Update(s, id, data), s), other) == Read(s, other)
  {
    var r := Update(s, id, data);
    if r.Done? && r.value.Some? {
      ReplaceKeepsValid(s, Club(id, data));
    }
  }

  /** Applying the same update twice leaves the collection as applying it
      once. */
  lemma {:induction false} UpdateIdempotent(s: ClubCollection, id: ObjectId, data: ClubSchema)
    ensures var s1 := After(Update(s, id, data), s);
            After(Update(s1, id, data), s1) == s1
  {
    var r := Update(s, id, data);
    var s1 := After(r, s);
    if r.Done? && r.value.Some? {
      var i := IndexOfId(s.docs, id).value;
      assert s1.docs == s.docs[i := Club(id, data)];
      assert s1.docs[i].id == id;
      assert forall j :: 0 <= j < i ==> s1.docs[j] == s.docs[j];
      var i1 := IndexOfId(s1.docs, id);
      assert i1.Some? by { assert s1.docs[i] in s1.docs; }
      assert i1.value == i;
      assert !SlugHeldByOther(s1.docs, data.slug, id) by {
        forall c | c in s1.docs && c.id != id ensures c.schema.slug != data.slug {
          assert c in s.docs;
        }
      }
      assert s1.docs[i := Club(id, data)] == s1.docs;
    }
  }

  /** Deleting the first document with the given id; true iff one existed. */
  function Delete(s: ClubCollection, id: ObjectId): (r: (bool, ClubCollection))
    ensures r.0 <==> exists c :: c in s.docs && c.id == id
    ensures !r.0 ==> r.1 == s
    ensures r.0 ==> |r.1.docs| == |s.docs| - 1
    ensures forall c :: c in r.1.docs ==> c in s.docs
  {
    match IndexOfId(s.docs, id)
    case None => (false, s)
    case Some(i) => (true, ClubCollection(s.docs[..i] + s.docs[i + 1..], s.nextId))
  }

  /** A delete keeps the unique indexes; afterwards no club has the id and
      every other club is still there. */
  lemma {:induction false} DeleteKeepsValid(s: ClubCollection, id: ObjectId)
    requires s.Valid()
    ensures Delete(s, id).1.Valid()
    ensures Read(Delete(s, id).1, id).None?
    ensures forall c :: c in s.docs && c.id != id ==> c in Delete(s, id).1.docs
  {
    var found := IndexOfId(s.docs, id);
    if found.Some? {
      var i := found.value;
      var s1 := ClubCollection(s.docs[..i] + s.docs[i + 1..], s.nextId);
      assert Delete(s, id).1 == s1;
      RemoveAtKeepsValid(s, i);
      RemoveAtMembers(s, i);
      assert forall c :: c in s1.docs ==> c.id != id;
    }
  }

  /** Removing one document keeps the unique indexes. */
  lemma {:induction false} RemoveAtKeepsValid(s: ClubCollection, i: nat)
    requires s.Valid() && i < |s.docs|
    ensures ClubCollection(s.docs[..i] + s.docs[i + 1..], s.nextId).Valid()
  {
    var d := s.docs[..i] + s.docs[i + 1..];
    assert forall k :: 0 <= k < i ==> d[k] == s.docs[k];
    assert forall k :: i <= k < |d| ==> d[k] == s.docs[k + 1];
  }

  /** Removing the document at `i` of a valid collection removes exactly the
      documents with its id. */
  lemma RemoveAtMembers(s: ClubCollection, i: nat)
    requires s.Valid() && i < |s.docs|
    ensures forall c :: c in s.docs && c.id != s.docs[i].id ==> c in s.docs[..i] + s.docs[i + 1..]
    ensures forall c :: c in s.docs[..i] + s.docs[i + 1..] ==> c.id != s.docs[i].id
  {
    forall c | c in s.docs && c.id != s.docs[i].id ensures c in s.docs[..i] + s.docs[i + 1..] {
      RemoveAtKeepsOther(s.docs, i, c);
    }
    forall c | c in s.docs[..i] + s.docs[i + 1..] ensures c.id != s.docs[i].id {
      RemoveAtDropsId(s, i, c);
    }
  }

  lemma {:induction false} RemoveAtKeepsOther(docs: seq<Club>, i: nat, c: Club)
    requires i < |docs| && c in docs && c.id != docs[i].id
    ensures c in docs[..i] + docs[i + 1..]
  {
    var k :| 0 <= k < |docs| && docs[k] == c;
    if k < i {
      assert c in docs[..i];
    } else {
      assert docs[i + 1..][k - i - 1] == c;
      assert c in docs[i + 1..];
    }
  }

  lemma {:induction false} RemoveAtDropsId(s: ClubCollection, i: nat, c: Club)
    requires s.Valid() && i < |s.docs| && c in s.docs[..i] + s.docs[i + 1..]
    ensures c.id != s.docs[i].id
  {
    if c in s.docs[..i] {
      var k :| 0 <= k < i && s.docs[k] == c;
    } else {
      assert c in s.docs[i + 1..];
      var k :| 0 <= k < |s.docs| - i - 1 && s.docs[i + 1..][k] == c;
      assert s.docs[i + 1 + k] == c;
    }
  }
}
