/** The listing routes mounted at `/api/animals`: list newest first, create after a
    presence check, delete by id. The collection is a sequence of stored listings held by
    a `ListingStore`; `nextId` hands out fresh ids. */
module AnimalRoutes {
  import opened Wrappers
  import opened AnimalSchema
  import Recency

  /** The fields of a create request's body that matter. `verified` and `rating` are
      there to show that whatever a client sends for them is ignored. */
  datatype CreateBody = CreateBody(
    title: Option<string>,
    animalType: Option<string>,
    breed: Option<string>,
    age: Option<string>,
    price: Option<real>,
    location: Option<string>,
    description: Option<string>,
    photos: Option<seq<string>>,
    sellerName: Option<string>,
    sellerPhone: Option<string>,
    sellerEmail: Option<string>,
    verified: Option<bool>,
    rating: Option<real>)

  /** The handler's falsy check: six truthy fields (a price of 0 is falsy) and a
      photo list that is present and non-empty. A price of 0 is refused here. Once the
      check passes, `save()` can still refuse the document, and only because one of the
      photo URLs is the empty string. */
  predicate HasRequiredFields(b: CreateBody)
    ensures b.price == Some(0.0) ==> !HasRequiredFields(b)
    ensures HasRequiredFields(b) ==> b.photos.Some? && (Validates(DocFrom(b)) <==> "" !in b.photos.value)
  {
    && Truthy(b.title) && Truthy(b.animalType) && Truthy(b.breed) && Truthy(b.age)
    && b.price.Some? && b.price.value != 0.0
    && Truthy(b.location)
    && b.photos.Some? && |b.photos.value| > 0
  }

  /** The document the handler builds: the eleven body fields as given, `verified` forced
      to false, nothing for `rating`. */
  function DocFrom(b: CreateBody): (doc: AnimalDoc)
    ensures doc.verified == Some(false) && doc.rating.None?
  {
    AnimalDoc(b.title, b.animalType, b.breed, b.age, b.price, b.location, b.description,
              b.photos, b.sellerName, b.sellerPhone, b.sellerEmail, Some(false), None)
  }

  /** A created listing carries the body's fields unchanged, and the schema defaults for
      the optional text fields the body left out. */
  ghost predicate CopiesBody(l: Listing, b: CreateBody) {
    && b.title == Some(l.title) && b.animalType == Some(l.animalType)
    && b.breed == Some(l.breed) && b.age == Some(l.age)
    && b.price == Some(l.price) && b.location == Some(l.location)
    && b.photos == Some(l.photos)
    && l.description == b.description.GetOr("")
    && l.sellerName == b.sellerName.GetOr("")
    && l.sellerPhone == b.sellerPhone.GetOr("")
    && l.sellerEmail == b.sellerEmail.GetOr("")
  }

  function CreatedAt(l: Listing): nat {
    l.createdAt
  }

  predicate HasId(s: seq<Listing>, id: nat) {
    exists k :: 0 <= k < |s| && s[k].id == id
  }

  /** The collection after removing every listing with the given id, order kept. */
  function Without(s: seq<Listing>, id: nat): (r: seq<Listing>)
    ensures forall l :: l in r <==> l in s && l.id != id
    ensures !HasId(r, id)
  {
    if s == [] then []
    else if s[0].id == id then Without(s[1..], id)
    else [s[0]] + Without(s[1..], id)
  }

  /** With unique ids, removing the id takes out exactly the one listing that has it and
      keeps every other listing, in order. */
  lemma {:induction false} WithoutRemovesExactlyOne(s: seq<Listing>, k: nat)
    requires UniqueBy(s, (l: Listing) => l.id)
    requires k < |s|
    ensures Without(s, s[k].id) == s[..k] + s[k + 1..]
  {
    var id := s[k].id;
    var t := s[1..];
    UniqueIdsTail(s);
    if k == 0 {
      WithoutAbsent(t, id);
    } else {
      assert t[k - 1] == s[k];
      assert s[0].id != id by { assert !HasId(t, s[0].id); }
      WithoutRemovesExactlyOne(t, k - 1);
      DropBelowHead(s, k);
    }
  }

  /** Dropping position k > 0 keeps the head and drops position k - 1 of the tail. */
  lemma DropBelowHead<T>(s: seq<T>, k: nat)
    requires 0 < k < |s|
    ensures s[..k] + s[k + 1..] == [s[0]] + (s[1..][..k - 1] + s[1..][k..])
  {
    assert s[1..][..k - 1] == s[1..k];
    assert s[1..][k..] == s[k + 1..];
    assert s[..k] == [s[0]] + s[1..k];
  }

  /** Below the head of a collection with unique ids, the ids are still unique and none
      is the head's id. */
  lemma UniqueIdsTail(s: seq<Listing>)
    requires s != [] && UniqueBy(s, (l: Listing) => l.id)
    ensures UniqueBy(s[1..], (l: Listing) => l.id) && !HasId(s[1..], s[0].id)
  {
    var t := s[1..];
    forall i, j | 0 <= i < j < |t| ensures t[i].id != t[j].id {
      assert t[i] == s[i + 1] && t[j] == s[j + 1];
    }
    forall m | 0 <= m < |t| ensures t[m].id != s[0].id {
      assert t[m] == s[m + 1];
    }
  }

  /** Removing an id that no listing has changes nothing. */
  lemma {:induction false} WithoutAbsent(s: seq<Listing>, id: nat)
    requires !HasId(s, id)
    ensures Without(s, id) == s
  {
    if s != [] {
      assert !HasId(s[1..], id) by {
        forall m | 0 <= m < |s[1..]| ensures s[1..][m].id != id {
          assert s[1..][m] == s[m + 1];
        }
      }
      WithoutAbsent(s[1..], id);
      assert s == [s[0]] + s[1..];
    }
  }

  /** What holds of the collection at all times: every listing is well formed, ids are
      unique, and every id is below the next one to be handed out. */
  ghost predicate StoreInvariant(s: seq<Listing>, nextId: nat) {
    && (forall k :: 0 <= k < |s| ==> WellFormed(s[k]) && s[k].id < nextId)
    && UniqueBy(s, (l: Listing) => l.id)
  }

  /** The position in the old collection of position `m` once position `k` is removed. */
  function Skip(m: nat, k: nat): nat {
    if m < k then m else m + 1
  }

  /** Taking one listing out keeps the invariant. */
  lemma RemoveAtKeepsInvariant(s: seq<Listing>, nextId: nat, k: nat)
    requires StoreInvariant(s, nextId)
    requires k < |s|
    ensures StoreInvariant(s[..k] + s[k + 1..], nextId)
  {
    var r := s[..k] + s[k + 1..];
    assert forall m :: 0 <= m < |r| ==> r[m] == s[Skip(m, k)] by {
      forall m | 0 <= m < |r| ensures r[m] == s[Skip(m, k)] {
        if m < k {
          assert r[m] == s[..k][m];
        } else {
          assert r[m] == s[k + 1..][m - k];
        }
      }
    }
    forall i, j | 0 <= i < j < |r|
      ensures r[i].id != r[j].id
    {
      assert Skip(i, k) < Skip(j, k);
    }
  }

  /** Deleting keeps the invariant. */
  lemma WithoutKeepsInvariant(s: seq<Listing>, nextId: nat, id: nat)
    requires StoreInvariant(s, nextId)
    ensures StoreInvariant(Without(s, id), nextId)
  {
    if HasId(s, id) {
      var k :| 0 <= k < |s| && s[k].id == id;
      WithoutRemovesExactlyOne(s, k);
      RemoveAtKeepsInvariant(s, nextId, k);
    } else {
      WithoutAbsent(s, id);
    }
  }

  /** The listing collection. */
  class ListingStore {
    var listings: seq<Listing>
    var nextId: nat

    /** Every stored listing is well formed, ids are unique, and every id is below `nextId`. */
    ghost predicate Valid()
      reads this
    {
      StoreInvariant(listings, nextId)
    }

    constructor ()
      ensures Valid() && listings == [] && nextId == 0
    {
      listings := [];
      nextId := 0;
    }

    /** GET `/`: every stored listing, newest first. */
    method List() returns (r: seq<Listing>)
      ensures Recency.NewestFirst(r, CreatedAt)
      ensures multiset(r) == multiset(listings)
    {
      r := Recency.SortNewestFirst(listings, CreatedAt);
    }

    /** POST `/`: the presence check, then `save()`; a rejected request stores nothing. */
    method Create(body: CreateBody, now: nat) returns (r: Reply<Listing>)
      requires Valid()
      modifies this
      ensures Valid()
      ensures r.Ok? <==> HasRequiredFields(body) && Validates(DocFrom(body))
      ensures !HasRequiredFields(body) ==> r == Fail(400, "Missing required fields or photos")
      ensures HasRequiredFields(body) && !Validates(DocFrom(body)) ==> r == Fail(500, "Failed to create animal")
      ensures r.Fail? ==> listings == old(listings) && nextId == old(nextId)
      ensures r.Ok? ==> r.status == 200 && listings == old(listings) + [r.body] && nextId == old(nextId) + 1
      ensures r.Ok? ==> !HasId(old(listings), r.body.id)
      ensures r.Ok? ==> r.body.createdAt == now && r.body.updatedAt == now
      ensures r.Ok? ==> !r.body.verified && r.body.rating == DefaultRating && CopiesBody(r.body, body)
    {
      if !HasRequiredFields(body) {
        return Fail(400, "Missing required fields or photos");
      }
      var saved := Save(DocFrom(body), nextId, now);
      if saved.None? {
        return Fail(500, "Failed to create animal");
      }
      listings := listings + [saved.value];
      nextId := nextId + 1;
      r := Ok(200, saved.value);
    }

    /** DELETE `/:id`: removes the listing with that id, or answers 404 and changes nothing. */
    method Delete(id: nat) returns (r: Reply<string>)
      requires Valid()
      modifies this
      ensures Valid() && nextId == old(nextId)
      ensures r.Ok? <==> HasId(old(listings), id)
      ensures r.Fail? ==> r == Fail(404, "Animal not found") && listings == old(listings)
      ensures r.Ok? ==> r == Ok(200, "Animal deleted") && listings == Without(old(listings), id)
    {
      if !HasId(listings, id) {
        return Fail(404, "Animal not found");
      }
      WithoutKeepsInvariant(listings, nextId, id);
      listings := Without(listings, id);
      r := Ok(200, "Animal deleted");
    }
  }

  /** Deleting the same id twice: the first call removes the listing, the second finds
      nothing and leaves the collection as the first call left it. */
  method DeleteTwice(store: ListingStore, id: nat) returns (first: Reply<string>, second: Reply<string>)
    requires store.Valid()
    modifies store
    ensures store.Valid()
    ensures first.Ok? <==> HasId(old(store.listings), id)
    ensures second == Fail(404, "Animal not found")
    ensures store.listings == Without(old(store.listings), id)
  {
    first := store.Delete(id);
    if first.Fail? {
      WithoutAbsent(store.listings, id);
    }
    second := store.Delete(id);
  }
}
