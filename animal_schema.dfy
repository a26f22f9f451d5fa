/** The listing record (the `Animal` mongoose model): six required paths, optional text
    with empty-string defaults, a list of photo URLs, the `verified` and `rating`
    defaults, and the `createdAt`/`updatedAt` timestamps the store adds. */
module AnimalSchema {
  import opened Wrappers

  /** The schema default for `rating`. The model only stores it; no arithmetic is done on it. */
  const DefaultRating: real := 4.5

  /** The fields given to `new Animal({...})`; None is a field left undefined. */
  datatype AnimalDoc = AnimalDoc(
    title: Option<string>,
    animalType: Option<string>,
    breed: Option<string>,
    age: Option<string>,
    price: Option<real>,
    location: Option<string>,
    description: Option<string>,
    photos: Option<seq<string>>,
    sellerName: Option<string>,
    sellerPhone: Option<string>,
    sellerEmail: Option<string>,
    verified: Option<bool>,
    rating: Option<real>)

  /** A stored listing. `id` stands for the document's `_id`. */
  datatype Listing = Listing(
    id: nat,
    title: string,
    animalType: string,
    breed: string,
    age: string,
    price: real,
    location: string,
    description: string,
    photos: seq<string>,   // URLs such as "/uploads/1731234567890-123456789.jpg"
    sellerName: string,
    sellerPhone: string,
    sellerEmail: string,
    verified: bool,
    rating: real,
    createdAt: nat,
    updatedAt: nat)

  /** Mongoose's `required` check on a String path: set, and not the empty string. */
  predicate RequiredString(f: Option<string>) {
    f.Some? && f.value != ""
  }

  /** The validation `save()` runs. The six required paths must be set; a required Number
      only has to be set, so a price of 0 passes here, and the schema does not require any
      photo, though each element of `photos` is a required String. */
  predicate Validates(doc: AnimalDoc)
    ensures Validates(doc) ==>
      && RequiredString(doc.title) && RequiredString(doc.animalType) && RequiredString(doc.breed)
      && RequiredString(doc.age) && doc.price.Some? && RequiredString(doc.location)
    ensures RequiredString(doc.title) && RequiredString(doc.animalType) && RequiredString(doc.breed)
            && RequiredString(doc.age) && doc.price == Some(0.0) && RequiredString(doc.location)
            && (doc.photos.None? || doc.photos == Some([]))
            ==> Validates(doc)
  {
    && RequiredString(doc.title)
    && RequiredString(doc.animalType)
    && RequiredString(doc.breed)
    && RequiredString(doc.age)
    && doc.price.Some?
    && RequiredString(doc.location)
    && (doc.photos.Some? ==> forall k :: 0 <= k < |doc.photos.value| ==> doc.photos.value[k] != "")
  }

  /** What holds of every stored listing. */
  ghost predicate WellFormed(l: Listing) {
    && l.title != "" && l.animalType != "" && l.breed != "" && l.age != "" && l.location != ""
    && (forall k :: 0 <= k < |l.photos| ==> l.photos[k] != "")
    && l.createdAt <= l.updatedAt
  }

  /** The stored listing keeps every field the document set and takes the schema default
      for every field it left undefined. */
  ghost predicate Reflects(l: Listing, doc: AnimalDoc) {
    && doc.title == Some(l.title)
    && doc.animalType == Some(l.animalType)
    && doc.breed == Some(l.breed)
    && doc.age == Some(l.age)
    && doc.price == Some(l.price)
    && doc.location == Some(l.location)
    && l.description == doc.description.GetOr("")
    && l.photos == doc.photos.GetOr([])
    && l.sellerName == doc.sellerName.GetOr("")
    && l.sellerPhone == doc.sellerPhone.GetOr("")
    && l.sellerEmail == doc.sellerEmail.GetOr("")
    && l.verified == doc.verified.GetOr(false)
    && l.rating == doc.rating.GetOr(DefaultRating)
  }

  /** `save()` of a new document: validation, defaults, and the timestamps, both set to
      the moment of saving. None is a validation error. */
  function Save(doc: AnimalDoc, id: nat, now: nat): (r: Option<Listing>)
    ensures r.Some? <==> Validates(doc)
    ensures r.Some? ==> WellFormed(r.value) && Reflects(r.value, doc)
    ensures r.Some? ==> r.value.id == id && r.value.createdAt == now && r.value.updatedAt == now
  {
    if !Validates(doc) then None
    else Some(Listing(
      id,
      doc.title.value, doc.animalType.value, doc.breed.value, doc.age.value,
      doc.price.value, doc.location.value,
      doc.description.GetOr(""),
      doc.photos.GetOr([]),
      doc.sellerName.GetOr(""), doc.sellerPhone.GetOr(""), doc.sellerEmail.GetOr(""),
      doc.verified.GetOr(false),
      doc.rating.GetOr(DefaultRating),
      now, now))
  }

  /** A document that sets only the required paths and photos is stored with an empty
      description, empty seller fields, `verified == false` and the default rating. */
  lemma DefaultsWhenOmitted(doc: AnimalDoc, id: nat, now: nat)
    requires Validates(doc)
    requires doc.description.None? && doc.sellerName.None? && doc.sellerPhone.None? && doc.sellerEmail.None?
    requires doc.verified.None? && doc.rating.None?
    ensures Save(doc, id, now).Some?
    ensures var l := Save(doc, id, now).value;
      l.description == "" && l.sellerName == "" && l.sellerPhone == "" && l.sellerEmail == ""
      && !l.verified && l.rating == DefaultRating
  {
  }
}
