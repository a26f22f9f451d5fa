/** How the routes fit together: a listing is created with the photo URLs the upload
    route returned, so those URLs have to get through the listing's validation. */
module Flows {
  import opened Wrappers
  import opened AnimalSchema
  import opened AnimalRoutes
  import opened ServerPolicies
  import opened Accounts

  /** The `url` of each entry of an upload reply, in order. */
  function Urls(entries: seq<FileEntry>): (urls: seq<string>)
    ensures |urls| == |entries|
    ensures forall k :: 0 <= k < |entries| ==> urls[k] == entries[k].url
  {
    seq(|entries|, k requires 0 <= k < |entries| => entries[k].url)
  }

  /** A create request whose photos are the URLs of a successful upload, and whose other
      required fields are present, is stored: the upload URLs are never the empty string
      that would make `save()` fail. */
  lemma UploadedPhotosAreStorable(files: seq<IncomingFile>, stamps: seq<Stamp>, b: CreateBody)
    requires |stamps| == |files|
    requires UploadRoute(files, stamps).Ok?
    requires b.photos == Some(Urls(UploadRoute(files, stamps).body))
    requires HasRequiredFields(b)
    ensures Validates(DocFrom(b))
  {
    var urls := b.photos.value;
    forall k | 0 <= k < |urls|
      ensures urls[k] != ""
    {
      assert urls[k] == UploadsPrefix + UploadRoute(files, stamps).body[k].filename;
      assert |urls[k]| >= |UploadsPrefix|;
    }
  }

  /** Register, log in with the same credentials, upload photos, create a listing with
      the returned URLs: the login succeeds, and the listing is stored unverified and is
      among the listings the list route returns. */
  method RegisterUploadAndList(users: IdentityStore, listings: ListingStore, reg: RegisterBody, salt: nat,
                               files: seq<IncomingFile>, stamps: seq<Stamp>,
                               b: CreateBody, now: nat)
    returns (session: Reply<Session>, listed: seq<Listing>)
    requires users.Valid() && listings.Valid()
    requires Truthy(reg.name) && Truthy(reg.email) && Truthy(reg.phone) && Truthy(reg.password)
    requires FindByEmail(users.users, reg.email.value).None?
    requires |stamps| == |files| && UploadRoute(files, stamps).Ok?
    requires b.photos == Some(Urls(UploadRoute(files, stamps).body)) && HasRequiredFields(b)
    modifies users, listings
    ensures users.Valid() && listings.Valid()
    ensures session.Ok? && session.body.user.email == reg.email.value
    ensures exists l :: l in listed && !l.verified && CopiesBody(l, b) && l.createdAt == now
  {
    var registered := users.Register(reg, salt);
    LoginAfterRegister(old(users.users), old(users.nextId), reg.name.value, reg.email.value,
                       reg.phone.value, reg.password.value, salt);
    session := Login(users.users, LoginBody(reg.email, reg.password));
    UploadedPhotosAreStorable(files, stamps, b);
    var created := listings.Create(b, now);
    listed := listings.List();
    assert created.body in multiset(listings.listings);
  }
}
