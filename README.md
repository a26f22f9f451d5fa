# Livestock marketplace server, modelled in Dafny

This project models the request handling of the marketplace's Express server. Sellers post animal listings with photos. Buyers browse those listings. Registered users have accounts and a per-user notification feed. The model covers:

- **Listings** (`server/routes/animals.js`, `server/models/Animal.js`). List newest first. Create after the handler's presence check, then the schema validation and defaults of `save()`. Delete by id, or answer 404.
- **Accounts** (`server/routes/auth.js`). Register with the required fields and a unique email, storing a password hash. Log in with a uniform failure reply. Both return a token and a public view of the user.
- **Notifications** (`server/routes/notifications.js`). The bearer-token gate. Then "my notifications" newest first, create one for myself, and mark all of mine read.
- **Server policies** (`server/index.js`):
  - the CORS origin decision and its allow-set built from `FRONTEND_URL`
  - the upload admission rules: the `photos` field, at most 8 files, images and videos only, at most 20 MiB each
  - the stored file name: clock, random number, original extension, with Node's `path.extname` written out
  - the upload reply, one `{filename, url, mimetype}` entry per stored file

The database collections are sequences held by classes (`ListingStore`, `IdentityStore`, `NotificationStore`). Each class has an invariant (`Valid`) and methods that change the sequence. Validation, lookup and the request policies are functions, with lemmas that state what the source promises.

Some things become parameters:

- **The clock:** `now`, and `Stamp.millis` for a file name.
- **Randomness:** `Stamp.random` in a file name, and the bcrypt `salt`.
- **Token verification:** `verifyToken`, which maps a token string to the `id` claim it carries, or to None.
- **The environment:** `NODE_ENV` and `FRONTEND_URL`.

Password hashing is symbolic. A `Digest` records the salt, the cost and the password it was computed from. `Matches` compares only the password.

Request bodies are records of `Option` fields. None stands for a field that is absent or null. The handlers' falsy checks become the `Truthy` predicate. A number is falsy when it is absent or 0.

Modules: `Wrappers` (Option and the HTTP reply), `Text` (JavaScript's `split`, `trim` and number-to-decimal), `Recency` (newest-first ordering), `AnimalSchema`, `AnimalRoutes`, `Accounts`, `Notifications`, `ServerPolicies`, and `Flows` (lemmas that span several routes).

Behaviour worth knowing:

- A create request with a negative price is accepted. Only a missing price or a price of 0 fails the presence check.
- An upload of a file that is neither an image nor a video is answered 500 by the framework's default error handler, not with a dedicated 400.
- The token is signed over `{ id, email }` with a seven-day expiry.
- The file-name clock is `Date.now()`, which is not assumed to be monotonic.

## Model

| member | source | states |
|---|---|---|
| Text.Trim | server/index.js:13 | The result has no ECMAScript whitespace at either end. `Text.TrimStart` and `Text.TrimEnd` state that only whitespace was removed. |
| Text.Split | server/routes/notifications.js:17 | `split(" ")` yields at least one part, and no part contains the separator. |
| Text.DecimalRoundTrip | server/index.js:97 | The decimal text of a number used in a file name reads back as that number. |
| Recency.InsertByStamp | server/routes/animals.js:13 | Inserting a record into a newest-first sequence keeps it newest first. The result holds exactly the old records plus the new one (as a multiset). |
| Recency.SortNewestFirst | server/routes/animals.js:13 | The result is ordered by creation time, newest first, and is a permutation of the input. |
| AnimalSchema.Save | server/models/Animal.js:4-23 | `save()` succeeds exactly when the six required paths are set (strings non-empty) and no photo URL is empty. The stored listing keeps every field the document set and takes the defaults for the rest: "" for the description and seller fields, `verified` false, rating 4.5. It is well formed and carries the given id, with `createdAt` and `updatedAt` both the save time. |
| AnimalSchema.Validates | server/models/Animal.js:6-14 | Validation needs the six required paths, with the strings non-empty. A required Number only has to be set, and no photo is required: a document with the six required paths, price 0 and no photos validates. |
| AnimalSchema.DefaultsWhenOmitted | server/models/Animal.js:12-21 | A document with only the required paths and photos is stored with an empty description, empty seller fields, `verified == false` and rating 4.5. |
| AnimalRoutes.HasRequiredFields | server/routes/animals.js:42-46 | A price of 0 fails the presence check. Once the check passes, `save()` validation fails exactly when one photo URL is the empty string. |
| AnimalRoutes.DocFrom | server/routes/animals.js:48-61 | The document built from a request always has `verified` set to false and no rating, whatever the body holds. |
| AnimalRoutes.Without | server/routes/animals.js:79 | After `findByIdAndDelete`, the collection holds exactly the listings whose id differs, and no listing with that id. |
| AnimalRoutes.WithoutRemovesExactlyOne | server/routes/animals.js:79 | With unique ids, deleting the id of the listing at position k removes that listing alone and keeps the others in order. |
| AnimalRoutes.WithoutAbsent | server/routes/animals.js:79-83 | Deleting an id that no listing has leaves the collection unchanged. |
| AnimalRoutes.RemoveAtKeepsInvariant | server/routes/animals.js:79 | Removing one listing keeps every listing well formed, ids unique, and ids below the next fresh id. |
| AnimalRoutes.WithoutKeepsInvariant | server/routes/animals.js:79 | Deleting by id keeps the collection invariant. |
| AnimalRoutes.ListingStore.List | server/routes/animals.js:11-14 | GET returns every stored listing, newest first, as a permutation of the collection. |
| AnimalRoutes.ListingStore.Create | server/routes/animals.js:25-69 | A failed presence check gives 400 "Missing required fields or photos". A `save()` validation failure gives 500 "Failed to create animal". Both store nothing. Otherwise 200, and exactly one listing is appended with a fresh id. It carries the body's fields, `verified == false`, rating 4.5, and timestamps equal to `now`. The invariant is kept. |
| AnimalRoutes.ListingStore.Delete | server/routes/animals.js:76-85 | An absent id gives 404 "Animal not found" and no change. A present id gives 200 "Animal deleted" and the collection minus that id. The invariant is kept. |
| AnimalRoutes.DeleteTwice | server/routes/animals.js:76-85 | A second delete of the same id gives 404, and the collection is as the first delete left it. |
| Accounts.HashThenMatch | server/routes/auth.js:25 | A password matches the digest computed from it, whatever salt was drawn. |
| Accounts.Public | server/routes/auth.js:44-49 | The reply's user carries the id, name, email and phone of the stored user. |
| Accounts.PublicHidesPassword | server/routes/auth.js:41-50 | The public view does not depend on the password hash. |
| Accounts.FindFirst | server/routes/auth.js:19 | The lookup finds the first user in table order that the key picks out, and finds none exactly when no user matches. |
| Accounts.FindFirstAppend | server/routes/auth.js:19-32 | A user appended to a table where nothing matches is the one found. |
| Accounts.FindByEmail | server/routes/auth.js:19 | `findOne({ email })` finds a user holding that email, and finds none exactly when no user holds it. |
| Accounts.FindById | server/routes/notifications.js:19 | `findById` finds the user with that id, and finds none exactly when no user has it. |
| Accounts.FindByEmailAppend | server/routes/auth.js:19-32 | After appending a user under a new email, that email finds the new user. |
| Accounts.FindByEmailUnique | server/routes/auth.js:66 | With unique emails, every stored user is the one its email finds. |
| Accounts.Login | server/routes/auth.js:58-91 | A missing email or password gives 400 "Email and password required". Every other failure is 400 "Invalid credentials". Success is 200, with a token over the user's id and email and the public view of a stored user whose email and password match. |
| Accounts.LoginSucceedsIffCredentialsMatch | server/routes/auth.js:66-81 | With unique emails, login succeeds exactly when a stored user has that email and its digest matches the password. |
| Accounts.LoginFailureIsUniform | server/routes/auth.js:66-74 | An unknown email and a wrong password get the identical reply, 400 "Invalid credentials". |
| Accounts.LoginAfterRegister | server/routes/auth.js:58-91 | Logging in with the credentials a user was just registered with returns that user's token and public view. |
| Accounts.IdentityStore.Register | server/routes/auth.js:10-50 | A missing field gives 400 "All fields are required". A known email gives 400 "Email already registered". Both leave the table unchanged. Success appends exactly one user, holding the bcrypt digest of the password, and replies 200 with token and public user. Emails and ids stay unique. |
| Accounts.RegisterTwice | server/routes/auth.js:19-22 | Registering the same email twice: the second call gets 400 "Email already registered", and the table grows by one user only. |
| Notifications.BearerToken | server/routes/notifications.js:17 | The token taken from a "Bearer " header contains no space. |
| Notifications.BearerTokenOfToken | server/routes/notifications.js:17 | For a token without spaces, the header "Bearer " + token yields exactly that token. |
| Notifications.Authenticate | server/routes/notifications.js:10-29 | "No token" exactly when the header does not start with "Bearer ". "Invalid token" exactly when verification fails. Admission exactly when verification succeeds and the id names a stored user, who is then the admitted user. In every other case, "User not found". |
| Notifications.BearerHeaderAdmits | server/routes/notifications.js:12-24 | A well-formed header whose token verifies to an existing user's id admits that user. |
| Notifications.OwnedBy | server/routes/notifications.js:34 | The query `{ user: uid }` holds exactly the stored notifications owned by uid, each as many times as it is stored. |
| Notifications.MarkedRead | server/routes/notifications.js:66-69 | After `updateMany`, other users' notifications are unchanged at their positions, and the caller's differ only in being read. All of the caller's are read. |
| Notifications.MarkedReadIdempotent | server/routes/notifications.js:66-69 | Marking all read twice is the same as marking once. |
| Notifications.MarkedReadKeepsOthers | server/routes/notifications.js:66-69 | Marking one user's notifications does not change what any other user's query returns. |
| Notifications.NotificationStore.Mine | server/routes/notifications.js:32-41 | A failed gate gives 401 with the gate's message. Otherwise 200 with a permutation of exactly the caller's notifications, newest first. |
| Notifications.NotificationStore.Create | server/routes/notifications.js:44-58 | A failed gate gives 401. An empty or missing message gives 400 "Message is required". Both store nothing. Otherwise 201, and one notification is appended, with an id no stored notification has. Its owner is the authenticated user, never a body field. Its type defaults to "info". It is unread (the assumed schema default) and stamped `now`. Ids stay unique. |
| Notifications.NotificationStore.MarkAllRead | server/routes/notifications.js:64-71 | A failed gate gives 401 and no change. Otherwise 200, and the collection is the marked-read image of the old one for the caller. |
| ServerPolicies.FrontendUrl | server/index.js:13 | `FRONTEND_URL` yields the trimmed value when that is non-empty, and nothing when the variable is unset or blank. |
| ServerPolicies.AllowedOrigins | server/index.js:17-20 | The allow-set holds the development origin, plus the trimmed `FRONTEND_URL` when there is one, and nothing else. |
| ServerPolicies.OriginCallback | server/index.js:23-42 | A request without an origin is always allowed. Outside production every origin is allowed. In production a non-empty origin is allowed exactly when it is in the allow-set. A refusal carries "CORS policy: origin not allowed". |
| ServerPolicies.ProductionAllowList | server/index.js:34-41 | In production an origin is allowed exactly when it is in the allow-set, and is otherwise refused with "CORS policy: origin not allowed". |
| ServerPolicies.FrontendUrlTrimmed | server/index.js:13-20 | A `FRONTEND_URL` with whitespace before it, after it, or both still allows the bare URL in production. |
| ServerPolicies.FrontendUrlWithCarriageReturn | server/index.js:13-20 | A `FRONTEND_URL` ending in a carriage return, as a Windows line ending leaves it, still allows the bare URL in production. |
| ServerPolicies.BlankFrontendUrl | server/index.js:13-20 | A `FRONTEND_URL` of whitespace only trims to "", which is falsy, so the allow-set is the development origin alone. |
| ServerPolicies.TrimPadded | server/index.js:13 | Trimming any whitespace before and after the URL gives the bare URL back. |
| ServerPolicies.AcceptsMime | server/index.js:106-112 | A file is accepted exactly when its MIME type is at least six characters long and begins with "image/" or "video/". |
| ServerPolicies.FileFilterExamples | server/index.js:106-112 | "image/png" and "video/mp4" are accepted. "application/pdf", "image" and "text/image/png" are refused. |
| ServerPolicies.Extname | server/index.js:98 | An extension is empty, or is a '.' followed by text with no further '.' and no '/'. |
| ServerPolicies.ExtnameOfFlat | server/index.js:98 | For a name without '/' other than "..", the extension runs from the last '.' to the end, when that dot is not the name's first character. |
| ServerPolicies.ExtnameOfPlainName | server/index.js:98 | `path.extname("cow.jpg")` is ".jpg". |
| ServerPolicies.ExtnameOfDoubleExtension | server/index.js:98 | `path.extname("a.tar.gz")` is ".gz". |
| ServerPolicies.StampPart | server/index.js:97 | The unique prefix of a stored name is the clock's digits, exactly one '-', then the random draw's digits. Both digit runs read back as the clock value and the draw. The prefix has no '/' and no '.'. |
| ServerPolicies.StoredFilename | server/index.js:96-100 | A stored name never contains '/', so it stays inside the upload directory. It has the same extension as the original name. It begins with the stamp prefix, so with the clock reading. |
| ServerPolicies.ExtnameAfterPlainPrefix | server/index.js:96-100 | Putting a non-empty prefix without '/' or '.' in front of an extension leaves the extension as the extension of the whole name. (An empty prefix would not: `path.extname(".jpg")` is "".) |
| ServerPolicies.FirstRefusal | server/index.js:103-118 | The request is refused exactly when some part fails the checks. The error reported is that of the first failing part: wrong field or too many files, then the MIME filter, then the size limit. |
| ServerPolicies.Receive | server/index.js:118 | `upload.array("photos", 8)` stores the files exactly when there are at most 8, all in `photos`, all images or videos, none over 20 MiB. The stored files are each part under its generated name, in order. A refused request reports the first refusal. |
| ServerPolicies.ReceiveAdmission | server/index.js:103-118 | The parts pass the checks exactly when there are at most 8 files, all in the `photos` field, all images or videos, none over 20 MiB. |
| ServerPolicies.FileEntries | server/index.js:120-124 | One reply entry per stored file, in order. Each carries the file's name, the url "/uploads/" + name, and its MIME type. |
| ServerPolicies.EntryUrlServesFile | server/index.js:115-124 | Each reply entry keeps its file's name and MIME type. Its URL leads the static mount back to that file. |
| ServerPolicies.UploadRoute | server/index.js:118-129 | Success is 200 with one entry per file, in order. Each entry has the generated name, url "/uploads/" + name, and the declared MIME type. Otherwise status 500, and the error passed to the framework's handler is the first refusal's. |
| ServerPolicies.NineFilesRefused | server/index.js:118 | An upload of nine files is refused whole. |
| ServerPolicies.UploadUrlServesFile | server/index.js:115-124 | Every URL of a successful upload serves the file it names, when the original extension has no '?', '#' or '%'. |
| Flows.UploadedPhotosAreStorable | server/index.js:120-124 | The URLs of a successful upload, used as a listing's photos, never make `save()` fail. |
| Flows.RegisterUploadAndList | server/routes/animals.js:25-65 | Register, then log in, upload, create and list: the login succeeds, and the list contains the new listing, unverified, with the request's fields. |

## Left out

- Database and server failures are not modelled: the 500 replies for thrown errors in every route (`Failed to load animals`, `Failed to delete animal`, `Server error`, `err.message`). Only the 500 for a create that fails `save()` validation is modelled.
- Document ids are natural numbers handed out by the stores. A malformed ObjectId, which makes `findByIdAndDelete` and `findById` throw, is not modelled.
- Mongoose casting is not modelled. This covers a price sent as text, a non-array `photos` and other type mismatches. Body fields are typed, and null is treated like absent.
- Notifications.Authenticate: token verification is an opaque parameter. The JWT signature, its secret, the `"devsecret"` signing fallback (which verification does not share) and expiry checking against the clock are not modelled.
- Accounts.Matches: bcrypt is symbolic and has no collisions. Hashing cost and salt generation are not modelled beyond being recorded in the digest.
- `models/User.js` and `models/Notification.js` are not part of this model. A new notification's `read` is assumed to default to false in `models/Notification.js`; the route passes only `user`, `type` and `message`. Its `type` is `type || "info"`, as the route sets it.
- Concurrency is not modelled: two registrations racing past the email check, or deletes and uploads in parallel. The model handles one request at a time.
- Accounts.Login: it assumes unique emails, which registration keeps. Login itself takes the first user with the email, as `findOne` does.
- Recency.SortNewestFirst: the store's order among listings with equal `createdAt` is unspecified. The model keeps stored order for ties.
- Text.Decimal: it writes every natural number in plain digits. JavaScript's `String()` switches to exponent notation from 10^21, which a millisecond clock reading or a draw of at most 10^9 never reaches. The random draw is any natural number in the model; its bound of 10^9 is not kept.
- Clock values are arbitrary parameters. Monotonicity and uniqueness of generated file names are not claimed.
- ServerPolicies.Receive: multer's streaming is not modelled. Nor are its skipping of parts with an empty file name, its cleanup of partly written files, and its error codes. A size overrun is checked after the MIME filter, on the declared size.
- ServerPolicies.UploadRoute: the reply body for a refused upload is not modelled. The model records the error handed to the framework's default handler and the status 500. That handler puts the error's stack in the body only outside production; in production the body is the generic status text, so the message does not reach the client.
- ServerPolicies.ServedFile: `express.static` percent-decoding, dot-files and directory handling are not modelled. Only a query or fragment is cut off. For this reason `UploadUrlServesFile` requires no '%' in the extension.
- ServerPolicies.Extname: only POSIX paths are handled; Windows separators are not.
- The `cors` package's header writing, allowed methods and credentials flag are not modelled, only the origin decision.
- The root and health routes, request logging, database connection, upload directory creation and `app.listen` are I/O and are not modelled.
- The frontend (`src/`) is not part of this model.
- Strings are sequences of characters. JavaScript's UTF-16 code units and surrogate pairs are not distinguished.
- AnimalSchema.DefaultRating: the rating 4.5 is an opaque constant, and no arithmetic is done on it.
