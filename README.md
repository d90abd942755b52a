# Bookmark manager: ownership-scoped bookmarks and credential rules

This project models the core of a small multi-user bookmark manager. A user signs up with an
email and a password, or signs in. Either way the user gets back a short-lived signed session
token whose subject is the user's id. With that id the user can create, list, read, edit and
delete their own bookmarks. A bookmark belongs to the user who created it. Listing and reading
are filtered by owner. Edit and delete first fetch the record by id alone. They then refuse
with one and the same 403 "Access to resource denied" when the record is missing or belongs to
someone else, and only after that check do they change the table.

Modules:

- `Wrappers` holds `Option`, `Result` and `Outcome`. A thrown exception is a `Failure`/`Fail` value.
- `Common` holds the identifiers, the record store's errors (`StoreError`, and `P2002` for a
  violated unique constraint) and the exceptions the services throw.
- `Credentials` holds the password hasher and the token signer. Each is a pair of function
  values. The model assumes only what its `Sound()` predicate says. For the hasher, a digest
  made with any salt verifies against its password. For the signer, a token verifies under the
  secret it was signed with and gives back the payload and lifetime it was signed with. Hashing
  is salted, so the salt is an explicit input and the model never assumes that hashing is
  deterministic.
- `Bookmarks` holds `BookmarkService`, a class over a map from bookmark id to bookmark. Reads
  are functions. Create, edit and delete are methods. Lemmas state how each change affects
  every user's listing.
- `Auth` holds `AuthService`, a class over a map from email to user. `Signup` is a method.
  `Signin` and `SignToken` are functions of the table and the configuration.
- `Scenario` replays the repository's end-to-end test flow against both services.

The backing database is replaced by the two in-memory maps. Ids come from a counter, so a
user's listing in ascending id order is their creation order. Each service call is one atomic
step.

## Model

| member | source | states |
|---|---|---|
| `Bookmarks.BookmarkService.GetBookmarks` | src/bookmark/bookmark.service.ts:10-16 | the result holds exactly the stored bookmarks whose owner is the caller, in creation order; it is empty exactly when the caller owns none |
| `Bookmarks.ListingMembers` | src/bookmark/bookmark.service.ts:10-16 | the owner-filtered listing holds a record iff it is stored under its id, is owned by the user and was created before the bound |
| `Bookmarks.ListingAscending` | src/bookmark/bookmark.service.ts:10-16 | the listing is strictly ascending by id, so it follows creation order and never repeats a record |
| `Bookmarks.ListingFrame` | src/bookmark/bookmark.service.ts:10-16 | a user's listing depends only on the records that user owns, so changes to other users' records leave it unchanged |
| `Bookmarks.BookmarkService.GetBookmarkById` | src/bookmark/bookmark.service.ts:18-25 | returns a record only when the id is stored and the caller owns it; that record is the one in the caller's listing with that id; otherwise it returns nothing, never another user's record |
| `Bookmarks.BookmarkService.FindUnique` | src/bookmark/bookmark.service.ts:40-44 | a lookup by id alone, with no owner filter, finds the record stored under that id when there is one |
| `Bookmarks.BookmarkService.CreateBookmark` | src/bookmark/bookmark.service.ts:27-36 | adds one record under a fresh id with owner = caller and the request's title, link and description; all other records are kept; the caller's listing grows by exactly that record at its end; every other user's listing is unchanged |
| `Bookmarks.ListingAfterInsert` | src/bookmark/bookmark.service.ts:27-36 | inserting under a new largest id appends the record to its owner's listing and leaves every other listing as it was |
| `Bookmarks.Patch` | src/bookmark/bookmark.service.ts:52-59 | an edit overwrites exactly the fields the request supplies; the id, the owner and every omitted field keep their values |
| `Bookmarks.PatchEmpty` | src/bookmark/bookmark.service.ts:56-58 | an edit that supplies no field changes nothing |
| `Bookmarks.PatchIdempotent` | src/bookmark/bookmark.service.ts:56-58 | applying the same edit twice gives the same record as applying it once |
| `Bookmarks.BookmarkService.EditBookmarkById` | src/bookmark/bookmark.service.ts:38-60 | succeeds iff the id is stored and owned by the caller; otherwise it throws the single AccessDenied error and the table is unchanged; on success only that record changes, to the patched record it returns; the owner's listing has that record replaced in place; other users' listings are unchanged |
| `Bookmarks.ReplaceAt` | src/bookmark/bookmark.service.ts:52-59 | replacing a record in a listing keeps its length and changes only the position that holds that id |
| `Bookmarks.ListingAfterEdit` | src/bookmark/bookmark.service.ts:52-59 | overwriting a record without changing its owner replaces it in place in every listing |
| `Bookmarks.BookmarkService.DeleteBookmarkById` | src/bookmark/bookmark.service.ts:62-81 | succeeds iff the id is stored and owned by the caller; otherwise it throws the single AccessDenied error and the table is unchanged; on success exactly that id is removed, a later read of it returns nothing, the owner's listing loses exactly that one record and other users' listings are unchanged |
| `Bookmarks.ListingAfterDelete` | src/bookmark/bookmark.service.ts:76-80 | removing a record gives, in every listing, the old listing with that record filtered out and the order kept |
| `Bookmarks.WithoutMembers` | src/bookmark/bookmark.service.ts:76-80 | filtering an id out of a listing keeps exactly the records with another id |
| `Bookmarks.WithoutShrinks` | src/bookmark/bookmark.service.ts:76-80 | in an id-ordered listing, filtering out an id that occurs removes exactly one record |
| `Auth.AuthService.FindUser` | src/auth/auth.service.ts:45-49 | the lookup by the unique email finds the user stored under that email, if there is one |
| `Auth.AuthService.CreateUser` | src/auth/auth.service.ts:22-27 | the store's insert fails with the raised store error, or with the P2002 unique-constraint error when the email is taken, and then changes nothing; otherwise it adds exactly one user with that email and digest under a fresh id |
| `Auth.SignupError` | src/auth/auth.service.ts:31-40 | a P2002 unique-constraint error becomes Forbidden "Credentials taken"; every other store error is re-raised unchanged |
| `Auth.AuthService.Signup` | src/auth/auth.service.ts:17-41 | with a new email and no store failure, adds exactly one user with that email and hash(salt, password) under a fresh id and returns the token signed for that user's id and email; after it, sign-in with the same credentials succeeds and yields the same claims; a taken email gives "Credentials taken"; any other store failure is re-raised; every failure leaves the table unchanged |
| `Auth.AuthService.Signin` | src/auth/auth.service.ts:43-58 | succeeds iff the email is stored and the password verifies against the stored digest; an unknown email and a wrong password both give the same "Credentials incorrect" error; a success carries a token whose verified claims are the stored user's id and email; being a function of the table, it changes nothing |
| `Auth.AuthService.SignToken` | src/auth/auth.service.ts:60-77 | the token verifies under the configured secret to exactly the payload {sub: id, email} with the 15-minute lifetime |
| `Auth.TokenIdentifiesSubject` | src/auth/auth.service.ts:60-77 | two users with different ids or emails never get the same token |
| `Scenario.BookmarkLifecycle` | test/app.e2e-spec.ts:66-236 | in the test suite's flow, sign-up then sign-in succeed; the signed-in user's listing starts empty; a created bookmark is listed and readable; editing its description keeps its title; deleting it succeeds and leaves the listing empty |

## Left out

- The database and its client: both tables are in-memory maps. Ids are naturals from a counter rather than the store's generated strings. Listings are returned in creation order; the source's query asks for no particular order.
- Store failures in the bookmark service (an I/O error or a foreign-key violation on create): the source does not handle them, so they would reach the caller unchanged; the model's bookmark operations always reach the store.
- Store failures in sign-up are an explicit `fault` input; a P2002 raised that way is translated like the email conflict, as the source does.
- The argon2 algorithm: `hash` and `verify` are opaque function values with only the soundness fact; salting, timing and memory hardness are not modelled.
- The token format, the signing algorithm, the issued-at time and expiry arithmetic: the signer is an opaque pair of functions and `"15m"` is passed through as given. Because the model's signer takes no clock, two tokens for the same user are equal in the model. Sign-up therefore promises only that sign-in yields the same claims.
- Reading the secret from the configuration service: the secret is a constant field set at construction.
- Logging the error in sign-up's catch block.
- Asynchrony, and the race between the fetch and the write in edit and delete: each call is one atomic step.
- Request validation and field whitelisting: requests are datatypes that cannot carry an owner or unknown fields. The non-empty title, link, email and password rules and the 400 responses are not part of this model.
- HTTP controllers, the bearer-token guard and the user profile endpoints: they are not part of this model. The scenario reads the caller's id back from the token instead.
