# bookworm-app backend, modelled in Dafny

The backend of a book-recommendation app: people register and log in, receive a signed
session token, and then post books (title, caption, rating, an uploaded cover image), page
through everybody's books newest first, list their own, and delete the ones they posted.
This project models the decision logic of its request handlers over an in-memory state:

- `users.dfy` (`Users`): the user documents, the password-free projection, and
  `findOne` by email, username or id.
- `auth_routes.dfy` (`AuthRoutes`): `generateToken`, the `/register` handler as a method of a
  `UserStore` class (a fixed short-circuiting chain of checks, then one insert), and `/login`
  as a read-only function.
- `auth_middleware.dfy` (`AuthMiddleware`): `protectRoute`. The decision is a function
  (`Authenticate`) built from the try block (`GuardBody`) and the catch (`Catch`). An
  `Exchange` class holds `req.user`, the reply sent and whether `next()` ran, and the
  `ProtectRoute` method updates it.
- `cloudinary.dfy` (`Cloudinary`): the image host. Upload and destroy outcomes are
  uninterpreted functions, and the adapter logs every call made to it.
- `book_routes.dfy` (`BookRoutes`): a `BookStore` class with `Create` and `Delete` methods;
  the paginated feed, the owner list and the public-id extraction as functions; and a
  `BookRouter` class that runs the gate before each handler.
- `js_strings.dfy` (`JsStrings`): the JavaScript built-ins the handlers rely on: truthiness,
  `indexOf`, `includes`, `replace` with a string pattern, `split` and `pop`.
- `scenarios.dfy`: client code that uses only the contracts, e.g. registering the same email
  twice or deleting someone else's book.

The token signer, the token verifier and the password comparison are uninterpreted
functions passed in as parameters. The book collection is kept in insertion order. Each book
gets its `createdAt` from a clock that only moves forward, so `sort({ createdAt: -1 })` is the
collection reversed. `NewestFirstSorts` proves that this reversal is sorted newest first and is
a permutation of the collection.

Three behaviours of the code that the model keeps:

- An absent Authorization header is not answered with the "no token" message. `.replace` is
  called on `undefined`, which throws, and the catch answers 401 "Token is not valid".
- `replace("Bearer ", "")` is not anchored. It removes the first occurrence of `Bearer `
  anywhere in the header.
- A missing book is answered with 400. Deleting someone else's book is answered with 401.

The model departs from the code in two places, both in `protectRoute`. As written, the header
read at `auth.middleware.js:6` throws for every request, so every protected route answers 401
"Token is not valid"; `AuthenticateAsWritten` models that (see "## Findings"). `BookRouter`
runs the corrected gate `Authenticate` instead. The user lookup at line 15 is modelled as a
lookup by id (see "## Left out").

## Model

| member | source | states |
|---|---|---|
| `AuthRoutes.GenerateToken` | src/routes/authRoutes.js:11-17 | the token is the signer's output for the payload `{ userId }` with `expiresIn: "15d"` |
| `AuthMiddleware.TokenNamesUser` | src/routes/authRoutes.js:11-17 | when the verifier accepts whatever the signer issues, a generated token verifies to the claims `{ userId }` of the user it was made for |
| `AuthRoutes.UserStore.Register` | src/routes/authRoutes.js:28-86 | the checks run in order and stop at the first failure: presence, password length ≥ 6, username length ≥ 3, email unused, username unused; each failure answers 400 with its own message and leaves the collection unchanged; on success exactly one user is appended, its profile image is the dicebear prefix followed by the username, the reply is 201 with the new user's id, username, email and profile image and a token for its id, and uniqueness is kept |
| `AuthRoutes.RegisterKeepsUnique` | src/routes/authRoutes.js:46-74 | a registration that passed the email and username checks keeps ids, emails and usernames unique |
| `AuthRoutes.Login` | src/routes/authRoutes.js:103-135 | a missing email or password gives "All fields are required"; with both present every failure is 400 "Invalid Credentials"; an unknown email fails; a success is 200 for a stored user with that email whose password check passed, with a token for that user's id |
| `AuthRoutes.LoginHidesCause` | src/routes/authRoutes.js:113-124 | an unknown email and a known email with a failing password check give the identical reply |
| `AuthRoutes.LoginSucceeds` | src/routes/authRoutes.js:109-135 | when emails are unique, a stored user with a non-empty email, given a non-empty password that passes the check, logs in as itself with a token for its own id |
| `AuthRoutes.LoginAfterRegister` | src/routes/authRoutes.js:64-74 | logging in with the credentials just registered yields the registered user and a token for its id, provided the password check accepts the password as saved |
| `Users.FindOne` | src/routes/authRoutes.js:46-56 | `findOne` returns a stored document that matches the filter, and returns nothing exactly when no document matches |
| `Users.FindOneFindsUnique` | src/routes/authRoutes.js:109-111 | when ids, emails and usernames are unique, looking a user up by any of its own keys finds exactly that user |
| `AuthMiddleware.Catch` | src/middleware/auth.middleware.js:23-28 | any exception in the gate becomes 401 "Token is not valid"; a result that is not an exception passes through |
| `AuthMiddleware.Authenticate` | src/middleware/auth.middleware.js:4-29 | every rejection is 401: no header, a failed verify, or a verified user id that names no stored user gives "Token is not valid", and an empty token after stripping gives "No authentication token, access denied"; the request proceeds exactly when the verified token's user id names a stored user, and then as that user without the password |
| `AuthMiddleware.ProtectRoute` | src/middleware/auth.middleware.js:4-29 | on success `req.user` is set to the authenticated user and `next()` is called with nothing sent; on rejection the reply is sent, `next()` is not called and `req.user` is untouched |
| `AuthMiddleware.IssuedTokenAuthenticates` | src/middleware/auth.middleware.js:6-22 | a token issued for a stored user and presented as `Bearer <token>` lets the request through as that user |
| `AuthMiddleware.StripBearer` | src/middleware/auth.middleware.js:6 | `replace("Bearer ", "")` cuts out the first occurrence of `Bearer `, wherever it starts, and keeps the text before and after it |
| `AuthMiddleware.UnprefixedHeaderIsTheToken` | src/middleware/auth.middleware.js:6 | a header that does not contain `Bearer ` is used as the token unchanged |
| `AuthMiddleware.OnlyFirstBearerRemoved` | src/middleware/auth.middleware.js:6 | only the first `Bearer ` is removed |
| `AuthMiddleware.BearerRemovedAnywhere` | src/middleware/auth.middleware.js:6 | the removal is not anchored at the start of the header |
| `AuthMiddleware.AuthenticateAsWritten` | src/middleware/auth.middleware.js:6 | as written, the header read throws, so every request is answered 401 "Token is not valid" |
| `AuthMiddleware.AsWrittenRefusesIssuedToken` | src/middleware/auth.middleware.js:6-22 | as written, even a valid token for a stored user is refused, while the corrected gate lets it through |
| `JsStrings.IndexOf` | src/middleware/auth.middleware.js:6 | the index found is an occurrence and no earlier index is one; when nothing is found there is no occurrence at all |
| `JsStrings.ReplaceFirstOfPrefixed` | src/middleware/auth.middleware.js:6 | replacing a leading pattern by nothing gives back what followed it |
| `JsStrings.ReplaceFirstAbsent` | src/middleware/auth.middleware.js:6 | a string without the pattern is returned unchanged |
| `JsStrings.ReplaceFirstCutsFirstOccurrence` | src/middleware/auth.middleware.js:6 | only the first occurrence is cut; the text around it, later occurrences included, is kept |
| `JsStrings.Split` | src/routes/bookRoutes.js:111 | there is always at least one piece, no piece contains the separator, and every character of a piece comes from the input |
| `JsStrings.JoinSplit` | src/routes/bookRoutes.js:111 | joining the pieces with the separator rebuilds the input |
| `JsStrings.SplitJoin` | src/routes/bookRoutes.js:111 | splitting the join of separator-free pieces gives back those pieces |
| `JsStrings.SplitAtSeparator` | src/routes/bookRoutes.js:111 | a separator splits the string into the pieces before it followed by the pieces after it |
| `JsStrings.SplitWithoutSeparator` | src/routes/bookRoutes.js:111 | a string without the separator is a single piece |
| `Cloudinary.Uploader.Upload` | src/routes/bookRoutes.js:28-29 | the upload answers with the host's result for that payload and is logged |
| `Cloudinary.Uploader.Destroy` | src/routes/bookRoutes.js:112 | the destroy answers with the host's outcome for that public id and is logged |
| `BookRoutes.BookStore.Create` | src/routes/bookRoutes.js:15-47 | a missing title, image, caption or rating gives 400 "Please provide all fields" before any upload, and neither the books nor the image host change; otherwise the image is uploaded once; a failed upload gives 500 with its message and adds no book; a successful upload appends exactly one book with the caller as owner, the upload URL as image and the given title, caption and rating, and the other books are unchanged |
| `BookRoutes.BookStore.Delete` | src/routes/bookRoutes.js:97-122 | an unknown id gives 400 "Book not found" and a caller who is not the owner gives 401 "Unauthorized", both with nothing changed; the owner's delete removes exactly that book, whatever the image host answers, and asks the host to destroy the image's public id exactly when the image URL contains "cloudinary" |
| `BookRoutes.IndexOfBook` | src/routes/bookRoutes.js:97 | the position found holds a book with that id; when none is found, no book has that id |
| `BookRoutes.RemoveAtDropsOnlyThatBook` | src/routes/bookRoutes.js:119 | when ids are unique, deleting one book drops exactly that book and keeps every other |
| `BookRoutes.RemoveAtKeepsOrder` | src/routes/bookRoutes.js:119 | deleting a book keeps ids unique and the collection oldest first |
| `BookRoutes.NewestFirst` | src/routes/bookRoutes.js:57-58 | the k-th book newest first is the k-th book counted from the end of the collection |
| `BookRoutes.NewestFirstSorts` | src/routes/bookRoutes.js:57-58 | on a collection kept oldest first, the newest-first order is sorted by `createdAt` descending and holds the same books |
| `BookRoutes.SameBooks` | src/routes/bookRoutes.js:57-58 | the newest-first order is a permutation of the collection |
| `BookRoutes.Window` | src/routes/bookRoutes.js:59 | `skip(s).limit(l)` keeps `min(l, max(0, n - s))` books, the k-th being the book at position s + k |
| `BookRoutes.CeilDiv` | src/routes/bookRoutes.js:66 | `Math.ceil(n / d)` is 0 for n = 0, and otherwise the q with (q - 1)·d < n ≤ q·d |
| `BookRoutes.FeedPage` | src/routes/bookRoutes.js:55-66 | with skip = (page - 1)·limit, the page holds `min(limit, max(0, total - skip))` books, its k-th item is the book ranked skip + k newest first with its owner populated, `totalBooks` is the collection size and `totalPages` is the ceiling of total / limit |
| `BookRoutes.ListPage` | src/routes/bookRoutes.js:53-66 | an absent `page` defaults to 1 and an absent `limit` to 5; the reply is the feed page for those values, echoes the page and counts every book |
| `BookRoutes.ListPageDefaults` | src/routes/bookRoutes.js:53-54 | without `page` and `limit` the feed is page 1 with 5 per page |
| `BookRoutes.PageOfRank` | src/routes/bookRoutes.js:55 | the page rank / limit + 1 is the one whose window covers that rank |
| `BookRoutes.BookOnPage` | src/routes/bookRoutes.js:55-66 | a book is shown on the page whose window covers its rank, at position rank - skip, and that page number is at most `totalPages` |
| `BookRoutes.PageWithinTotal` | src/routes/bookRoutes.js:55-66 | a page whose window starts before the last book is at most `totalPages` |
| `BookRoutes.FeedItem` | src/routes/bookRoutes.js:57-59 | the k-th item of a page has the id of the book stored at position skip + k counted from the newest (the whole item is given by `FeedPage`) |
| `BookRoutes.SecondPageOfTwelve` | src/routes/bookRoutes.js:53-66 | with 12 books, `page=2&limit=5` shows the 6th to 10th newest books and reports 12 books on 3 pages |
| `BookRoutes.OwnedBy` | src/routes/bookRoutes.js:80-82 | a book is kept exactly when it is in the input and owned by that user |
| `BookRoutes.OwnedByCreatedBefore` | src/routes/bookRoutes.js:80-82 | filtering books that were all created before some instant keeps them all before it |
| `BookRoutes.OwnedByKeepsOrder` | src/routes/bookRoutes.js:80-84 | filtering keeps a newest-first sequence newest first |
| `BookRoutes.ListByOwner` | src/routes/bookRoutes.js:78-86 | the owner list holds exactly the collection's books whose owner is the caller |
| `BookRoutes.ListByOwnerNewestFirst` | src/routes/bookRoutes.js:80-84 | the owner list is newest first |
| `BookRoutes.DeletedBookNotOnAnyPage` | src/routes/bookRoutes.js:119 | after an owner's delete, no page of the feed shows the deleted book |
| `BookRoutes.DeletedBookNotInOwnerList` | src/routes/bookRoutes.js:119 | after an owner's delete, no owner list shows the deleted book |
| `BookRoutes.PublicId` | src/routes/bookRoutes.js:111 | `image.split("/").pop().split(".")[0]` is a bare name: it contains neither `/` nor `.` |
| `BookRoutes.PublicIdOfUploadUrl` | src/routes/bookRoutes.js:111 | for a URL `<base>/<name>.<ext>`, with no `/` or `.` in the name and no `/` in the extension, the public id is `<name>` |
| `BookRoutes.BookRouter.Post` | src/routes/bookRoutes.js:12-48 | a request the gate rejects gets the gate's reply and changes neither books nor image host; otherwise `req.user` is the authenticated user, nothing is sent by the gate, and the handler runs as that user: missing fields give 400 with books and image host unchanged; otherwise the image is uploaded exactly once, a failed upload gives 500 with its message and adds no book, and a successful upload answers 201 with the one book appended, owned by that user |
| `BookRoutes.BookRouter.Get` | src/routes/bookRoutes.js:51-76 | a rejected request gets the gate's reply; otherwise `req.user` is the authenticated user, the gate sends nothing, and the reply is the feed page for the query |
| `BookRoutes.BookRouter.GetOwn` | src/routes/bookRoutes.js:78-93 | a rejected request gets the gate's reply; otherwise `req.user` is the authenticated user, the gate sends nothing, and the reply is that user's own books |
| `BookRoutes.BookRouter.Remove` | src/routes/bookRoutes.js:95-129 | a request the gate rejects gets the gate's reply and changes nothing; otherwise `req.user` is the authenticated user and the gate sends nothing; an unknown id gives 400 and another user's book gives 401, both with books and image host unchanged; the owner's request gives 200, removes exactly that book and makes the destroy call for its image exactly when the URL contains "cloudinary" |

## Left out

- `src/index.js` and `src/lib/db.js`: application wiring, CORS, the body parser, the cron job, `listen` and the database connection with its `process.exit` are transport and startup, not decision logic.
- JWT signing and verification: `Signer` and `Verifier` are uninterpreted functions. Expiry after 15 days is folded into `Verifier` answering None. Tokens are not revocable, in the source and in the model.
- Password hashing and `comparePassword` live in the User schema, which is not part of this model: the stored `password` is whatever the schema keeps, and `PasswordCheck` is uninterpreted.
- The User and Book schemas (required fields, value ranges, trimming, unique indexes): not part of this model.
- Store failures: a failing `save`, `findOne`, `countDocuments` or `deleteOne`, or a malformed id passed to `findById`, would reach a route handler's catch and be answered 500; a failing `findOne` inside `protectRoute` would reach the gate's catch and be answered 401 "Token is not valid". The in-memory store does not fail, so these replies and the blob left orphaned by a failed `save` after an upload are not modelled. A failed upload is modelled.
- Query-string coercion: `page` and `limit` are positive naturals. Strings, `0`, negative or non-numeric values, and the echo of `page` as a string in `currentPage`, are not modelled.
- `createdAt` comes from a strictly increasing counter, so two books never share a timestamp. The store's tie-breaking between equal timestamps is not modelled.
- Field types: body fields are optional strings, and `rating` is an optional integer whose falsy value is 0. Other JSON types (numbers where strings are expected, objects, NaN) are not modelled.
- String lengths are counted in Dafny characters. JavaScript counts UTF-16 code units, so the two differ for characters outside the Basic Multilingual Plane.
- `AuthRoutes.UserStore.Register`: the signer cannot fail. In the source, `jwt.sign` can throw after `await user.save()`, and then the user stays stored while the reply is 500 "Internal server error". The model does not capture that outcome.
- `AuthRoutes.Login`: the signer and the password comparison cannot fail. In the source a throwing `comparePassword` or `jwt.sign` is answered 500 "Internal server error", not 400 "Invalid Credentials". The model does not capture that.
- `Cloudinary.Uploader`: an uploader's upload and destroy outcomes are fixed functions of the payload and of the public id. So an upload of the same payload cannot succeed after it once failed. No contract in the model relies on this.
- Console logging and the concurrent interleaving of requests: the model runs one request at a time.
- `AuthMiddleware.Authenticate`: it looks the user up by id. The source calls `User.findOne(decoded.userId)` with a bare id where a filter object is expected. Depending on the Mongoose version, that call either ignores the argument or throws, and a throw ends in the same 401.

## Findings

| source | as written | input that shows it | evidently intended | confidence | as-written member | corrected member |
|---|---|---|---|---|---|---|
| src/middleware/auth.middleware.js:6 | `req.headers("Authorization")` calls the request's header object as a function; that throws a TypeError before the token is read, and the catch answers 401 "Token is not valid" | any request to a protected route, e.g. `Authorization: Bearer <a token issued at login>` (lemma `AuthMiddleware.AsWrittenRefusesIssuedToken`) | read the header with `req.header("Authorization")`, strip the prefix, then verify and look the user up | high; not executed | `AuthMiddleware.AuthenticateAsWritten` | `AuthMiddleware.Authenticate` |
