/**
 * The book handlers behind `protectRoute`: create (`POST /`), the paginated feed (`GET /`),
 * the caller's own books (`GET /user`) and delete (`DELETE /:id`). Each takes the identity
 * the gate attached as `req.user._id`.
 *
 * The collection is kept in insertion order and every book gets a `createdAt` from a clock
 * that only moves forward, so the collection is always oldest first and the store's
 * `sort({ createdAt: -1 })` is its reversal.
 */
module BookRoutes {
  import opened Wrappers
  import opened JsStrings
  import opened Http
  import opened Users
  import opened Cloudinary
  import AuthRoutes
  import opened AuthMiddleware

  const PROVIDE_ALL_FIELDS := "Please provide all fields"
  const BOOK_NOT_FOUND := "Book not found"
  const UNAUTHORIZED := "Unauthorized"
  const BOOK_DELETED := "Book deleted Successfully"
  const CLOUDINARY_MARKER := "cloudinary"
  const DEFAULT_PAGE: Positive := 1
  const DEFAULT_LIMIT: Positive := 5

  type BookId = nat

  type Positive = n: nat | n >= 1 witness 1

  datatype Book = Book(id: BookId, title: string, caption: string, rating: int, image: string, user: UserId, createdAt: nat)

  function Min(a: int, b: int): int {
    if a <= b then a else b
  }

  function Max(a: int, b: int): int {
    if a >= b then a else b
  }

  predicate UniqueIds(books: seq<Book>) {
    forall i, j :: 0 <= i < j < |books| ==> books[i].id != books[j].id
  }

  /** Oldest first, with no two books created at the same instant. */
  predicate Chronological(books: seq<Book>) {
    forall i, j :: 0 <= i < j < |books| ==> books[i].createdAt < books[j].createdAt
  }

  /** Newest first: the order of `sort({ createdAt: -1 })`. */
  predicate NewestFirstOrder(books: seq<Book>) {
    forall i, j :: 0 <= i < j < |books| ==> books[i].createdAt > books[j].createdAt
  }

  // ----- the collection -----------------------------------------------------------------

  /** `Book.findById(id)`, as the position of the book in the collection. */
  function IndexOfBook(books: seq<Book>, id: BookId): (r: Option<nat>)
    ensures r.Some? ==> r.value < |books| && books[r.value].id == id
    ensures r.None? ==> forall b :: b in books ==> b.id != id
    decreases |books|
  {
    if books == [] then None
    else if books[0].id == id then Some(0)
    else match IndexOfBook(books[1..], id)
      case None => None
      case Some(i) => Some(i + 1)
  }

  /** `book.deleteOne()` for the book at position `i`. */
  function RemoveAt(books: seq<Book>, i: nat): seq<Book>
    requires i < |books|
  {
    books[..i] + books[i + 1..]
  }

  lemma RemoveAtIndex(books: seq<Book>, i: nat)
    requires i < |books|
    ensures |RemoveAt(books, i)| == |books| - 1
    ensures forall k :: 0 <= k < |books| - 1 ==> RemoveAt(books, i)[k] == books[if k < i then k else k + 1]
  {
  }

  /** Removing one book of a collection with unique ids drops that book and keeps every other. */
  lemma RemoveAtDropsOnlyThatBook(books: seq<Book>, i: nat)
    requires UniqueIds(books) && i < |books|
    ensures |RemoveAt(books, i)| == |books| - 1
    ensures forall b :: b in RemoveAt(books, i) <==> b in books && b.id != books[i].id
  {
    var after := RemoveAt(books, i);
    RemoveAtIndex(books, i);
    forall b
      ensures b in after <==> b in books && b.id != books[i].id
    {
      if b in after {
        var k :| 0 <= k < |after| && after[k] == b;
        assert b == books[if k < i then k else k + 1];
      }
      if b in books && b.id != books[i].id {
        var j :| 0 <= j < |books| && books[j] == b;
        assert j != i;
        assert after[if j < i then j else j - 1] == b;
      }
    }
  }

  /** Removing a book keeps ids unique and the collection oldest first. */
  lemma RemoveAtKeepsOrder(books: seq<Book>, i: nat)
    requires i < |books|
    requires UniqueIds(books) && Chronological(books)
    ensures UniqueIds(RemoveAt(books, i)) && Chronological(RemoveAt(books, i))
  {
    RemoveAtIndex(books, i);
    var after := RemoveAt(books, i);
    forall a, c | 0 <= a < c < |after|
      ensures after[a].id != after[c].id && after[a].createdAt < after[c].createdAt
    {
      assert after[a] == books[if a < i then a else a + 1];
      assert after[c] == books[if c < i then c else c + 1];
    }
  }

  // ----- create ------------------------------------------------------------------------

  datatype CreateRequest = CreateRequest(title: Option<string>, caption: Option<string>, rating: Option<int>, image: Option<string>)

  /** `!(!title || !image || !caption || !rating)`. */
  predicate FieldsPresent(req: CreateRequest) {
    Truthy(req.title) && Truthy(req.image) && Truthy(req.caption) && TruthyNumber(req.rating)
  }

  /** `201` with the saved book, or a `{ message }` reply. */
  datatype CreateReply = Created(status: nat, book: Book) | CreateFailed(reply: Reply)

  /** The delete handler's call to the image host for a stored image URL. */
  function Cleanup(image: string): seq<Call> {
    if image != "" && Includes(image, CLOUDINARY_MARKER) then [DestroyCall(PublicId(image))] else []
  }

  /** The book collection, with the counters for fresh ids and for `createdAt`. */
  class BookStore {
    var books: seq<Book>
    var nextId: BookId
    var clock: nat

    ghost predicate Valid()
      reads this
    {
      && UniqueIds(books)
      && Chronological(books)
      && forall b :: b in books ==> b.id < nextId && b.createdAt < clock
    }

    constructor ()
      ensures Valid() && books == []
    {
      books := [];
      nextId := 0;
      clock := 0;
    }

    /** `POST /` for the user `identity`. */
    method Create(identity: UserId, req: CreateRequest, uploader: Uploader) returns (r: CreateReply)
      requires Valid()
      modifies this, uploader
      ensures Valid()
      // missing fields are refused before anything is uploaded
      ensures !FieldsPresent(req) ==>
        r == CreateFailed(Reply(400, PROVIDE_ALL_FIELDS)) && unchanged(this) && unchanged(uploader)
      // otherwise the image is uploaded, exactly once
      ensures FieldsPresent(req) ==> uploader.calls == old(uploader.calls) + [UploadCall(req.image.value)]
      // a failed upload saves nothing
      ensures FieldsPresent(req) && uploader.upload(req.image.value).UploadFailed? ==>
        r == CreateFailed(Reply(500, uploader.upload(req.image.value).message)) && unchanged(this)
      // a successful upload saves one book, owned by the caller, showing the uploaded URL
      ensures FieldsPresent(req) && uploader.upload(req.image.value).Uploaded? ==>
        var book := Book(old(nextId), req.title.value, req.caption.value, req.rating.value,
                         uploader.upload(req.image.value).secureUrl, identity, old(clock));
        && books == old(books) + [book]
        && nextId == old(nextId) + 1 && clock == old(clock) + 1
        && r == Created(201, book)
    {
      if !Truthy(req.title) || !Truthy(req.image) || !Truthy(req.caption) || !TruthyNumber(req.rating) {
        return CreateFailed(Reply(400, PROVIDE_ALL_FIELDS));
      }
      var uploadResponse := uploader.Upload(req.image.value);
      if uploadResponse.UploadFailed? {
        // the catch answers with the error's message
        return CreateFailed(Reply(500, uploadResponse.message));
      }
      var book := Book(nextId, req.title.value, req.caption.value, req.rating.value,
                       uploadResponse.secureUrl, identity, clock);
      books := books + [book];
      nextId := nextId + 1;
      clock := clock + 1;
      r := Created(201, book);
    }

    /** `DELETE /:id` for the user `identity`. */
    method Delete(identity: UserId, bookId: BookId, uploader: Uploader) returns (r: Reply)
      requires Valid()
      modifies this, uploader
      ensures Valid()
      ensures IndexOfBook(old(books), bookId).None? ==>
        r == Reply(400, BOOK_NOT_FOUND) && unchanged(this) && unchanged(uploader)
      ensures IndexOfBook(old(books), bookId).Some? ==>
        var i := IndexOfBook(old(books), bookId).value;
        var book := old(books)[i];
        && (book.user != identity ==>
              r == Reply(401, UNAUTHORIZED) && unchanged(this) && unchanged(uploader))
        && (book.user == identity ==>
              && r == Reply(200, BOOK_DELETED)
              && books == RemoveAt(old(books), i)
              && nextId == old(nextId) && clock == old(clock)
              && uploader.calls == old(uploader.calls) + Cleanup(book.image))
    {
      var found := IndexOfBook(books, bookId);
      if found.None? {
        return Reply(400, BOOK_NOT_FOUND);
      }
      var i := found.value;
      var book := books[i];
      if book.user != identity {
        return Reply(401, UNAUTHORIZED);
      }
      if book.image != "" && Includes(book.image, CLOUDINARY_MARKER) {
        // a failed destroy is logged and ignored
        var destroyed := uploader.Destroy(PublicId(book.image));
      }
      RemoveAtKeepsOrder(books, i);
      RemoveAtDropsOnlyThatBook(books, i);
      books := RemoveAt(books, i);
      r := Reply(200, BOOK_DELETED);
    }
  }

  // ----- ordering ----------------------------------------------------------------------

  /** `Book.find().sort({ createdAt: -1 })` over a collection kept oldest first. */
  function NewestFirst(books: seq<Book>): (r: seq<Book>)
    ensures |r| == |books|
    ensures forall k :: 0 <= k < |books| ==> r[k] == books[|books| - 1 - k]
    decreases |books|
  {
    if books == [] then [] else NewestFirst(books[1..]) + [books[0]]
  }

  /** On an oldest-first collection, NewestFirst is a sort by `createdAt` descending: ordered, and the same books. */
  lemma {:induction false} NewestFirstSorts(books: seq<Book>)
    requires Chronological(books)
    ensures NewestFirstOrder(NewestFirst(books))
    ensures multiset(NewestFirst(books)) == multiset(books)
  {
    SameBooks(books);
  }

  lemma {:induction false} SameBooks(books: seq<Book>)
    ensures multiset(NewestFirst(books)) == multiset(books)
    ensures forall b :: b in NewestFirst(books) <==> b in books
    decreases |books|
  {
    if books != [] {
      SameBooks(books[1..]);
      assert books == [books[0]] + books[1..];
    }
    forall b
      ensures b in NewestFirst(books) <==> b in books
    {
      assert b in NewestFirst(books) <==> b in multiset(NewestFirst(books));
      assert b in books <==> b in multiset(books);
    }
  }

  // ----- the paginated feed ------------------------------------------------------------

  /** What `.populate("user", "username profileImage")` leaves of the owner. */
  datatype Owner = Owner(id: UserId, username: string, profileImage: string)

  /** A book as the feed sends it; `user` is null when the owner no longer exists. */
  datatype BookView = BookView(id: BookId, title: string, caption: string, rating: int, image: string,
                               user: Option<Owner>, createdAt: nat)

  function Populate(users: seq<User>, b: Book): BookView {
    var owner := match FindOne(users, ById(b.user))
      case None => None
      case Some(u) => Some(Owner(u.id, u.username, u.profileImage));
    BookView(b.id, b.title, b.caption, b.rating, b.image, owner, b.createdAt)
  }

  /** `?page=..&limit=..`; each defaults when absent. */
  datatype PageQuery = PageQuery(page: Option<Positive>, limit: Option<Positive>)

  datatype Page = Page(books: seq<BookView>, currentPage: Positive, totalBooks: nat, totalPages: nat)

  /** `Math.ceil(n / d)`. */
  function CeilDiv(n: nat, d: Positive): (q: nat)
    ensures n == 0 ==> q == 0
    ensures n > 0 ==> (q - 1) * d < n <= q * d
  {
    var m := n + d - 1;
    var q := m / d;
    assert m == q * d + m % d;
    assert (q - 1) * d == q * d - d;
    q
  }

  /** `.skip(skip).limit(limit)` on the ranked books. */
  function Window(ranked: seq<Book>, skip: nat, limit: Positive): (w: seq<Book>)
    ensures |w| == Min(limit, Max(0, |ranked| - skip))
    ensures forall k :: 0 <= k < |w| ==> skip + k < |ranked| && w[k] == ranked[skip + k]
  {
    if skip >= |ranked| then [] else ranked[skip..Min(skip + limit, |ranked|)]
  }

  function PopulateAll(users: seq<User>, books: seq<Book>): (views: seq<BookView>)
    ensures |views| == |books|
    ensures forall k :: 0 <= k < |books| ==> views[k] == Populate(users, books[k])
  {
    seq(|books|, k requires 0 <= k < |books| => Populate(users, books[k]))
  }

  /**
   * The reply of `GET /` for a given page and limit: the books that `sort({ createdAt: -1 })
   * .skip((page - 1) * limit).limit(limit)` selects, populated, with the page counts.
   */
  function FeedPage(users: seq<User>, books: seq<Book>, page: Positive, limit: Positive): (r: Page)
    ensures r.currentPage == page && r.totalBooks == |books|
    ensures var skip := (page - 1) * limit;
            && |r.books| == Min(limit, Max(0, |books| - skip))
            && forall k :: 0 <= k < |r.books| ==>
                 skip + k < |books| && r.books[k] == Populate(users, NewestFirst(books)[skip + k])
    ensures |books| == 0 ==> r.totalPages == 0
    ensures |books| > 0 ==> (r.totalPages - 1) * limit < |books| <= r.totalPages * limit
  {
    var skip: nat := (page - 1) * limit;
    var views := PopulateAll(users, Window(NewestFirst(books), skip, limit));
    Page(views, page, |books|, CeilDiv(|books|, limit))
  }

  /** `GET /`: `page` defaults to 1 and `limit` to 5. */
  function ListPage(users: seq<User>, books: seq<Book>, query: PageQuery): (r: Page)
    ensures var page := if query.page.Some? then query.page.value else 1;
            var limit := if query.limit.Some? then query.limit.value else 5;
            r == FeedPage(users, books, page, limit)
    ensures r.currentPage == (if query.page.Some? then query.page.value else 1)
    ensures r.totalBooks == |books|
  {
    FeedPage(users, books, query.page.GetOr(DEFAULT_PAGE), query.limit.GetOr(DEFAULT_LIMIT))
  }

  /** The page `rank / limit + 1` is the one whose window covers rank `rank`. */
  lemma PageOfRank(limit: Positive, rank: nat)
    ensures var page := rank / limit + 1;
            (page - 1) * limit <= rank < (page - 1) * limit + limit
  {
    assert rank == (rank / limit) * limit + rank % limit;
  }

  /**
   * A book ranked `rank` in the feed is shown on every page whose window `[skip, skip + limit)`
   * covers that rank, at position `rank - skip`, and that page is one of the `totalPages` pages.
   */
  lemma BookOnPage(users: seq<User>, books: seq<Book>, page: Positive, limit: Positive, skip: nat, rank: nat)
    requires skip == (page - 1) * limit
    requires skip <= rank < skip + limit && rank < |books|
    ensures page <= FeedPage(users, books, page, limit).totalPages
    ensures rank - skip < |FeedPage(users, books, page, limit).books|
    ensures FeedPage(users, books, page, limit).books[rank - skip] == Populate(users, NewestFirst(books)[rank])
  {
    var r := FeedPage(users, books, page, limit);
    PageWithinTotal(|books|, page, limit, skip);
    var k := rank - skip;
    assert r.books[k] == Populate(users, NewestFirst(books)[skip + k]);
  }

  /** A page whose window starts before the last book is counted in `totalPages`. */
  lemma PageWithinTotal(n: nat, page: Positive, limit: Positive, skip: nat)
    requires skip == (page - 1) * limit && skip < n
    ensures page <= CeilDiv(n, limit)
  {
    var q := CeilDiv(n, limit);
    if page > q {
      MultiplyMonotone(q, page - 1, limit);
      assert false;
    }
  }

  lemma MultiplyMonotone(a: nat, b: nat, c: nat)
    requires a <= b
    ensures a * c <= b * c
  {
  }

  /** Without `page` and `limit`, the feed is the first page of five. */
  lemma ListPageDefaults(users: seq<User>, books: seq<Book>)
    ensures ListPage(users, books, PageQuery(None, None)) == FeedPage(users, books, 1, 5)
    ensures ListPage(users, books, PageQuery(None, None)).currentPage == 1
  {
  }

  /** With 12 books and 5 per page, page 2 holds the books ranked 5 to 9 and there are 3 pages. */
  lemma SecondPageOfTwelve(users: seq<User>, books: seq<Book>)
    requires |books| == 12
    ensures var r := ListPage(users, books, PageQuery(Some(2), Some(5)));
            && r.totalPages == 3 && r.totalBooks == 12 && |r.books| == 5
            && forall k :: 0 <= k < 5 ==> r.books[k] == Populate(users, NewestFirst(books)[5 + k])
  {
  }

  // ----- the caller's own books --------------------------------------------------------

  /** `find({ user: owner })` over a sequence, keeping its order. */
  function OwnedBy(books: seq<Book>, owner: UserId): (r: seq<Book>)
    ensures forall b :: b in r <==> b in books && b.user == owner
    decreases |books|
  {
    if books == [] then []
    else if books[0].user == owner then [books[0]] + OwnedBy(books[1..], owner)
    else OwnedBy(books[1..], owner)
  }

  /** Filtering a sequence of books all created before `t` leaves books all created before `t`. */
  lemma {:induction false} OwnedByCreatedBefore(books: seq<Book>, owner: UserId, t: nat)
    requires forall k :: 0 <= k < |books| ==> books[k].createdAt < t
    ensures forall k :: 0 <= k < |OwnedBy(books, owner)| ==> OwnedBy(books, owner)[k].createdAt < t
    decreases |books|
  {
    if books != [] {
      OwnedByCreatedBefore(books[1..], owner, t);
    }
  }

  /** Filtering keeps a newest-first sequence newest first. */
  lemma {:induction false} OwnedByKeepsOrder(books: seq<Book>, owner: UserId)
    requires NewestFirstOrder(books)
    ensures NewestFirstOrder(OwnedBy(books, owner))
    decreases |books|
  {
    if books != [] {
      var tail := books[1..];
      assert NewestFirstOrder(tail) by {
        forall i, j | 0 <= i < j < |tail|
          ensures tail[i].createdAt > tail[j].createdAt
        {
          assert tail[i] == books[i + 1] && tail[j] == books[j + 1];
        }
      }
      OwnedByKeepsOrder(tail, owner);
      var rest := OwnedBy(tail, owner);
      if books[0].user == owner {
        assert forall k :: 0 <= k < |tail| ==> tail[k].createdAt < books[0].createdAt by {
          forall k | 0 <= k < |tail|
            ensures tail[k].createdAt < books[0].createdAt
          {
            assert tail[k] == books[k + 1];
          }
        }
        OwnedByCreatedBefore(tail, owner, books[0].createdAt);
        var r := [books[0]] + rest;
        assert OwnedBy(books, owner) == r;
        forall i, j | 0 <= i < j < |r|
          ensures r[i].createdAt > r[j].createdAt
        {
          assert r[j] == rest[j - 1];
          if i > 0 {
            assert r[i] == rest[i - 1];
          }
        }
      } else {
        assert OwnedBy(books, owner) == rest;
      }
    }
  }

  /** `GET /user`: the caller's books, newest first. */
  function ListByOwner(books: seq<Book>, owner: UserId): (r: seq<Book>)
    ensures forall b :: b in r <==> b in books && b.user == owner
  {
    SameBooks(books);
    OwnedBy(NewestFirst(books), owner)
  }

  /** On an oldest-first collection, the caller's list is newest first. */
  lemma ListByOwnerNewestFirst(books: seq<Book>, owner: UserId)
    requires Chronological(books)
    ensures NewestFirstOrder(ListByOwner(books, owner))
  {
    NewestFirstSorts(books);
    OwnedByKeepsOrder(NewestFirst(books), owner);
  }

  /** The k-th item of a feed page is the book at position skip + k counted from the end. */
  lemma FeedItem(users: seq<User>, books: seq<Book>, page: Positive, limit: Positive, skip: nat, k: nat)
    requires skip == (page - 1) * limit
    requires k < |FeedPage(users, books, page, limit).books|
    ensures skip + k < |books|
    ensures FeedPage(users, books, page, limit).books[k].id == books[|books| - 1 - (skip + k)].id
  {
    var r := FeedPage(users, books, page, limit);
    assert skip + k < |books| && r.books[k] == Populate(users, NewestFirst(books)[skip + k]);
    assert NewestFirst(books)[skip + k] == books[|books| - 1 - (skip + k)];
  }

  /** After an owner deletes a book, no page of the feed shows it. */
  lemma DeletedBookNotOnAnyPage(users: seq<User>, books: seq<Book>, i: nat, page: Positive, limit: Positive)
    requires UniqueIds(books) && i < |books|
    ensures var r := FeedPage(users, RemoveAt(books, i), page, limit);
            forall k :: 0 <= k < |r.books| ==> r.books[k].id != books[i].id
  {
    var after := RemoveAt(books, i);
    RemoveAtDropsOnlyThatBook(books, i);
    var skip: nat := (page - 1) * limit;
    forall k | 0 <= k < |FeedPage(users, after, page, limit).books|
      ensures FeedPage(users, after, page, limit).books[k].id != books[i].id
    {
      FeedItem(users, after, page, limit, skip, k);
      assert after[|after| - 1 - (skip + k)] in after;
    }
  }

  /** After an owner deletes a book, no owner's list shows it. */
  lemma DeletedBookNotInOwnerList(books: seq<Book>, i: nat, owner: UserId)
    requires UniqueIds(books) && i < |books|
    ensures forall b :: b in ListByOwner(RemoveAt(books, i), owner) ==> b.id != books[i].id
  {
    RemoveAtDropsOnlyThatBook(books, i);
  }

  // ----- the image's public id ---------------------------------------------------------

  /** `image.split("/").pop().split(".")[0]`. */
  function PublicId(image: string): (id: string)
    // a bare name: neither a directory nor an extension is left
    ensures '/' !in id && '.' !in id
  {
    Split(Last(Split(image, '/')), '.')[0]
  }

  /** For an upload URL `<base>/<name>.<ext>`, the public id is `<name>`. */
  lemma PublicIdOfUploadUrl(base: string, name: string, ext: string)
    requires '/' !in name && '.' !in name && '/' !in ext
    ensures PublicId(base + "/" + name + "." + ext) == name
  {
    var file := name + "." + ext;
    assert '/' !in file;
    assert base + "/" + name + "." + ext == base + ['/'] + file;
    SplitAtSeparator(base, file, '/');
    SplitWithoutSeparator(file, '/');
    assert Last(Split(base + ['/'] + file, '/')) == file;
    assert file == name + ['.'] + ext;
    SplitAtSeparator(name, ext, '.');
    SplitWithoutSeparator(name, '.');
  }

  // ----- the router ----------------------------------------------------------------------

  /**
   * The book router: every route runs `protectRoute` first, and its handler runs only when the
   * gate calls `next()`, with `req.user._id` as the caller's identity.
   */
  class BookRouter {
    const accounts: AuthRoutes.UserStore
    const store: BookStore
    const uploader: Uploader
    const verify: Verifier

    ghost predicate Valid()
      reads this, accounts, store
    {
      accounts.Valid() && store.Valid()
    }

    constructor (accounts: AuthRoutes.UserStore, store: BookStore, uploader: Uploader, verify: Verifier)
      requires accounts.Valid() && store.Valid()
      ensures Valid()
      ensures this.accounts == accounts && this.store == store && this.uploader == uploader && this.verify == verify
    {
      this.accounts := accounts;
      this.store := store;
      this.uploader := uploader;
      this.verify := verify;
    }

    /** `router.post("/", protectRoute, ...)`; None when the gate answered. */
    method Post(ex: Exchange, req: CreateRequest) returns (r: Option<CreateReply>)
      requires Valid() && !ex.forwarded
      modifies ex, store, uploader
      ensures Valid()
      ensures var gate := Authenticate(ex.authorization, verify, accounts.users);
        && (gate.Respond? ==>
              r.None? && ex.reply == Some(gate.reply) && unchanged(store) && unchanged(uploader))
        && (gate.Next? ==>
              && ex.user == Some(gate.user) && ex.reply == old(ex.reply) && r.Some?
              && (!FieldsPresent(req) ==>
                    r.value == CreateFailed(Reply(400, PROVIDE_ALL_FIELDS)) && unchanged(store) && unchanged(uploader))
              && (FieldsPresent(req) ==> uploader.calls == old(uploader.calls) + [UploadCall(req.image.value)])
              && (FieldsPresent(req) && uploader.upload(req.image.value).UploadFailed? ==>
                    && r.value == CreateFailed(Reply(500, uploader.upload(req.image.value).message))
                    && unchanged(store))
              && (FieldsPresent(req) && uploader.upload(req.image.value).Uploaded? ==>
                    var book := Book(old(store.nextId), req.title.value, req.caption.value, req.rating.value,
                                     uploader.upload(req.image.value).secureUrl, gate.user.id, old(store.clock));
                    r.value == Created(201, book) && store.books == old(store.books) + [book]))
    {
      ProtectRoute(ex, verify, accounts.users);
      if !ex.forwarded {
        return None;
      }
      var reply := store.Create(ex.user.value.id, req, uploader);
      r := Some(reply);
    }

    /** `router.get("/", protectRoute, ...)`. */
    method Get(ex: Exchange, query: PageQuery) returns (r: Option<Page>)
      requires Valid() && !ex.forwarded
      modifies ex
      ensures var gate := Authenticate(ex.authorization, verify, accounts.users);
        && (gate.Respond? ==> r.None? && ex.reply == Some(gate.reply))
        && (gate.Next? ==>
              && ex.user == Some(gate.user) && ex.reply == old(ex.reply)
              && r == Some(ListPage(accounts.users, store.books, query)))
    {
      ProtectRoute(ex, verify, accounts.users);
      if !ex.forwarded {
        return None;
      }
      r := Some(ListPage(accounts.users, store.books, query));
    }

    /** `router.get("/user", protectRoute, ...)`. */
    method GetOwn(ex: Exchange) returns (r: Option<seq<Book>>)
      requires Valid() && !ex.forwarded
      modifies ex
      ensures var gate := Authenticate(ex.authorization, verify, accounts.users);
        && (gate.Respond? ==> r.None? && ex.reply == Some(gate.reply))
        && (gate.Next? ==>
              && ex.user == Some(gate.user) && ex.reply == old(ex.reply)
              && r == Some(ListByOwner(store.books, gate.user.id)))
    {
      ProtectRoute(ex, verify, accounts.users);
      if !ex.forwarded {
        return None;
      }
      r := Some(ListByOwner(store.books, ex.user.value.id));
    }

    /** `router.delete("/:id", protectRoute, ...)`. */
    method Remove(ex: Exchange, bookId: BookId) returns (r: Option<Reply>)
      requires Valid() && !ex.forwarded
      modifies ex, store, uploader
      ensures Valid()
      ensures var gate := Authenticate(ex.authorization, verify, accounts.users);
        && (gate.Respond? ==>
              r.None? && ex.reply == Some(gate.reply) && unchanged(store) && unchanged(uploader))
        && (gate.Next? ==>
              && ex.user == Some(gate.user) && ex.reply == old(ex.reply) && r.Some?
              && (IndexOfBook(old(store.books), bookId).None? ==>
                    r.value == Reply(400, BOOK_NOT_FOUND) && unchanged(store) && unchanged(uploader))
              && (IndexOfBook(old(store.books), bookId).Some? ==>
                    var i := IndexOfBook(old(store.books), bookId).value;
                    && (old(store.books)[i].user != gate.user.id ==>
                          r.value == Reply(401, UNAUTHORIZED) && unchanged(store) && unchanged(uploader))
                    && (old(store.books)[i].user == gate.user.id ==>
                          && r.value == Reply(200, BOOK_DELETED) && store.books == RemoveAt(old(store.books), i)
                          && uploader.calls == old(uploader.calls) + Cleanup(old(store.books)[i].image))))
    {
      ProtectRoute(ex, verify, accounts.users);
      if !ex.forwarded {
        return None;
      }
      var reply := store.Delete(ex.user.value.id, bookId, uploader);
      r := Some(reply);
    }
  }
}
