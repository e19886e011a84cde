/**
 * Client code that uses only the contracts of the handlers: a few request sequences with
 * the outcome each must have.
 */
module Scenarios {
  import opened Wrappers
  import opened Http
  import opened Users
  import opened AuthRoutes
  import opened Cloudinary
  import opened BookRoutes

  /** A second registration with an email already taken is refused and saves nothing. */
  method DuplicateEmail(sign: Signer) {
    var accounts := new UserStore();
    var first := accounts.Register(RegisterRequest(Some("alice"), Some("a@x.io"), Some("secret1")), sign);
    assert first.AuthSuccess? && first.status == 201;
    assert |accounts.users| == 1;
    assert accounts.users[0].profileImage == AVATAR_PREFIX + "alice";
    assert FindOne(accounts.users, ByEmail("a@x.io")).Some?;
    var second := accounts.Register(RegisterRequest(Some("bob"), Some("a@x.io"), Some("secret2")), sign);
    assert second == AuthFailure(400, EMAIL_EXISTS);
    assert |accounts.users| == 1;
  }

  /** A short password is reported even when the username is too short as well. */
  method ShortPasswordFirst(sign: Signer) {
    var accounts := new UserStore();
    var r := accounts.Register(RegisterRequest(Some("al"), Some("a@x.io"), Some("12345")), sign);
    assert r == AuthFailure(400, PASSWORD_TOO_SHORT);
    assert accounts.users == [];
  }

  /** A failed upload saves no book; a delete by someone else is refused and keeps the book. */
  method UploadThenForeignDelete(owner: UserId, other: UserId)
    requires owner != other
  {
    var failing := new Uploader(payload => UploadFailed("timeout"), id => true);
    var store := new BookStore();
    var req := CreateRequest(Some("Dune"), Some("classic"), Some(5), Some("data:image/png;base64,AAAA"));
    var r := store.Create(owner, req, failing);
    assert r == CreateFailed(Reply(500, "timeout"));
    assert store.books == [];

    var working := new Uploader(payload => Uploaded("https://res.cloudinary.com/demo/image/upload/v1/dune.png"), id => true);
    r := store.Create(owner, req, working);
    assert r.Created? && r.book.user == owner;
    var book := r.book;
    assert store.books == [book];
    var d := store.Delete(other, book.id, working);
    assert d == Reply(401, UNAUTHORIZED);
    assert store.books == [book];
  }

  /** The owner's delete removes the book even when the image host refuses to destroy the image. */
  method DeleteDespiteDestroyFailure(owner: UserId) {
    var uploader := new Uploader(payload => Uploaded("https://res.cloudinary.com/demo/image/upload/v1/dune.png"), id => false);
    var store := new BookStore();
    var r := store.Create(owner, CreateRequest(Some("Dune"), Some("classic"), Some(4), Some("payload")), uploader);
    assert r.Created?;
    var d := store.Delete(owner, r.book.id, uploader);
    assert d == Reply(200, BOOK_DELETED);
    assert store.books == [];
  }
}
