/**
 * The user collection as the route handlers see it. The User schema itself is not part of
 * this model; what the handlers read and write of a user document is its id, username,
 * email, stored password credential and profile image.
 */
module Users {
  import opened Wrappers

  /** A document id; ownership and lookups compare ids by value. */
  type UserId = nat

  /**
   * A user document. `password` is the credential as handed to the store; hashing it and
   * comparing against it happen in the schema, which stays abstract here.
   */
  datatype User = User(id: UserId, username: string, email: string, password: string, profileImage: string)

  /** The user without its password: the `.select("-password")` projection and the `user` of auth replies. */
  datatype PublicUser = PublicUser(id: UserId, username: string, email: string, profileImage: string)

  function Public(u: User): PublicUser {
    PublicUser(u.id, u.username, u.email, u.profileImage)
  }

  /** The filters the handlers pass to `findOne`. */
  datatype Filter = ByEmail(email: string) | ByUsername(username: string) | ById(id: UserId)

  predicate Matches(u: User, f: Filter) {
    match f
    case ByEmail(e) => u.email == e
    case ByUsername(n) => u.username == n
    case ById(i) => u.id == i
  }

  /** `User.findOne(filter)`: the first matching document in storage order, if any. */
  function FindOne(users: seq<User>, f: Filter): (r: Option<User>)
    ensures r.Some? ==> r.value in users && Matches(r.value, f)
    ensures r.None? <==> forall u :: u in users ==> !Matches(u, f)
    decreases |users|
  {
    if users == [] then None
    else if Matches(users[0], f) then Some(users[0])
    else FindOne(users[1..], f)
  }

  /** Ids, emails and usernames are each unique across the collection. */
  ghost predicate Unique(users: seq<User>) {
    forall i, j :: 0 <= i < j < |users| ==>
      users[i].id != users[j].id && users[i].email != users[j].email && users[i].username != users[j].username
  }

  /** In a collection with unique keys, findOne by a user's own key finds that user. */
  lemma {:induction false} FindOneFindsUnique(users: seq<User>, k: nat, f: Filter)
    requires Unique(users)
    requires k < |users|
    requires f == ByEmail(users[k].email) || f == ByUsername(users[k].username) || f == ById(users[k].id)
    ensures FindOne(users, f) == Some(users[k])
    decreases |users|
  {
    if k > 0 {
      assert !Matches(users[0], f);
      assert Unique(users[1..]) by {
        forall i, j | 0 <= i < j < |users[1..]|
          ensures users[1..][i].id != users[1..][j].id
        {
          assert users[1..][i] == users[i + 1] && users[1..][j] == users[j + 1];
        }
      }
      FindOneFindsUnique(users[1..], k - 1, f);
    }
  }
}
