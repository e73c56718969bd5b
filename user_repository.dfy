/**
 * The user store. The repository interface behind it is not part of this model; its lookups
 * are given the semantics their names and their uses in AuthService and PostService imply:
 * equality on the username, on the email, or on either.
 */
module UserRepo {
  import opened Wrappers
  import opened Seqs
  import opened Hasher

  datatype User = User(id: nat, username: string, email: string, passwordHash: PasswordHash)

  function HasUsername(username: string): User -> bool
  {
    (u: User) => u.username == username
  }

  function HasEmail(email: string): User -> bool
  {
    (u: User) => u.email == email
  }

  /** The identifier given at login names a user by username or by email. */
  predicate IdentifiedBy(u: User, usernameOrEmail: string)
  {
    u.username == usernameOrEmail || u.email == usernameOrEmail
  }

  function HasUsernameOrEmail(usernameOrEmail: string): User -> bool
  {
    (u: User) => IdentifiedBy(u, usernameOrEmail)
  }

  /** `existsByUsername`. */
  function ExistsByUsername(users: seq<User>, username: string): (r: bool)
    ensures r <==> exists i :: 0 <= i < |users| && users[i].username == username
  {
    AnyMatch(users, HasUsername(username))
  }

  /** `existsByEmail`. */
  function ExistsByEmail(users: seq<User>, email: string): (r: bool)
    ensures r <==> exists i :: 0 <= i < |users| && users[i].email == email
  {
    AnyMatch(users, HasEmail(email))
  }

  /** `findByUsername`: the user with that username, if any. */
  function FindByUsername(users: seq<User>, username: string): (r: Option<User>)
    ensures r.None? <==> !ExistsByUsername(users, username)
    ensures r.Some? ==> r.value in users && r.value.username == username
  {
    match FirstIndex(users, HasUsername(username))
    case None => None
    case Some(i) => Some(users[i])
  }

  /** `findByUsername` on a name that may be null: a null name finds nobody. */
  function FindRequester(users: seq<User>, username: Option<string>): (r: Option<User>)
    ensures r.Some? <==> username.Some? && ExistsByUsername(users, username.value)
    ensures r.Some? ==> r.value in users && r.value.username == username.value
  {
    if username.None? then None else FindByUsername(users, username.value)
  }

  /** The outcome of a lookup that must return at most one row. */
  datatype UserLookup = NoUser | OneUser(user: User) | SeveralUsers

  /**
   * `findByUsernameOrEmail`: the user the identifier names by username or by email. The
   * lookup returns a single optional row, so an identifier that names two users (one user's
   * username being another's email, say) makes it fail; that is `SeveralUsers`.
   */
  function FindByUsernameOrEmail(users: seq<User>, usernameOrEmail: string): (r: UserLookup)
    ensures r == NoUser <==> forall i :: 0 <= i < |users| ==> !IdentifiedBy(users[i], usernameOrEmail)
    ensures r == SeveralUsers <==>
      exists i, j :: 0 <= i < j < |users| && IdentifiedBy(users[i], usernameOrEmail) && IdentifiedBy(users[j], usernameOrEmail)
    ensures r.OneUser? ==> exists i :: && 0 <= i < |users| && users[i] == r.user
                                     && IdentifiedBy(users[i], usernameOrEmail)
                                     && forall j :: 0 <= j < |users| && j != i ==> !IdentifiedBy(users[j], usernameOrEmail)
  {
    match FirstIndex(users, HasUsernameOrEmail(usernameOrEmail))
    case None => NoUser
    case Some(i) =>
      SecondMatch(users, usernameOrEmail, i);
      if AnyMatch(users[i + 1..], HasUsernameOrEmail(usernameOrEmail)) then SeveralUsers else OneUser(users[i])
  }

  /** A second user is named exactly when one is named after the first named user `i`. */
  lemma SecondMatch(users: seq<User>, usernameOrEmail: string, i: nat)
    requires i < |users| && IdentifiedBy(users[i], usernameOrEmail)
    requires forall j :: 0 <= j < i ==> !IdentifiedBy(users[j], usernameOrEmail)
    ensures AnyMatch(users[i + 1..], HasUsernameOrEmail(usernameOrEmail)) <==>
      exists a, b :: 0 <= a < b < |users| && IdentifiedBy(users[a], usernameOrEmail) && IdentifiedBy(users[b], usernameOrEmail)
    ensures !AnyMatch(users[i + 1..], HasUsernameOrEmail(usernameOrEmail)) ==>
      forall j :: 0 <= j < |users| && j != i ==> !IdentifiedBy(users[j], usernameOrEmail)
  {
    var rest := users[i + 1..];
    var test := HasUsernameOrEmail(usernameOrEmail);
    if AnyMatch(rest, test) {
      var k :| 0 <= k < |rest| && test(rest[k]);
      assert users[i + 1 + k] == rest[k];
    } else {
      forall j | i < j < |users|
        ensures !IdentifiedBy(users[j], usernameOrEmail)
      {
        assert users[j] == rest[j - i - 1];
      }
    }
  }

  /**
   * Unique usernames and unique emails do not make the login identifier unique: here "bob"
   * is the first user's email and the second user's username.
   */
  lemma CrossFieldIdentifierIsAmbiguous(h0: PasswordHash, h1: PasswordHash)
    ensures var users := [User(0, "alice", "bob", h0), User(1, "bob", "b@x", h1)];
      UniqueAccounts(users) && FindByUsernameOrEmail(users, "bob") == SeveralUsers
  {
    var users := [User(0, "alice", "bob", h0), User(1, "bob", "b@x", h1)];
    assert IdentifiedBy(users[0], "bob") && IdentifiedBy(users[1], "bob");
  }

  /** No two users share a username, and no two share an email. */
  ghost predicate UniqueAccounts(users: seq<User>)
  {
    forall i, j :: 0 <= i < j < |users| ==>
      users[i].username != users[j].username && users[i].email != users[j].email
  }

  /** With unique usernames, looking a user up by their own username finds that user. */
  lemma FindByOwnUsername(users: seq<User>, i: nat)
    requires UniqueAccounts(users) && i < |users|
    ensures FindByUsername(users, users[i].username) == Some(users[i])
  {
    assert HasUsername(users[i].username)(users[i]);
  }

  class UserRepository {
    /** The rows, in insertion order; a user's id is its position. */
    var records: seq<User>

    ghost predicate Valid()
      reads this
    {
      forall i :: 0 <= i < |records| ==> records[i].id == i
    }

    constructor ()
      ensures Valid() && records == []
    {
      records := [];
    }

    /** `save` of a new user: the store generates the id. */
    method SaveNew(username: string, email: string, passwordHash: PasswordHash) returns (u: User)
      requires Valid()
      modifies this
      ensures Valid()
      ensures u == User(|old(records)|, username, email, passwordHash)
      ensures records == old(records) + [u]
    {
      u := User(|records|, username, email, passwordHash);
      records := records + [u];
    }

    /** `save` of a user already stored: the row with that id is replaced. */
    method Save(u: User)
      requires Valid() && u.id < |records|
      modifies this
      ensures Valid()
      ensures records == old(records)[u.id := u]
    {
      records := records[u.id := u];
    }
  }
}
