/**
 * The auth orchestrator: registration, login and password change over the user store and the
 * password-history store.
 *
 * Its object invariant is the history discipline the service keeps: every history entry
 * belongs to a registered user, and every registered user has between one and three entries,
 * the newest of which holds the user's current hash.
 */
module AuthServices {
  import opened Wrappers
  import opened Seqs
  import opened Hasher
  import opened UserRepo
  import opened PasswordHistoryRepo
  import opened PasswordServices

  datatype AuthError = UsernameTaken | EmailInUse | UserNotFound | IncorrectCurrentPassword | PasswordReused

  /** The message each failure carries: a sentence ending in an exclamation mark. */
  function Message(e: AuthError): (r: string)
    ensures |r| > 0 && r[|r| - 1] == '!'
  {
    match e
    case UsernameTaken => "Username is already taken!"
    case EmailInUse => "Email is already in use!"
    case UserNotFound => "User not found!"
    case IncorrectCurrentPassword => "Current password is incorrect!"
    case PasswordReused => "New password cannot be the same as any of your last 3 passwords!"
  }

  /** Different failures carry different messages, so a client can tell them apart. */
  lemma MessagesDistinct(a: AuthError, b: AuthError)
    ensures Message(a) == Message(b) <==> a == b
  {
  }

  /** The history of `user` holds one to three entries, the newest with the current hash. */
  ghost predicate HistoryOfUser(user: User, entries: seq<PasswordHistory>)
  {
    var recent := FindByUserIdOrderByCreatedAtDesc(entries, user.id);
    1 <= |recent| <= 3 && recent[0].passwordHash == user.passwordHash
  }

  ghost predicate HistoryTracksUsers(users: seq<User>, entries: seq<PasswordHistory>)
  {
    && (forall e :: e in entries ==> e.userId < |users|)
    && forall u :: 0 <= u < |users| ==> HistoryOfUser(users[u], entries)
  }

  /**
   * The stores after `user`'s password is changed to `newHash` with history stamp `clock`:
   * only that user's record changes, the new hash heads the user's one to three history
   * entries, the user keeps the last three of their entries, and no other history changes.
   */
  ghost predicate PasswordChanged(users: seq<User>, entries: seq<PasswordHistory>, clock: nat, user: User,
                                  newHash: PasswordHash, users': seq<User>, entries': seq<PasswordHistory>)
  {
    var e := PasswordHistory(clock, user.id, newHash, clock);
    && user.id < |users|
    && users' == users[user.id := user.(passwordHash := newHash)]
    && entries' == SaveAndTrim(entries, e)
    && 1 <= |FindByUserIdOrderByCreatedAtDesc(entries', user.id)| <= 3
    && FindByUserIdOrderByCreatedAtDesc(entries', user.id)[0] == e
    && OfUser(entries', user.id) == KeepLast(OfUser(entries, user.id) + [e], 3)
    && forall v :: v != user.id ==> OfUser(entries', v) == OfUser(entries, v)
  }

  class AuthService {
    const userRepository: UserRepository
    const passwordHistoryRepository: PasswordHistoryRepository
    const passwordEncoder: PasswordEncoder

    ghost predicate Valid()
      reads this, userRepository, passwordHistoryRepository
    {
      && userRepository.Valid()
      && passwordHistoryRepository.Valid()
      && passwordEncoder.Valid()
      && UniqueAccounts(userRepository.records)
      && HistoryTracksUsers(userRepository.records, passwordHistoryRepository.entries)
    }

    constructor (users: UserRepository, history: PasswordHistoryRepository, encoder: PasswordEncoder)
      requires users.Valid() && history.Valid() && encoder.Valid()
      requires UniqueAccounts(users.records) && HistoryTracksUsers(users.records, history.entries)
      ensures Valid()
      ensures userRepository == users && passwordHistoryRepository == history && passwordEncoder == encoder
    {
      userRepository := users;
      passwordHistoryRepository := history;
      passwordEncoder := encoder;
    }

    /**
     * `registerUser`: a taken username fails first, then an email in use; nothing is stored
     * on failure. Otherwise one user is added whose hash matches the password, and one
     * history entry with that hash is appended for them.
     */
    method RegisterUser(username: string, email: string, password: string) returns (r: Result<string, AuthError>)
      requires Valid()
      modifies userRepository, passwordHistoryRepository, passwordEncoder
      ensures Valid()
      ensures ExistsByUsername(old(userRepository.records), username) ==> r == Failure(UsernameTaken)
      ensures !ExistsByUsername(old(userRepository.records), username) && ExistsByEmail(old(userRepository.records), email) ==>
        r == Failure(EmailInUse)
      ensures r.Success? <==> !ExistsByUsername(old(userRepository.records), username) && !ExistsByEmail(old(userRepository.records), email)
      ensures r.Failure? ==> unchanged(userRepository, passwordHistoryRepository, passwordEncoder)
      ensures r.Success? ==>
        var n := |old(userRepository.records)|;
        var u := User(n, username, email, PasswordHash(old(passwordEncoder.nextSalt), password));
        && r.value == username
        && passwordEncoder.Matches(password, u.passwordHash)
        && userRepository.records == old(userRepository.records) + [u]
        && passwordHistoryRepository.entries == old(passwordHistoryRepository.entries)
             + [PasswordHistory(old(passwordHistoryRepository.clock), n, u.passwordHash, old(passwordHistoryRepository.clock))]
    {
      if ExistsByUsername(userRepository.records, username) {
        return Failure(UsernameTaken);
      }
      if ExistsByEmail(userRepository.records, email) {
        return Failure(EmailInUse);
      }
      ghost var users, entries := userRepository.records, passwordHistoryRepository.entries;
      var passwordHash := passwordEncoder.Encode(password);
      var user := userRepository.SaveNew(username, email, passwordHash);
      var e := passwordHistoryRepository.Save(user.id, user.passwordHash);
      RegisteredHistory(users, entries, user, e);
      RegisteredAccounts(users, user);
      r := Success(username);
    }

    /**
     * `authenticateUser`: whether the one user the identifier names has a hash the password
     * matches. `None` is the failure of the single-row lookup when the identifier names two
     * users; it propagates out of the service (the login endpoint answers it as unauthorized).
     */
    function AuthenticateUser(usernameOrEmail: string, password: string): (r: Option<bool>)
      reads this, userRepository
      ensures r.None? <==> exists i, j :: && 0 <= i < j < |userRepository.records|
                                         && IdentifiedBy(userRepository.records[i], usernameOrEmail)
                                         && IdentifiedBy(userRepository.records[j], usernameOrEmail)
      ensures (forall i :: 0 <= i < |userRepository.records| ==> !IdentifiedBy(userRepository.records[i], usernameOrEmail)) ==>
        r == Some(false)
      ensures r == Some(true) ==> exists i :: && 0 <= i < |userRepository.records|
                                             && IdentifiedBy(userRepository.records[i], usernameOrEmail)
                                             && passwordEncoder.Matches(password, userRepository.records[i].passwordHash)
      ensures forall i :: 0 <= i < |userRepository.records| && IdentifiedBy(userRepository.records[i], usernameOrEmail)
                          && (forall j :: 0 <= j < |userRepository.records| && j != i ==> !IdentifiedBy(userRepository.records[j], usernameOrEmail))
                          ==> r == Some(passwordEncoder.Matches(password, userRepository.records[i].passwordHash))
    {
      match FindByUsernameOrEmail(userRepository.records, usernameOrEmail)
      case NoUser => Some(false)
      case SeveralUsers => None
      case OneUser(user) => Some(passwordEncoder.Matches(password, user.passwordHash))
    }

    /**
     * Logging in with a username that is no user's email checks the password against that
     * user's hash: usernames are unique, so nobody else is named.
     */
    lemma LoginByUsername(u: nat, password: string)
      requires Valid() && u < |userRepository.records|
      requires forall j :: 0 <= j < |userRepository.records| ==>
        userRepository.records[j].email != userRepository.records[u].username
      ensures AuthenticateUser(userRepository.records[u].username, password)
        == Some(passwordEncoder.Matches(password, userRepository.records[u].passwordHash))
    {
      var users := userRepository.records;
      forall j | 0 <= j < |users| && j != u
        ensures !IdentifiedBy(users[j], users[u].username)
      {
        assert users[j].username != users[u].username;
      }
      assert IdentifiedBy(users[u], users[u].username);
    }

    /**
     * `changePassword`: the user must exist and the current password must match; the new
     * password must match no entry the history query returns. On success the user's hash is
     * replaced, the new hash becomes the user's newest history entry, only the three newest
     * entries are kept, and no other user's record or history changes.
     */
    method ChangePassword(username: string, oldPassword: string, newPassword: string) returns (r: Result<bool, AuthError>)
      requires Valid()
      modifies userRepository, passwordHistoryRepository, passwordEncoder
      ensures Valid()
      ensures r.Success? ==> r.value
      ensures r == Failure(UserNotFound) <==> !ExistsByUsername(old(userRepository.records), username)
      ensures r == Failure(UserNotFound) || r == Failure(IncorrectCurrentPassword) ==>
        unchanged(userRepository, passwordHistoryRepository, passwordEncoder)
      ensures r == Failure(PasswordReused) ==> unchanged(userRepository, passwordHistoryRepository)
      ensures ExistsByUsername(old(userRepository.records), username) ==>
        var user := FindByUsername(old(userRepository.records), username).value;
        var history := FindByUserIdOrderByCreatedAtDesc(old(passwordHistoryRepository.entries), user.id);
        && (r == Failure(IncorrectCurrentPassword) <==> !passwordEncoder.Matches(oldPassword, user.passwordHash))
        && (r == Failure(PasswordReused) <==>
              passwordEncoder.Matches(oldPassword, user.passwordHash) && MatchesAny(passwordEncoder, history, newPassword))
        && (r.Success? <==>
              passwordEncoder.Matches(oldPassword, user.passwordHash) && !MatchesAny(passwordEncoder, history, newPassword))
      ensures r.Success? ==>
        var user := FindByUsername(old(userRepository.records), username).value;
        var newHash := PasswordHash(old(passwordEncoder.nextSalt), newPassword);
        && passwordEncoder.Matches(newPassword, newHash)
        && PasswordChanged(old(userRepository.records), old(passwordHistoryRepository.entries), old(passwordHistoryRepository.clock),
                           user, newHash, userRepository.records, passwordHistoryRepository.entries)
    {
      var userOpt := FindByUsername(userRepository.records, username);
      if userOpt.None? {
        return Failure(UserNotFound);
      }
      var user := userOpt.value;
      if !passwordEncoder.Matches(oldPassword, user.passwordHash) {
        return Failure(IncorrectCurrentPassword);
      }

      var lastThreePasswords := FindRecentPasswordsByUserIdWithLimit(passwordHistoryRepository.entries, user.id, 3);
      var newPasswordHash := passwordEncoder.Encode(newPassword);
      var reused := MatchesSomeEntry(newPassword, lastThreePasswords);
      if reused {
        return Failure(PasswordReused);
      }

      CommitPasswordChange(user, newPasswordHash);
      return Success(true);
    }

    /** The reuse loop of `changePassword`: does the password match any of the listed hashes? */
    method MatchesSomeEntry(password: string, entries: seq<PasswordHistory>) returns (found: bool)
      ensures found <==> MatchesAny(passwordEncoder, entries, password)
    {
      for i := 0 to |entries|
        invariant forall k :: 0 <= k < i ==> !passwordEncoder.Matches(password, entries[k].passwordHash)
      {
        if passwordEncoder.Matches(password, entries[i].passwordHash) {
          return true;
        }
      }
      return false;
    }

    /**
     * The last steps of `changePassword`: store the new hash on the user's record, append it
     * to the history, re-read the history newest first and delete everything past the third.
     */
    method CommitPasswordChange(user: User, newPasswordHash: PasswordHash)
      requires Valid() && user in userRepository.records
      modifies userRepository, passwordHistoryRepository
      ensures Valid()
      ensures PasswordChanged(old(userRepository.records), old(passwordHistoryRepository.entries), old(passwordHistoryRepository.clock),
                              user, newPasswordHash, userRepository.records, passwordHistoryRepository.entries)
    {
      ghost var users, entries := userRepository.records, passwordHistoryRepository.entries;
      var updated := user.(passwordHash := newPasswordHash);
      userRepository.Save(updated);
      var e := passwordHistoryRepository.Save(user.id, newPasswordHash);
      var allPasswords := FindByUserIdOrderByCreatedAtDesc(passwordHistoryRepository.entries, user.id);
      if |allPasswords| > 3 {
        passwordHistoryRepository.DeleteAll(allPasswords[3..]);
      }
      CommittedHistory(users, entries, updated, e, passwordHistoryRepository.entries);
    }

    /**
     * What the history update of a password change achieves, on values: the trimmed store
     * keeps the discipline, heads the user's list with the new entry, and leaves other users alone.
     */
    static lemma CommittedHistory(users: seq<User>, entries: seq<PasswordHistory>, updated: User,
                                  e: PasswordHistory, entries': seq<PasswordHistory>)
      requires UniqueAccounts(users) && HistoryTracksUsers(users, entries) && Chronological(entries)
      requires forall x :: x in entries ==> x.createdAt < e.createdAt
      requires forall u :: 0 <= u < |users| ==> users[u].id == u
      requires updated.id < |users| && e.userId == updated.id && e.passwordHash == updated.passwordHash
      requires users[updated.id].username == updated.username && users[updated.id].email == updated.email
      requires entries' == SaveAndTrim(entries, e)
      ensures UniqueAccounts(users[updated.id := updated])
      ensures HistoryTracksUsers(users[updated.id := updated], entries')
      ensures 1 <= |FindByUserIdOrderByCreatedAtDesc(entries', updated.id)| <= 3
      ensures FindByUserIdOrderByCreatedAtDesc(entries', updated.id)[0] == e
      ensures OfUser(entries', updated.id) == KeepLast(OfUser(entries, updated.id) + [e], 3)
      ensures forall v :: v != updated.id ==> OfUser(entries', v) == OfUser(entries, v)
    {
      SaveAndTrimSpec(entries, e);
      SaveAndTrimBounds(entries, e);
      ChangedHistory(users, entries, updated, e, entries');
      SameAccounts(users, updated);
    }

    /** In a valid service no user's history query returns more than three entries. */
    lemma HistoryBounded(userId: nat)
      requires Valid() && userId < |userRepository.records|
      ensures 1 <= CountByUserId(passwordHistoryRepository.entries, userId) <= 3
    {
      assert HistoryOfUser(userRepository.records[userId], passwordHistoryRepository.entries);
    }

    /**
     * The current password is always among those the reuse check rejects: the user's newest
     * history entry holds the current hash, so a change to the same password fails.
     */
    lemma CurrentPasswordIsReused(username: string, password: string)
      requires Valid()
      requires FindByUsername(userRepository.records, username).Some?
      requires passwordEncoder.Matches(password, FindByUsername(userRepository.records, username).value.passwordHash)
      ensures var user := FindByUsername(userRepository.records, username).value;
        MatchesAny(passwordEncoder, FindByUserIdOrderByCreatedAtDesc(passwordHistoryRepository.entries, user.id), password)
    {
      var user := FindByUsername(userRepository.records, username).value;
      var i :| 0 <= i < |userRepository.records| && userRepository.records[i] == user;
      assert HistoryOfUser(userRepository.records[i], passwordHistoryRepository.entries);
    }

    /** The history discipline survives registration of a fresh user. */
    static lemma RegisteredHistory(users: seq<User>, entries: seq<PasswordHistory>, user: User, e: PasswordHistory)
      requires HistoryTracksUsers(users, entries)
      requires user.id == |users| && e.userId == user.id && e.passwordHash == user.passwordHash
      ensures HistoryTracksUsers(users + [user], entries + [e])
    {
      NewUserHistory(users, entries, user, e);
      assert (users + [user])[|users|] == user;
      forall u | 0 <= u < |users|
        ensures HistoryOfUser((users + [user])[u], entries + [e])
      {
        assert (users + [user])[u] == users[u];
        RegisteredKeepsHistory(users, entries, u, e);
      }
    }

    /** The registered user's history is the one entry appended for them. */
    static lemma NewUserHistory(users: seq<User>, entries: seq<PasswordHistory>, user: User, e: PasswordHistory)
      requires forall x :: x in entries ==> x.userId < |users|
      requires user.id == |users| && e.userId == user.id && e.passwordHash == user.passwordHash
      ensures HistoryOfUser(user, entries + [e])
    {
      FilterNone(entries, OwnedBy(user.id));
      FilterAppend(entries, e, OwnedBy(user.id));
    }

    /**
     * An entry for a newly registered user leaves an existing user's history as it was: the
     * existing user owns an entry, so their id is below `|users|` and differs from the new one.
     */
    static lemma RegisteredKeepsHistory(users: seq<User>, entries: seq<PasswordHistory>, u: nat, e: PasswordHistory)
      requires HistoryTracksUsers(users, entries) && u < |users| && e.userId == |users|
      ensures HistoryOfUser(users[u], entries + [e])
    {
      var recent := FindByUserIdOrderByCreatedAtDesc(entries, users[u].id);
      assert HistoryOfUser(users[u], entries);
      assert recent[0] in recent;
      assert users[u].id < |users|;
      FilterAppend(entries, e, OwnedBy(users[u].id));
    }

    /**
     * The history discipline survives a password change whose history update kept the
     * user's newest-first list at one to three entries headed by the new entry, and left
     * every other user's entries alone.
     */
    static lemma ChangedHistory(users: seq<User>, entries: seq<PasswordHistory>, updated: User,
                                e: PasswordHistory, entries': seq<PasswordHistory>)
      requires HistoryTracksUsers(users, entries)
      requires updated.id < |users| && e.userId == updated.id && e.passwordHash == updated.passwordHash
      requires forall u :: 0 <= u < |users| ==> users[u].id == u
      requires forall x :: x in entries' ==> x in entries || x == e
      requires var recent := FindByUserIdOrderByCreatedAtDesc(entries', updated.id); 1 <= |recent| <= 3 && recent[0] == e
      requires forall v :: v != updated.id ==> OfUser(entries', v) == OfUser(entries, v)
      ensures HistoryTracksUsers(users[updated.id := updated], entries')
    {
      var users' := users[updated.id := updated];
      forall x | x in entries'
        ensures x.userId < |users'|
      {
        assert x in entries || x == e;
      }
      forall u | 0 <= u < |users'|
        ensures HistoryOfUser(users'[u], entries')
      {
        if u == updated.id {
          assert users'[u] == updated;
          NewestIsCurrent(updated, entries', e);
        } else {
          assert users'[u] == users[u] && users[u].id == u;
          SameHistory(users[u], entries, entries');
        }
      }
    }

    /** Adding a user whose username and email are both new keeps accounts unique. */
    static lemma RegisteredAccounts(users: seq<User>, user: User)
      requires UniqueAccounts(users)
      requires !ExistsByUsername(users, user.username) && !ExistsByEmail(users, user.email)
      ensures UniqueAccounts(users + [user])
    {
    }

    /** Changing a user's hash keeps usernames and emails unique. */
    static lemma SameAccounts(users: seq<User>, updated: User)
      requires UniqueAccounts(users) && updated.id < |users|
      requires users[updated.id].username == updated.username && users[updated.id].email == updated.email
      ensures UniqueAccounts(users[updated.id := updated])
    {
    }

    static lemma NewestIsCurrent(user: User, entries: seq<PasswordHistory>, e: PasswordHistory)
      requires e.passwordHash == user.passwordHash && e.userId == user.id
      requires var recent := FindByUserIdOrderByCreatedAtDesc(entries, user.id); 1 <= |recent| <= 3 && recent[0] == e
      ensures HistoryOfUser(user, entries)
    {
    }

    static lemma SameHistory(user: User, entries: seq<PasswordHistory>, entries': seq<PasswordHistory>)
      requires HistoryOfUser(user, entries) && OfUser(entries', user.id) == OfUser(entries, user.id)
      ensures HistoryOfUser(user, entries')
    {
    }
  }
}
