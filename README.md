# Nutz backend core in Dafny

This project models the service layer of the Nutz social-posting backend, together with the
queries the services run against their repositories:

- **AuthService**: registration, login and password change, with a password history that
  keeps each user's three most recent hashes and rejects reuse.
- **PasswordService**: hashing, verification, the reuse check, history maintenance and the
  password-strength policy.
- **PostService**: public, personal and visible feeds, lookup, the access rule, and ownership-
  guarded create / update / delete.
- **PostRepository** and **PasswordHistoryRepository**: the declared queries (filters, ordering,
  top-3, counts, deletes).

Repositories are classes whose rows are a `seq` field in insertion order. In the post and
password-history stores a monotone counter (`clock`) stamps each saved row with its id and its
`createdAt`, so every "ORDER BY createdAt DESC" query is the filtered store, reversed. In the
user store a user's id is its position, and users carry no timestamps. Services are classes holding
the repositories and the encoder, and each one has an object invariant `Valid()`:

- `AuthService.Valid()`: usernames and emails are unique, every history entry belongs to a
  registered user, and every user has one to three history entries, the newest holding the
  user's current hash.
- `PostService.Valid()`: every post belongs to a registered user.
- Repository invariants: rows are chronological; post ids are increasing and therefore unique.

The password encoder (`Hasher.PasswordEncoder`) stands in for BCrypt:

- `Encode` stores the raw secret with a fresh salt taken from a counter.
- `Matches` is an arbitrary relation `sameSecret` between the raw password and the stored
  secret. The only assumption made about it is that it is reflexive: a password matches its
  own hash.
- Results that need injectivity (a different password never matches) take `Exact()` as an
  explicit hypothesis, which is `ExactMatchesOnlyOwnPassword`.

Files:

- `wrappers.dfy`: Option and Result.
- `seqs.dfy`: generic filter, reverse, first-index and take, with their lemmas.
- `hasher.dfy`: the encoder described above.
- `user_repository.dfy`, `password_history_repository.dfy`, `post_repository.dfy`: the
  repositories.
- `password_service.dfy`, `auth_service.dfy`, `post_service.dfy`: the services.

Three behaviours of the Java code the model keeps:

- `findRecentPasswordsByUserIdWithLimit` ignores its `limit` argument. Its query has no LIMIT,
  so the model returns the full newest-first history. Under the service invariant that history
  never holds more than three entries (`AuthServices.AuthService.HistoryBounded`), and
  `PasswordServices.PasswordService.ReuseChecksAgree` shows that the two reuse checks then agree.
- `changePassword` encodes the new password before the reuse loop, so the encoder's salt counter
  also advances on a `PasswordReused` failure.
- The history holds the current hash as its newest entry. "The last 3 passwords" therefore means
  the current password plus the two before it (`AuthServices.AuthService.CurrentPasswordIsReused`).

Login looks a user up by one identifier that may be a username or an email. Usernames are unique
and emails are unique, but registration never compares one user's username with another's email,
so an identifier can name two users (`UserRepo.CrossFieldIdentifierIsAmbiguous`). The lookup
returns a single optional row, so in that case it fails; the model returns `SeveralUsers` from
the lookup and `None` from `AuthenticateUser`.

## Model

| member | source | states |
|---|---|---|
| Hasher.PasswordEncoder.Encode | Backend/src/main/java/com/example/demo/service/AuthService.java:43 | the new hash matches the raw password; each call draws a fresh salt |
| Hasher.PasswordEncoder.Matches | Backend/src/main/java/com/example/demo/service/AuthService.java:67 | a hash made from the password always matches it; under the injectivity assumption only such a hash does |
| Hasher.PasswordEncoder.ExactMatchesOnlyOwnPassword | Backend/src/main/java/com/example/demo/service/AuthService.java:67 | for an injective encoder, a hash matches exactly the password it was made from |
| UserRepo.ExistsByUsername | Backend/src/main/java/com/example/demo/service/AuthService.java:30 | true exactly when some stored user has that username |
| UserRepo.ExistsByEmail | Backend/src/main/java/com/example/demo/service/AuthService.java:35 | true exactly when some stored user has that email |
| UserRepo.FindByUsername | Backend/src/main/java/com/example/demo/service/AuthService.java:71-72 | empty exactly when no user has the name; otherwise a stored user with that name |
| UserRepo.FindRequester | Backend/src/main/java/com/example/demo/service/PostService.java:125-132 | a user exactly when a name is given and registered; that user carries the name |
| UserRepo.FindByUsernameOrEmail | Backend/src/main/java/com/example/demo/service/AuthService.java:60-61 | no result exactly when no user has the identifier as username or email; a failure exactly when two users do; otherwise the one user it names |
| UserRepo.CrossFieldIdentifierIsAmbiguous | Backend/src/main/java/com/example/demo/service/AuthService.java:30-37 | unique usernames and unique emails still let one identifier name two users, and the lookup then fails |
| UserRepo.FindByOwnUsername | Backend/src/main/java/com/example/demo/service/AuthService.java:71 | with unique usernames, looking a user up by their own name returns that user |
| UserRepo.UserRepository.SaveNew | Backend/src/main/java/com/example/demo/service/AuthService.java:40-47 | appends the user with the next id and keeps ids equal to positions |
| UserRepo.UserRepository.Save | Backend/src/main/java/com/example/demo/service/AuthService.java:96-98 | replaces the stored user with the same id and leaves every other user unchanged |
| PasswordHistoryRepo.OfUser | Backend/src/main/java/com/example/demo/repository/PasswordHistoryRepository.java:22 | exactly the entries of one user, oldest first |
| PasswordHistoryRepo.FindByUserIdOrderByCreatedAtDesc | Backend/src/main/java/com/example/demo/repository/PasswordHistoryRepository.java:19-22 | exactly the entries of one user, as many as the user has |
| PasswordHistoryRepo.HistoryNewestFirst | Backend/src/main/java/com/example/demo/repository/PasswordHistoryRepository.java:19-22 | in a chronological store the per-user listing is strictly newest first |
| PasswordHistoryRepo.FindTop3ByUserIdOrderByCreatedAtDesc | Backend/src/main/java/com/example/demo/repository/PasswordHistoryRepository.java:14-17 | at most three entries and a prefix of the newest-first listing; the whole listing when it is shorter |
| PasswordHistoryRepo.FindRecentPasswordsByUserIdWithLimit | Backend/src/main/java/com/example/demo/repository/PasswordHistoryRepository.java:34-38 | the full newest-first listing whatever the limit, because the query has no LIMIT |
| PasswordHistoryRepo.CountByUserId | Backend/src/main/java/com/example/demo/repository/PasswordHistoryRepository.java:24-27 | the length of the user's listing |
| PasswordHistoryRepo.WithoutUser | Backend/src/main/java/com/example/demo/repository/PasswordHistoryRepository.java:29-32 | exactly the entries of the other users remain |
| PasswordHistoryRepo.DeleteByUserIdSpec | Backend/src/main/java/com/example/demo/repository/PasswordHistoryRepository.java:29-32 | after the delete the user has no entries and every other user's history is unchanged |
| PasswordHistoryRepo.SavedChronological | Backend/src/main/java/com/example/demo/service/AuthService.java:101-105 | appending an entry stamped later than all others keeps the store chronological |
| PasswordHistoryRepo.TrimKeepsThreeNewest | Backend/src/main/java/com/example/demo/service/AuthService.java:107-114 | deleting the listing past its third element leaves the user's three newest entries and no other user's entry changes |
| PasswordHistoryRepo.SaveAndTrim | Backend/src/main/java/com/example/demo/service/AuthService.java:100-114 | the store after the append and trim holds only old entries and the new one, and keeps every entry of the other users |
| PasswordHistoryRepo.SaveAndTrimSpec | Backend/src/main/java/com/example/demo/service/PasswordService.java:47-62 | save then trim keeps the store chronological, leaves the user's last three entries including the new one, changes no other user, and adds nothing but the new entry |
| PasswordHistoryRepo.SaveAndTrimBounds | Backend/src/main/java/com/example/demo/service/PasswordService.java:54-61 | afterwards the user has one to three entries, the newest is the new one, and the count is the old count plus one, capped at three |
| PasswordHistoryRepo.SaveWithoutEviction | Backend/src/main/java/com/example/demo/service/PasswordService.java:58 | with at most two entries before the save nothing is deleted and the count grows by one |
| PasswordHistoryRepo.PasswordHistoryRepository.Save | Backend/src/main/java/com/example/demo/service/AuthService.java:50-54 | appends the entry with the next stamp and keeps the store chronological |
| PasswordHistoryRepo.PasswordHistoryRepository.DeleteAll | Backend/src/main/java/com/example/demo/service/AuthService.java:113 | removes exactly the given entries and keeps the store chronological |
| PasswordHistoryRepo.PasswordHistoryRepository.DeleteByUserId | Backend/src/main/java/com/example/demo/repository/PasswordHistoryRepository.java:32 | removes exactly the user's entries |
| PostRepo.FindPublicPosts | Backend/src/main/java/com/example/demo/repository/PostRepository.java:16-18 | exactly the public posts |
| PostRepo.FindByUserId | Backend/src/main/java/com/example/demo/repository/PostRepository.java:20-22 | exactly the user's posts, public and private |
| PostRepo.FindVisibleToUser | Backend/src/main/java/com/example/demo/repository/PostRepository.java:24-26 | exactly the posts that are public or the user's own; contains both other listings |
| PostRepo.ListingsNewestFirst | Backend/src/main/java/com/example/demo/repository/PostRepository.java:17-26 | in a chronological store all three listings are strictly newest first |
| PostRepo.FindById | Backend/src/main/java/com/example/demo/service/PostService.java:53-55 | empty exactly when no post has the id; otherwise a stored post with that id |
| PostRepo.FindByIdAndUserId | Backend/src/main/java/com/example/demo/repository/PostRepository.java:28-29 | empty exactly when no post has that id and that owner; otherwise such a post |
| PostRepo.FindByIdAndUserIdIsOwnedLookup | Backend/src/main/java/com/example/demo/repository/PostRepository.java:28-29 | with unique ids the owner-qualified lookup equals the plain lookup when the post is owned by that user, and is empty otherwise |
| PostRepo.CountByUserId | Backend/src/main/java/com/example/demo/repository/PostRepository.java:31-32 | the number of the user's posts |
| PostRepo.Replaced | Backend/src/main/java/com/example/demo/service/PostService.java:93 | the row with the saved post's id becomes that post; every other row is kept in place |
| PostRepo.WithoutPost | Backend/src/main/java/com/example/demo/service/PostService.java:108 | exactly the posts with another id remain |
| PostRepo.ReplacedSpec | Backend/src/main/java/com/example/demo/service/PostService.java:93 | after the replacement the lookup by id finds the saved post, and every other post is still stored |
| PostRepo.ReplacedKeepsStamps | Backend/src/main/java/com/example/demo/service/PostService.java:93 | replacing a stored post by one with the same id and creation stamp keeps the store chronological, its ids increasing and its stamps below the clock |
| PostRepo.PostRepository.ValidIdsUnique | Backend/src/main/java/com/example/demo/repository/PostRepository.java:14 | no two stored posts share an id |
| PostRepo.PostRepository.SaveNew | Backend/src/main/java/com/example/demo/service/PostService.java:63-70 | appends a post with the next id and stamp and keeps the store's order |
| PostRepo.PostRepository.Save | Backend/src/main/java/com/example/demo/service/PostService.java:93 | replaces the stored post with the same id and keeps the store's order |
| PostRepo.PostRepository.Delete | Backend/src/main/java/com/example/demo/service/PostService.java:108 | removes the post with that id and keeps the store's order |
| PasswordServices.IsPasswordStrong | Backend/src/main/java/com/example/demo/service/PasswordService.java:64-78 | true exactly for a non-null password of length at least 8 with a lower-case letter, an upper-case letter, a digit and a listed special character |
| PasswordServices.StrongExamples | Backend/src/main/java/com/example/demo/service/PasswordService.java:67-78 | two sample passwords with every required character class and eight characters are accepted |
| PasswordServices.WeakExamples | Backend/src/main/java/com/example/demo/service/PasswordService.java:67-78 | a short password, one without an upper-case letter, one without a digit, and null are rejected |
| PasswordServices.MatchesAny | Backend/src/main/java/com/example/demo/service/PasswordService.java:40-41 | true exactly when the password matches some listed hash |
| PasswordServices.PasswordService.HashPassword | Backend/src/main/java/com/example/demo/service/PasswordService.java:19-24 | the hash verifies against the password it was made from |
| PasswordServices.PasswordService.VerifyPassword | Backend/src/main/java/com/example/demo/service/PasswordService.java:26-31 | a hash made from the password verifies; under the injectivity assumption nothing else does |
| PasswordServices.PasswordService.IsPasswordReused | Backend/src/main/java/com/example/demo/service/PasswordService.java:33-42 | true exactly when the password matches one of the user's three newest history hashes |
| PasswordServices.PasswordService.ReuseChecksAgree | Backend/src/main/java/com/example/demo/service/AuthService.java:83-93 | with at most three entries, the top-3 reuse check equals the full-history check that changePassword performs |
| PasswordServices.PasswordService.SavePasswordToHistory | Backend/src/main/java/com/example/demo/service/PasswordService.java:44-62 | the new entry is the user's newest, only the user's last three entries remain, other users are unchanged, and nothing is evicted below three |
| AuthServices.AuthService.RegisterUser | Backend/src/main/java/com/example/demo/service/AuthService.java:28-57 | a taken username fails first, then a used email; otherwise exactly one user and one history entry holding the user's hash are added; failures change nothing |
| AuthServices.Message | Backend/src/main/java/com/example/demo/service/AuthService.java:31-91 | the exception text of each failure, each one a sentence ending in "!" |
| AuthServices.MessagesDistinct | Backend/src/main/java/com/example/demo/service/AuthService.java:31-91 | different failures carry different texts |
| AuthServices.AuthService.AuthenticateUser | Backend/src/main/java/com/example/demo/service/AuthService.java:59-68 | fails exactly when the identifier names two users; false when it names none; otherwise whether the password matches the one named user's hash |
| AuthServices.AuthService.LoginByUsername | Backend/src/main/java/com/example/demo/service/AuthService.java:59-68 | in a valid service, a username that is no user's email logs in exactly when the password matches that user's hash |
| AuthServices.AuthService.ChangePassword | Backend/src/main/java/com/example/demo/service/AuthService.java:70-117 | fails with UserNotFound, then IncorrectCurrentPassword, then PasswordReused, each exactly under its condition and without changing the stores; on success the user's hash is the new one, which is the user's newest of at most three entries, and no other user changes |
| AuthServices.AuthService.MatchesSomeEntry | Backend/src/main/java/com/example/demo/service/AuthService.java:89-93 | the reuse loop finds a match exactly when the password matches some listed hash |
| AuthServices.AuthService.CommitPasswordChange | Backend/src/main/java/com/example/demo/service/AuthService.java:95-114 | updates the user's hash, appends the new hash to the history, trims the history to three, and keeps the service invariant |
| AuthServices.AuthService.CommittedHistory | Backend/src/main/java/com/example/demo/service/AuthService.java:95-114 | after the save and trim, accounts stay unique, every user's history still ends in their current hash, the user's list is headed by the new entry, and other users keep their entries |
| AuthServices.AuthService.RegisteredHistory | Backend/src/main/java/com/example/demo/service/AuthService.java:47-54 | adding a user together with one history entry holding their hash keeps every user's history discipline |
| AuthServices.AuthService.NewUserHistory | Backend/src/main/java/com/example/demo/service/AuthService.java:49-54 | the new user's history is the single entry holding their hash |
| AuthServices.AuthService.RegisteredKeepsHistory | Backend/src/main/java/com/example/demo/service/AuthService.java:49-54 | the new entry leaves every existing user's history discipline intact |
| AuthServices.AuthService.RegisteredAccounts | Backend/src/main/java/com/example/demo/service/AuthService.java:29-47 | a user whose username and email are both new keeps accounts unique |
| AuthServices.AuthService.HistoryBounded | Backend/src/main/java/com/example/demo/service/AuthService.java:107-114 | in a valid service every user has one to three history entries |
| AuthServices.AuthService.CurrentPasswordIsReused | Backend/src/main/java/com/example/demo/service/AuthService.java:83-93 | in a valid service, changing to the current password is always rejected as reused |
| PostServices.Patched | Backend/src/main/java/com/example/demo/service/PostService.java:85-90 | a field changes only when a new value is given; id, owner and creation stamp are kept |
| PostServices.Message | Backend/src/main/java/com/example/demo/service/PostService.java:60-82 | the exception text of each failure, each one a sentence ending in "!" |
| PostServices.MessagesDistinct | Backend/src/main/java/com/example/demo/service/PostService.java:60-82 | different failures carry different texts |
| PostServices.PostService.GetPublicPosts | Backend/src/main/java/com/example/demo/service/PostService.java:27-30 | exactly the public posts |
| PostServices.PostService.GetPostsVisibleToUser | Backend/src/main/java/com/example/demo/service/PostService.java:32-41 | for an unknown or missing requester the public listing itself; otherwise the public posts and the requester's own |
| PostServices.PostService.GetUserPosts | Backend/src/main/java/com/example/demo/service/PostService.java:43-51 | empty for an unknown username; otherwise exactly that user's posts |
| PostServices.PostService.GetPostById | Backend/src/main/java/com/example/demo/service/PostService.java:53-55 | empty exactly when no post has the id; otherwise the stored post with it |
| PostServices.PostService.CanUserAccessPost | Backend/src/main/java/com/example/demo/service/PostService.java:112-135 | a missing post is refused, a public one allowed, a private one allowed exactly to its known owner |
| PostServices.PostService.AccessMatchesFeed | Backend/src/main/java/com/example/demo/service/PostService.java:112-135 | a post can be opened exactly when it appears in the requester's visible feed |
| PostServices.PostService.OwnerCanAccess | Backend/src/main/java/com/example/demo/service/PostService.java:124-134 | in a valid service the owner of a post can always open it |
| PostServices.PostService.CreatePost | Backend/src/main/java/com/example/demo/service/PostService.java:57-71 | UserNotFound exactly for an unknown username, with nothing stored; otherwise one post owned by that user is appended and appears in the user's listing |
| PostServices.PostService.UpdatePost | Backend/src/main/java/com/example/demo/service/PostService.java:73-94 | PostNotFound for a missing post, NoPermission unless the named user owns it, with nothing changed; otherwise the patched post replaces the old one and every other post is kept |
| PostServices.PostService.DeletePost | Backend/src/main/java/com/example/demo/service/PostService.java:96-110 | true exactly when the post exists and the named user owns it, and then only that post is removed; otherwise nothing changes |

## Left out

- Pagination: the `Page`/`Pageable` arguments of the post queries are dropped, and each listing is the whole ordered result.
- Timestamps: `LocalDateTime.now()` is replaced by the store's counter. The users' `createdAt`/`updatedAt` and the posts' `updatedAt` are not modelled.
- `PasswordServices.PasswordService.SavePasswordToHistory`: the Java method never sets `createdAt`. The model stamps the entry from the store's counter, as `changePassword` does. The entity classes are not part of this model, so what the database would order by there is unknown.
- BCrypt: the real hash function, its cost factor and its random salt are replaced by the abstract encoder described above.
- `UserRepository.java` and the entity classes are not part of this model. User lookups follow the method names: `findByUsernameOrEmail` is the single-row lookup of the user whose username or email equals the identifier.
- `AuthServices.AuthService.AuthenticateUser`: when the identifier names two users the lookup fails, and the model returns `None`. This case is reachable under `AuthService.Valid()`. The type and text of the exception are not modelled.
- The password-strength policy is applied by the controller (`AuthController.java:37`, `:104`), not by `AuthService`. The service methods accept any password, and so does the model.
- `IsLower`, `IsUpper` and `IsDigit` use ASCII ranges instead of Java's Unicode classes. String length counts characters, not UTF-16 code units.
- Content length: the 1–2000 character limit is declared on `PostDto`, which only the `/api/public/validate-post` check endpoint binds. The post create and update endpoints bind request classes without constraints, so content of any length reaches `PostService`, as in the model.
- Controllers, JWT handling, security configuration and the React client are outside the modelled core.
- Transactions and concurrency: every service call is modelled as one atomic step.
- Java `Long` ids are modelled as unbounded naturals; overflow is not modelled.
