/**
 * The post orchestrator: listings, lookup, the access rule, and create / update / delete
 * guarded by ownership. Listings are the unpaged contents of the repository queries.
 *
 * Its object invariant adds to the repositories' own that every post belongs to a
 * registered user: posts are only created for a user the store knows, and an update never
 * changes a post's owner.
 */
module PostServices {
  import opened Wrappers
  import opened Seqs
  import opened UserRepo
  import opened PostRepo

  datatype PostError = UserNotFound | PostNotFound | NoPermission

  /** The message each failure carries: a sentence ending in an exclamation mark. */
  function Message(e: PostError): (r: string)
    ensures |r| > 0 && r[|r| - 1] == '!'
  {
    match e
    case UserNotFound => "User not found!"
    case PostNotFound => "Post not found!"
    case NoPermission => "You don't have permission to update this post!"
  }

  /** Different failures carry different messages, so a client can tell them apart. */
  lemma MessagesDistinct(a: PostError, b: PostError)
    ensures Message(a) == Message(b) <==> a == b
  {
  }

  /**
   * The post after `updatePost`'s edits: a field changes only when a new value is given,
   * and the id, the owner and the creation stamp are kept.
   */
  function Patched(post: Post, content: Option<string>, isPublic: Option<bool>): (r: Post)
    ensures r.id == post.id && r.userId == post.userId && r.createdAt == post.createdAt
    ensures content.None? ==> r.content == post.content
    ensures content.Some? ==> r.content == content.value
    ensures isPublic.None? ==> r.isPublic == post.isPublic
    ensures isPublic.Some? ==> r.isPublic == isPublic.value
    ensures content.None? && isPublic.None? ==> r == post
  {
    var withContent := if content.Some? then post.(content := content.value) else post;
    if isPublic.Some? then withContent.(isPublic := isPublic.value) else withContent
  }

  /** Every post belongs to a registered user. */
  ghost predicate OwnersRegistered(posts: seq<Post>, users: seq<User>)
  {
    forall p :: p in posts ==> p.userId < |users|
  }

  class PostService {
    const postRepository: PostRepository
    const userRepository: UserRepository

    ghost predicate Valid()
      reads this, postRepository, userRepository
    {
      && postRepository.Valid()
      && userRepository.Valid()
      && UniqueAccounts(userRepository.records)
      && OwnersRegistered(postRepository.records, userRepository.records)
    }

    constructor (posts: PostRepository, users: UserRepository)
      requires posts.Valid() && users.Valid() && UniqueAccounts(users.records)
      requires OwnersRegistered(posts.records, users.records)
      ensures Valid()
      ensures postRepository == posts && userRepository == users
    {
      postRepository := posts;
      userRepository := users;
    }

    /** `getPublicPosts`: the public posts, newest first. */
    function GetPublicPosts(): (r: seq<Post>)
      reads this, postRepository
      ensures forall p :: p in r <==> p in postRepository.records && p.isPublic
    {
      FindPublicPosts(postRepository.records)
    }

    /**
     * `getPostsVisibleToUser`: for a requester the store does not know (or none), exactly
     * the public listing; for a known one, the public posts together with the requester's own.
     */
    function GetPostsVisibleToUser(username: Option<string>): (r: seq<Post>)
      reads this, postRepository, userRepository
      ensures FindRequester(userRepository.records, username).None? ==> r == GetPublicPosts()
      ensures var requester := FindRequester(userRepository.records, username);
        forall p :: p in r <==>
          p in postRepository.records && (p.isPublic || (requester.Some? && p.userId == requester.value.id))
    {
      match FindRequester(userRepository.records, username)
      case None => GetPublicPosts()
      case Some(user) => FindVisibleToUser(postRepository.records, user.id)
    }

    /** `getUserPosts`: nothing for an unknown username, else all posts of that user. */
    function GetUserPosts(username: string): (r: seq<Post>)
      reads this, postRepository, userRepository
      ensures !ExistsByUsername(userRepository.records, username) ==> r == []
      ensures ExistsByUsername(userRepository.records, username) ==>
        var user := FindByUsername(userRepository.records, username).value;
        forall p :: p in r <==> p in postRepository.records && p.userId == user.id
    {
      match FindByUsername(userRepository.records, username)
      case None => []
      case Some(user) => FindByUserId(postRepository.records, user.id)
    }

    /** `getPostById`. */
    function GetPostById(id: nat): (r: Option<Post>)
      reads this, postRepository
      ensures r.None? <==> forall i :: 0 <= i < |postRepository.records| ==> postRepository.records[i].id != id
      ensures r.Some? ==> r.value in postRepository.records && r.value.id == id
    {
      FindById(postRepository.records, id)
    }

    /**
     * `canUserAccessPost`: a missing post is inaccessible, a public one is open to everyone,
     * and a private one only to a known requester who owns it.
     */
    function CanUserAccessPost(postId: nat, username: Option<string>): (r: bool)
      reads this, postRepository, userRepository
      ensures GetPostById(postId).None? ==> !r
      ensures GetPostById(postId).Some? && GetPostById(postId).value.isPublic ==> r
      ensures GetPostById(postId).Some? && !GetPostById(postId).value.isPublic ==>
        (r <==> && FindRequester(userRepository.records, username).Some?
                && FindRequester(userRepository.records, username).value.id == GetPostById(postId).value.userId)
    {
      match FindById(postRepository.records, postId)
      case None => false
      case Some(post) =>
        if post.isPublic then true
        else if username.None? then false
        else match FindByUsername(userRepository.records, username.value)
          case None => false
          case Some(user) => post.userId == user.id
    }

    /**
     * The access rule agrees with the feed: a post can be opened exactly when it is the post
     * with that id and it appears in the requester's visible listing.
     */
    lemma AccessMatchesFeed(postId: nat, username: Option<string>)
      ensures CanUserAccessPost(postId, username) <==>
        GetPostById(postId).Some? && GetPostById(postId).value in GetPostsVisibleToUser(username)
    {
    }

    /** In a valid service the owner of a post can always open it. */
    lemma OwnerCanAccess(post: Post)
      requires Valid() && post in postRepository.records
      ensures CanUserAccessPost(post.id, Some(userRepository.records[post.userId].username))
    {
      postRepository.ValidIdsUnique();
      var posts, users := postRepository.records, userRepository.records;
      var i :| 0 <= i < |posts| && posts[i] == post;
      var found := FindById(posts, post.id);
      var j :| 0 <= j < |posts| && posts[j] == found.value;
      assert i == j;
      FindByOwnUsername(users, post.userId);
    }

    /** `createPost`: a new post owned by the named user, or `UserNotFound`. */
    method CreatePost(content: string, isPublic: bool, username: string) returns (r: Result<Post, PostError>)
      requires Valid()
      modifies postRepository
      ensures Valid()
      ensures r.Failure? <==> !ExistsByUsername(userRepository.records, username)
      ensures r.Failure? ==> r.error == UserNotFound && unchanged(postRepository)
      ensures r.Success? ==>
        var user := FindByUsername(userRepository.records, username).value;
        && r.value == Post(old(postRepository.clock), user.id, content, isPublic, old(postRepository.clock))
        && postRepository.records == old(postRepository.records) + [r.value]
        && r.value in GetUserPosts(username)
    {
      var userOpt := FindByUsername(userRepository.records, username);
      if userOpt.None? {
        return Failure(UserNotFound);
      }
      var user := userOpt.value;
      var post := postRepository.SaveNew(user.id, content, isPublic);
      return Success(post);
    }

    /**
     * `updatePost`: `PostNotFound` for a missing post, `NoPermission` unless the named user
     * owns it; otherwise the given fields are replaced and the post is saved in place.
     */
    method UpdatePost(postId: nat, content: Option<string>, isPublic: Option<bool>, username: string)
      returns (r: Result<Post, PostError>)
      requires Valid()
      modifies postRepository
      ensures Valid()
      ensures r == Failure(PostNotFound) <==> FindById(old(postRepository.records), postId).None?
      ensures FindById(old(postRepository.records), postId).Some? ==>
        var post := FindById(old(postRepository.records), postId).value;
        var user := FindByUsername(userRepository.records, username);
        r == Failure(NoPermission) <==> user.None? || user.value.id != post.userId
      ensures r.Failure? ==> unchanged(postRepository)
      ensures r.Success? ==>
        var post := FindById(old(postRepository.records), postId).value;
        && r.value == Patched(post, content, isPublic)
        && postRepository.records == Replaced(old(postRepository.records), r.value)
        && FindById(postRepository.records, postId) == Some(r.value)
        && (forall p :: p in old(postRepository.records) && p.id != postId ==> p in postRepository.records)
        && (forall p :: p in postRepository.records ==> p == r.value || p in old(postRepository.records))
    {
      var postOpt := FindById(postRepository.records, postId);
      if postOpt.None? {
        return Failure(PostNotFound);
      }
      var post := postOpt.value;
      var userOpt := FindByUsername(userRepository.records, username);
      if userOpt.None? || post.userId != userOpt.value.id {
        return Failure(NoPermission);
      }
      var updated := Patched(post, content, isPublic);
      postRepository.ValidIdsUnique();
      ReplacedSpec(postRepository.records, updated);
      postRepository.Save(updated);
      return Success(updated);
    }

    /** `deletePost`: true, and the post gone, exactly when it exists and the named user owns it. */
    method DeletePost(postId: nat, username: string) returns (ok: bool)
      requires Valid()
      modifies postRepository
      ensures Valid()
      ensures ok <==>
        && FindById(old(postRepository.records), postId).Some?
        && FindByUsername(userRepository.records, username).Some?
        && FindByUsername(userRepository.records, username).value.id == FindById(old(postRepository.records), postId).value.userId
      ensures ok ==> postRepository.records == WithoutPost(old(postRepository.records), postId)
      ensures ok ==> FindById(postRepository.records, postId).None?
      ensures !ok ==> unchanged(postRepository)
    {
      var postOpt := FindById(postRepository.records, postId);
      if postOpt.None? {
        return false;
      }
      var post := postOpt.value;
      var userOpt := FindByUsername(userRepository.records, username);
      if userOpt.None? || post.userId != userOpt.value.id {
        return false;
      }
      postRepository.Delete(post);
      return true;
    }
  }
}
