/**
 * The post store and the queries declared on it. Posts are kept in insertion order; a
 * monotone counter stamps each saved post with its id and its `createdAt`, so every
 * "ORDER BY createdAt DESC" listing is a filter of the store, reversed.
 */
module PostRepo {
  import opened Wrappers
  import opened Seqs

  datatype Post = Post(id: nat, userId: nat, content: string, isPublic: bool, createdAt: nat)

  function CreatedAt(p: Post): int
  {
    p.createdAt
  }

  function Id(p: Post): int
  {
    p.id
  }

  function IsPublicPost(p: Post): bool
  {
    p.isPublic
  }

  function OwnedBy(userId: nat): Post -> bool
  {
    (p: Post) => p.userId == userId
  }

  function PublicOrOwnedBy(userId: nat): Post -> bool
  {
    (p: Post) => p.isPublic || p.userId == userId
  }

  function HasId(id: nat): Post -> bool
  {
    (p: Post) => p.id == id
  }

  function HasIdAndOwner(id: nat, userId: nat): Post -> bool
  {
    (p: Post) => p.id == id && p.userId == userId
  }

  function HasOtherId(id: nat): Post -> bool
  {
    (p: Post) => p.id != id
  }

  /** Posts were created in store order (and so every listing below comes newest first). */
  ghost predicate Chronological(posts: seq<Post>)
  {
    Increasing(posts, CreatedAt)
  }

  /** No two posts share an id. */
  ghost predicate UniqueIds(posts: seq<Post>)
  {
    forall i, j :: 0 <= i < j < |posts| ==> posts[i].id != posts[j].id
  }

  /** `findPublicPosts`: the public posts, newest first. */
  function FindPublicPosts(posts: seq<Post>): (r: seq<Post>)
    ensures forall p :: p in r <==> p in posts && p.isPublic
  {
    ReverseMembers(Filter(posts, IsPublicPost));
    Reverse(Filter(posts, IsPublicPost))
  }

  /** `findByUserId`: the posts of one user, public and private, newest first. */
  function FindByUserId(posts: seq<Post>, userId: nat): (r: seq<Post>)
    ensures forall p :: p in r <==> p in posts && p.userId == userId
  {
    ReverseMembers(Filter(posts, OwnedBy(userId)));
    Reverse(Filter(posts, OwnedBy(userId)))
  }

  /** `findVisibleToUser`: the public posts together with the user's own, newest first. */
  function FindVisibleToUser(posts: seq<Post>, userId: nat): (r: seq<Post>)
    ensures forall p :: p in r <==> p in posts && (p.isPublic || p.userId == userId)
    ensures forall p :: p in FindPublicPosts(posts) ==> p in r
    ensures forall p :: p in FindByUserId(posts, userId) ==> p in r
  {
    ReverseMembers(Filter(posts, PublicOrOwnedBy(userId)));
    Reverse(Filter(posts, PublicOrOwnedBy(userId)))
  }

  /** All three listings are ordered newest first. */
  lemma {:induction false} ListingsNewestFirst(posts: seq<Post>, userId: nat)
    requires Chronological(posts)
    ensures Decreasing(FindPublicPosts(posts), CreatedAt)
    ensures Decreasing(FindByUserId(posts, userId), CreatedAt)
    ensures Decreasing(FindVisibleToUser(posts, userId), CreatedAt)
  {
    FilterIncreasing(posts, IsPublicPost, CreatedAt);
    FilterIncreasing(posts, OwnedBy(userId), CreatedAt);
    FilterIncreasing(posts, PublicOrOwnedBy(userId), CreatedAt);
  }

  /** `findById`. */
  function FindById(posts: seq<Post>, id: nat): (r: Option<Post>)
    ensures r.None? <==> forall i :: 0 <= i < |posts| ==> posts[i].id != id
    ensures r.Some? ==> r.value in posts && r.value.id == id
  {
    match FirstIndex(posts, HasId(id))
    case None => None
    case Some(i) => Some(posts[i])
  }

  /** `findByIdAndUserId`: present exactly when some post has that id and that owner. */
  function FindByIdAndUserId(posts: seq<Post>, id: nat, userId: nat): (r: Option<Post>)
    ensures r.None? <==> forall i :: 0 <= i < |posts| ==> !(posts[i].id == id && posts[i].userId == userId)
    ensures r.Some? ==> r.value in posts && r.value.id == id && r.value.userId == userId
  {
    match FirstIndex(posts, HasIdAndOwner(id, userId))
    case None => None
    case Some(i) => Some(posts[i])
  }

  /**
   * With unique ids, the owner-qualified lookup finds a post exactly when the plain lookup
   * finds one and it belongs to `userId` -- the ownership test PostService performs by hand.
   */
  lemma FindByIdAndUserIdIsOwnedLookup(posts: seq<Post>, id: nat, userId: nat)
    requires UniqueIds(posts)
    ensures FindByIdAndUserId(posts, id, userId) ==
      if FindById(posts, id).Some? && FindById(posts, id).value.userId == userId then FindById(posts, id) else None
  {
    var r := FindById(posts, id);
    if r.Some? {
      var i :| 0 <= i < |posts| && posts[i] == r.value;
      var q := FindByIdAndUserId(posts, id, userId);
      if q.Some? {
        var j :| 0 <= j < |posts| && posts[j] == q.value;
        assert i == j;
      }
    }
  }

  /** `countByUserId`. */
  function CountByUserId(posts: seq<Post>, userId: nat): (r: nat)
    ensures r == |FindByUserId(posts, userId)|
  {
    if posts == [] then 0
    else
      var init, p := posts[..|posts| - 1], posts[|posts| - 1];
      assert posts == init + [p];
      FilterAppend(init, p, OwnedBy(userId));
      CountByUserId(init, userId) + if p.userId == userId then 1 else 0
  }

  /** The store after `save` of a post that is already stored: the row with its id is replaced. */
  function Replaced(posts: seq<Post>, post: Post): (r: seq<Post>)
    ensures |r| == |posts|
    ensures forall i :: 0 <= i < |posts| ==> r[i] == if posts[i].id == post.id then post else posts[i]
  {
    seq(|posts|, i requires 0 <= i < |posts| => if posts[i].id == post.id then post else posts[i])
  }

  /** The store after `delete` of the post with that id. */
  function WithoutPost(posts: seq<Post>, id: nat): (r: seq<Post>)
    ensures forall p :: p in r <==> p in posts && p.id != id
  {
    Filter(posts, HasOtherId(id))
  }

  /** Replacing the post with a given id changes that post and no other. */
  lemma ReplacedSpec(posts: seq<Post>, post: Post)
    requires UniqueIds(posts) && FindById(posts, post.id).Some?
    ensures FindById(Replaced(posts, post), post.id) == Some(post)
    ensures forall p :: p in posts && p.id != post.id ==> p in Replaced(posts, post)
    ensures forall p :: p in Replaced(posts, post) ==> p == post || (p in posts && p.id != post.id)
  {
    var r := Replaced(posts, post);
    var i :| 0 <= i < |posts| && posts[i] == FindById(posts, post.id).value;
    assert r[i] == post;
    forall p | p in posts && p.id != post.id
      ensures p in r
    {
      var k :| 0 <= k < |posts| && posts[k] == p;
      assert r[k] == p;
    }
    var f := FindById(r, post.id);
    var j :| 0 <= j < |r| && r[j] == f.value;
    assert posts[j].id == post.id;
  }

  /**
   * Replacing a stored post by one with the same id and creation stamp keeps every row's id
   * and stamp, so the store stays ordered and below the clock.
   */
  lemma ReplacedKeepsStamps(posts: seq<Post>, post: Post, clock: nat)
    requires Chronological(posts) && Increasing(posts, Id)
    requires forall p :: p in posts ==> p.id < clock && p.createdAt < clock
    requires FindById(posts, post.id).Some? && FindById(posts, post.id).value.createdAt == post.createdAt
    ensures var r := Replaced(posts, post);
      && Chronological(r) && Increasing(r, Id)
      && forall p :: p in r ==> p.id < clock && p.createdAt < clock
  {
    var r := Replaced(posts, post);
    var k :| 0 <= k < |posts| && posts[k] == FindById(posts, post.id).value;
    forall i | 0 <= i < |posts|
      ensures r[i].id == posts[i].id && r[i].createdAt == posts[i].createdAt
    {
      if posts[i].id == post.id {
        assert i == k;
      }
    }
    SameStampsKeepOrder(posts, r, clock);
  }

  /** Two stores whose rows agree position by position on id and stamp are equally ordered. */
  lemma SameStampsKeepOrder(posts: seq<Post>, r: seq<Post>, clock: nat)
    requires |r| == |posts|
    requires forall i :: 0 <= i < |posts| ==> r[i].id == posts[i].id && r[i].createdAt == posts[i].createdAt
    requires Chronological(posts) && Increasing(posts, Id)
    requires forall p :: p in posts ==> p.id < clock && p.createdAt < clock
    ensures Chronological(r) && Increasing(r, Id)
    ensures forall p :: p in r ==> p.id < clock && p.createdAt < clock
  {
    forall q | q in r
      ensures q.id < clock && q.createdAt < clock
    {
      var j :| 0 <= j < |r| && r[j] == q;
      assert posts[j] in posts;
    }
  }

  class PostRepository {
    /** The rows, in insertion order. */
    var records: seq<Post>
    /** The stamp (id and createdAt) of the next saved post. */
    var clock: nat

    ghost predicate Valid()
      reads this
    {
      && Chronological(records)
      && Increasing(records, Id)
      && forall p :: p in records ==> p.id < clock && p.createdAt < clock
    }

    constructor ()
      ensures Valid() && records == []
    {
      records := [];
      clock := 0;
    }

    /** Ids increase along the store, so no two posts share one. */
    lemma ValidIdsUnique()
      requires Valid()
      ensures UniqueIds(records)
    {
    }

    /** `save` of a new post. */
    method SaveNew(userId: nat, content: string, isPublic: bool) returns (p: Post)
      requires Valid()
      modifies this
      ensures Valid()
      ensures p == Post(old(clock), userId, content, isPublic, old(clock))
      ensures records == old(records) + [p] && clock == old(clock) + 1
    {
      p := Post(clock, userId, content, isPublic, clock);
      assert Valid() by {
        forall i | 0 <= i < |records|
          ensures records[i].id < p.id && records[i].createdAt < p.createdAt
        {
          assert records[i] in records;
        }
      }
      records := records + [p];
      clock := clock + 1;
    }

    /** `save` of an edited post: its id and creation stamp are those of a stored post. */
    method Save(p: Post)
      requires Valid()
      requires FindById(records, p.id).Some? && FindById(records, p.id).value.createdAt == p.createdAt
      modifies this
      ensures Valid()
      ensures records == Replaced(old(records), p) && clock == old(clock)
    {
      ReplacedKeepsStamps(records, p, clock);
      records := Replaced(records, p);
    }

    /** `delete` of a post. */
    method Delete(p: Post)
      requires Valid()
      modifies this
      ensures Valid()
      ensures records == WithoutPost(old(records), p.id) && clock == old(clock)
    {
      FilterIncreasing(records, HasOtherId(p.id), CreatedAt);
      FilterIncreasing(records, HasOtherId(p.id), Id);
      records := WithoutPost(records, p.id);
    }
  }
}
