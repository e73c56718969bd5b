/**
 * The password-history store and the queries declared on it. The store keeps its entries in
 * insertion order; a monotone counter stamps each saved entry with its id and its `createdAt`,
 * so "ORDER BY createdAt DESC" is the reverse of insertion order.
 */
module PasswordHistoryRepo {
  import opened Seqs
  import opened Hasher

  datatype PasswordHistory = PasswordHistory(id: nat, userId: nat, passwordHash: PasswordHash, createdAt: nat)

  function CreatedAt(e: PasswordHistory): int
  {
    e.createdAt
  }

  function OwnedBy(userId: nat): PasswordHistory -> bool
  {
    (e: PasswordHistory) => e.userId == userId
  }

  function NotOwnedBy(userId: nat): PasswordHistory -> bool
  {
    (e: PasswordHistory) => e.userId != userId
  }

  /** The entries of one user, oldest first. */
  function OfUser(entries: seq<PasswordHistory>, userId: nat): (r: seq<PasswordHistory>)
    ensures forall e :: e in r <==> e in entries && e.userId == userId
  {
    Filter(entries, OwnedBy(userId))
  }

  /** `findByUserIdOrderByCreatedAtDesc`. */
  function FindByUserIdOrderByCreatedAtDesc(entries: seq<PasswordHistory>, userId: nat): (r: seq<PasswordHistory>)
    ensures forall e :: e in r <==> e in entries && e.userId == userId
    ensures |r| == |OfUser(entries, userId)|
  {
    ReverseMembers(OfUser(entries, userId));
    Reverse(OfUser(entries, userId))
  }

  /** `findTop3ByUserIdOrderByCreatedAtDesc`. */
  function FindTop3ByUserIdOrderByCreatedAtDesc(entries: seq<PasswordHistory>, userId: nat): (r: seq<PasswordHistory>)
    ensures |r| <= 3 && |r| <= |FindByUserIdOrderByCreatedAtDesc(entries, userId)|
    ensures r == FindByUserIdOrderByCreatedAtDesc(entries, userId)[..|r|]
    ensures |r| < 3 ==> r == FindByUserIdOrderByCreatedAtDesc(entries, userId)
  {
    Take(FindByUserIdOrderByCreatedAtDesc(entries, userId), 3)
  }

  /**
   * `findRecentPasswordsByUserIdWithLimit`: its query text has no LIMIT, so `limit` is not
   * used and the whole newest-first history comes back.
   */
  function FindRecentPasswordsByUserIdWithLimit(entries: seq<PasswordHistory>, userId: nat, limit: int): (r: seq<PasswordHistory>)
    ensures r == FindByUserIdOrderByCreatedAtDesc(entries, userId)
  {
    FindByUserIdOrderByCreatedAtDesc(entries, userId)
  }

  /** `countByUserId`. */
  function CountByUserId(entries: seq<PasswordHistory>, userId: nat): (r: nat)
    ensures r == |FindByUserIdOrderByCreatedAtDesc(entries, userId)|
  {
    if entries == [] then 0
    else
      var init, e := entries[..|entries| - 1], entries[|entries| - 1];
      assert entries == init + [e];
      FilterAppend(init, e, OwnedBy(userId));
      CountByUserId(init, userId) + if e.userId == userId then 1 else 0
  }

  /** The store after `deleteByUserId`. */
  function WithoutUser(entries: seq<PasswordHistory>, userId: nat): (r: seq<PasswordHistory>)
    ensures forall e :: e in r <==> e in entries && e.userId != userId
  {
    Filter(entries, NotOwnedBy(userId))
  }

  /**
   * The store after saving `e` and then deleting every entry of `e`'s user beyond the
   * three newest: the append-and-trim step of `AuthService.changePassword` and of
   * `PasswordService.savePasswordToHistory`.
   */
  function SaveAndTrim(entries: seq<PasswordHistory>, e: PasswordHistory): (r: seq<PasswordHistory>)
    ensures forall x :: x in r ==> x in entries || x == e
    ensures forall x :: x in entries && x.userId != e.userId ==> x in r
  {
    var saved := entries + [e];
    var all := FindByUserIdOrderByCreatedAtDesc(saved, e.userId);
    if |all| > 3 then RemoveAll(saved, all[3..]) else saved
  }

  /** Entries are stamped in the order they were saved. */
  ghost predicate Chronological(entries: seq<PasswordHistory>)
  {
    Increasing(entries, CreatedAt)
  }

  /** A user's full history comes newest first. */
  lemma {:induction false} HistoryNewestFirst(entries: seq<PasswordHistory>, userId: nat)
    requires Chronological(entries)
    ensures Decreasing(FindByUserIdOrderByCreatedAtDesc(entries, userId), CreatedAt)
  {
    FilterIncreasing(entries, OwnedBy(userId), CreatedAt);
    ReverseDecreasing(OfUser(entries, userId), CreatedAt);
  }

  /** Deleting a user's history removes all of it and leaves every other user's untouched. */
  lemma {:induction false} DeleteByUserIdSpec(entries: seq<PasswordHistory>, userId: nat, other: nat)
    requires other != userId
    ensures OfUser(WithoutUser(entries, userId), userId) == []
    ensures OfUser(WithoutUser(entries, userId), other) == OfUser(entries, other)
  {
    FilterNone(WithoutUser(entries, userId), OwnedBy(userId));
    FilterCommutes(entries, NotOwnedBy(userId), OwnedBy(other));
    FilterAll(OfUser(entries, other), NotOwnedBy(userId));
  }

  /** Saving an entry newer than all others keeps the store chronological. */
  lemma SavedChronological(entries: seq<PasswordHistory>, e: PasswordHistory)
    requires Chronological(entries)
    requires forall x :: x in entries ==> x.createdAt < e.createdAt
    ensures Chronological(entries + [e])
  {
    var saved := entries + [e];
    forall i, j | 0 <= i < j < |saved|
      ensures saved[i].createdAt < saved[j].createdAt
    {
      if j == |entries| {
        assert saved[i] in entries;
      }
    }
  }

  /**
   * The trim step on a chronological store where user `u` has more than three entries:
   * `u` keeps exactly their three newest, and every other user's history is untouched.
   */
  lemma {:induction false} TrimKeepsThreeNewest(saved: seq<PasswordHistory>, u: nat)
    requires Chronological(saved)
    requires |FindByUserIdOrderByCreatedAtDesc(saved, u)| > 3
    ensures var r := RemoveAll(saved, FindByUserIdOrderByCreatedAtDesc(saved, u)[3..]);
      && OfUser(r, u) == KeepLast(OfUser(saved, u), 3)
      && forall v :: v != u ==> OfUser(r, v) == OfUser(saved, v)
  {
    var mine := OfUser(saved, u);
    var doomed := FindByUserIdOrderByCreatedAtDesc(saved, u)[3..];
    var r := RemoveAll(saved, doomed);
    var k := |mine| - 3;
    FilterIncreasing(saved, OwnedBy(u), CreatedAt);
    ReverseSuffix(mine, 3);
    RemoveAllPrefix(mine, doomed, k, CreatedAt);
    FilterCommutes(saved, NotIn(doomed), OwnedBy(u));
    forall v | v != u
      ensures OfUser(r, v) == OfUser(saved, v)
    {
      FilterCommutes(saved, NotIn(doomed), OwnedBy(v));
      RemoveAllDisjoint(OfUser(saved, v), doomed);
    }
  }

  /**
   * What append-and-trim does to a chronological store when the new entry is the newest:
   * the user keeps the three newest of their entries (the new one among them), every other
   * user's history is as it was, and nothing but the new entry is added.
   */
  lemma {:induction false} SaveAndTrimSpec(entries: seq<PasswordHistory>, e: PasswordHistory)
    requires Chronological(entries)
    requires forall x :: x in entries ==> x.createdAt < e.createdAt
    ensures Chronological(SaveAndTrim(entries, e))
    ensures OfUser(SaveAndTrim(entries, e), e.userId) == KeepLast(OfUser(entries, e.userId) + [e], 3)
    ensures forall v :: v != e.userId ==> OfUser(SaveAndTrim(entries, e), v) == OfUser(entries, v)
    ensures forall x :: x in SaveAndTrim(entries, e) ==> x in entries || x == e
  {
    var u := e.userId;
    var saved := entries + [e];
    SavedChronological(entries, e);
    FilterAppend(entries, e, OwnedBy(u));
    forall v | v != u
      ensures OfUser(saved, v) == OfUser(entries, v)
    {
      FilterAppend(entries, e, OwnedBy(v));
    }
    var all := FindByUserIdOrderByCreatedAtDesc(saved, u);
    if |all| > 3 {
      FilterIncreasing(saved, NotIn(all[3..]), CreatedAt);
      TrimKeepsThreeNewest(saved, u);
    }
  }

  /**
   * After append-and-trim the user's newest entry is the new one and they have between one
   * and three entries: one more than before, capped at three.
   */
  lemma {:induction false} SaveAndTrimBounds(entries: seq<PasswordHistory>, e: PasswordHistory)
    requires Chronological(entries)
    requires forall x :: x in entries ==> x.createdAt < e.createdAt
    ensures var recent := FindByUserIdOrderByCreatedAtDesc(SaveAndTrim(entries, e), e.userId);
      && 1 <= |recent| <= 3
      && recent[0] == e
      && |recent| == if CountByUserId(entries, e.userId) < 3 then CountByUserId(entries, e.userId) + 1 else 3
  {
    SaveAndTrimSpec(entries, e);
    var kept := OfUser(SaveAndTrim(entries, e), e.userId);
    assert kept[|kept| - 1] == e;
  }

  /** A user with at most two entries loses none: the store only grows by the new entry. */
  lemma SaveWithoutEviction(entries: seq<PasswordHistory>, e: PasswordHistory)
    requires CountByUserId(entries, e.userId) <= 2
    ensures SaveAndTrim(entries, e) == entries + [e]
    ensures CountByUserId(SaveAndTrim(entries, e), e.userId) == CountByUserId(entries, e.userId) + 1
  {
    FilterAppend(entries, e, OwnedBy(e.userId));
  }

  class PasswordHistoryRepository {
    /** The rows, in insertion order. */
    var entries: seq<PasswordHistory>
    /** The stamp (id and createdAt) of the next saved entry. */
    var clock: nat

    ghost predicate Valid()
      reads this
    {
      Chronological(entries) && forall e :: e in entries ==> e.createdAt < clock
    }

    constructor ()
      ensures Valid() && entries == []
    {
      entries := [];
      clock := 0;
    }

    /** `save` of a new entry. */
    method Save(userId: nat, passwordHash: PasswordHash) returns (e: PasswordHistory)
      requires Valid()
      modifies this
      ensures Valid()
      ensures e == PasswordHistory(old(clock), userId, passwordHash, old(clock))
      ensures entries == old(entries) + [e] && clock == old(clock) + 1
    {
      e := PasswordHistory(clock, userId, passwordHash, clock);
      assert Chronological(entries + [e]) by {
        forall i, j | 0 <= i < j < |entries| + 1
          ensures (entries + [e])[i].createdAt < (entries + [e])[j].createdAt
        {
          if j == |entries| {
            assert entries[i] in entries;
          }
        }
      }
      entries := entries + [e];
      clock := clock + 1;
    }

    /** `deleteAll` of a list of entries. */
    method DeleteAll(doomed: seq<PasswordHistory>)
      requires Valid()
      modifies this
      ensures Valid()
      ensures entries == RemoveAll(old(entries), doomed) && clock == old(clock)
    {
      FilterIncreasing(entries, NotIn(doomed), CreatedAt);
      entries := RemoveAll(entries, doomed);
    }

    /** `deleteByUserId`. */
    method DeleteByUserId(userId: nat)
      requires Valid()
      modifies this
      ensures Valid()
      ensures entries == WithoutUser(old(entries), userId) && clock == old(clock)
    {
      FilterIncreasing(entries, NotOwnedBy(userId), CreatedAt);
      entries := WithoutUser(entries, userId);
    }
  }
}
