/**
 * Sequence operations that the stores and queries are built from: filtering (a WHERE clause),
 * reversal (ORDER BY ... DESC over a store kept in insertion order), first match (a lookup
 * returning Optional) and any match (Java's Stream.anyMatch).
 */
module Seqs {
  import opened Wrappers

  /** The elements of `s` that pass `keep`, in their original order. */
  function Filter<T(!new)>(s: seq<T>, keep: T -> bool): (r: seq<T>)
    ensures |r| <= |s|
    ensures forall x :: x in r <==> x in s && keep(x)
  {
    if s == [] then []
    else
      assert s == s[..|s| - 1] + [s[|s| - 1]];
      var init := Filter(s[..|s| - 1], keep);
      if keep(s[|s| - 1]) then init + [s[|s| - 1]] else init
  }

  /** The predicate "is not one of `doomed`". */
  function NotIn<T(!new,==)>(doomed: seq<T>): T -> bool
  {
    (x: T) => x !in doomed
  }

  /** `s` without the elements of `doomed` (a bulk delete). */
  function RemoveAll<T(!new,==)>(s: seq<T>, doomed: seq<T>): (r: seq<T>)
    ensures forall x :: x in r <==> x in s && x !in doomed
  {
    Filter(s, NotIn(doomed))
  }

  /** `s` in the opposite order. */
  function Reverse<T(!new)>(s: seq<T>): (r: seq<T>)
    ensures |r| == |s|
    ensures forall i :: 0 <= i < |s| ==> r[i] == s[|s| - 1 - i]
  {
    seq(|s|, i requires 0 <= i < |s| => s[|s| - 1 - i])
  }

  lemma ReverseMembers<T(!new)>(s: seq<T>)
    ensures forall x :: x in Reverse(s) <==> x in s
  {
    var r := Reverse(s);
    forall x | x in s
      ensures x in r
    {
      var i :| 0 <= i < |s| && s[i] == x;
      assert r[|s| - 1 - i] == x;
    }
  }

  /** The index of the first element of `s` that passes `test`, if there is one. */
  function FirstIndex<T(!new)>(s: seq<T>, test: T -> bool): (r: Option<nat>)
    ensures r.Some? ==> r.value < |s| && test(s[r.value])
    ensures r.Some? ==> forall j :: 0 <= j < r.value ==> !test(s[j])
    ensures r.None? <==> forall j :: 0 <= j < |s| ==> !test(s[j])
  {
    if s == [] then None
    else if test(s[0]) then Some(0)
    else
      match FirstIndex(s[1..], test)
      case None => None
      case Some(i) => Some(i + 1)
  }

  /** Whether some element of `s` passes `test`. */
  function AnyMatch<T(!new)>(s: seq<T>, test: T -> bool): (r: bool)
    ensures r <==> exists i :: 0 <= i < |s| && test(s[i])
  {
    FirstIndex(s, test).Some?
  }

  /** The first `n` elements of `s`, or all of them when there are fewer. */
  function Take<T(!new)>(s: seq<T>, n: nat): (r: seq<T>)
    ensures |r| == if |s| <= n then |s| else n
    ensures r == s[..|r|]
  {
    if |s| <= n then s else s[..n]
  }

  /** The last `n` elements of `s`, or all of them when there are fewer. */
  function KeepLast<T(!new)>(s: seq<T>, n: nat): (r: seq<T>)
    ensures |r| == if |s| <= n then |s| else n
    ensures r == s[|s| - |r|..]
  {
    if |s| <= n then s else s[|s| - n..]
  }

  /** Keys strictly increase along `s` (oldest first, when the key is a creation stamp). */
  predicate Increasing<T(!new)>(s: seq<T>, key: T -> int)
  {
    forall i, j :: 0 <= i < j < |s| ==> key(s[i]) < key(s[j])
  }

  /** Keys strictly decrease along `s` (newest first). */
  predicate Decreasing<T(!new)>(s: seq<T>, key: T -> int)
  {
    forall i, j :: 0 <= i < j < |s| ==> key(s[i]) > key(s[j])
  }

  lemma FilterAppend<T(!new)>(s: seq<T>, x: T, keep: T -> bool)
    ensures Filter(s + [x], keep) == Filter(s, keep) + (if keep(x) then [x] else [])
  {
    assert (s + [x])[..|s|] == s;
  }

  lemma FilterNone<T(!new)>(s: seq<T>, keep: T -> bool)
    requires forall x :: x in s ==> !keep(x)
    ensures Filter(s, keep) == []
  {
  }

  lemma {:induction false} FilterAll<T(!new)>(s: seq<T>, keep: T -> bool)
    requires forall x :: x in s ==> keep(x)
    ensures Filter(s, keep) == s
  {
    if s != [] {
      var init, x := s[..|s| - 1], s[|s| - 1];
      assert s == init + [x];
      FilterAll(init, keep);
      FilterAppend(init, x, keep);
    }
  }

  /** Two filters may be applied in either order. */
  lemma {:induction false} FilterCommutes<T(!new)>(s: seq<T>, p: T -> bool, q: T -> bool)
    ensures Filter(Filter(s, p), q) == Filter(Filter(s, q), p)
  {
    if s != [] {
      var init, x := s[..|s| - 1], s[|s| - 1];
      assert s == init + [x];
      FilterCommutes(init, p, q);
      FilterAppend(init, x, p);
      FilterAppend(init, x, q);
      FilterAppend(Filter(init, p), x, q);
      FilterAppend(Filter(init, q), x, p);
    }
  }

  /** A filter keeps the elements in order, so it keeps an increasing key increasing. */
  lemma {:induction false} FilterIncreasing<T(!new)>(s: seq<T>, keep: T -> bool, key: T -> int)
    requires Increasing(s, key)
    ensures Increasing(Filter(s, keep), key)
  {
    if s != [] {
      var init, x := s[..|s| - 1], s[|s| - 1];
      assert s == init + [x];
      assert Increasing(init, key);
      FilterIncreasing(init, keep, key);
      FilterAppend(init, x, keep);
      var f := Filter(init, keep);
      forall i | 0 <= i < |f|
        ensures key(f[i]) < key(x)
      {
        assert f[i] in init;
        var k :| 0 <= k < |init| && init[k] == f[i];
        assert s[k] == f[i];
      }
    }
  }

  lemma ReverseDecreasing<T(!new)>(s: seq<T>, key: T -> int)
    requires Increasing(s, key)
    ensures Decreasing(Reverse(s), key)
  {
  }

  /**
   * Deleting from an increasing `s` exactly the elements of its first `k` positions
   * leaves the last `|s| - k` elements.
   */
  lemma {:induction false} RemoveAllPrefix<T(!new)>(s: seq<T>, doomed: seq<T>, k: nat, key: T -> int)
    requires k <= |s| && Increasing(s, key)
    requires forall x :: x in s ==> (x in doomed <==> x in s[..k])
    ensures RemoveAll(s, doomed) == s[k..]
  {
    if s != [] {
      var init, x := s[..|s| - 1], s[|s| - 1];
      assert s == init + [x];
      var k' := if k < |s| then k else |init|;
      assert Increasing(init, key);
      DoomedPrefixOfInit(s, doomed, k);
      RemoveAllPrefix(init, doomed, k', key);
      FilterAppend(init, x, NotIn(doomed));
      assert RemoveAll(s, doomed) == Filter(init + [x], NotIn(doomed));
      assert RemoveAll(s, doomed) == init[k'..] + (if x in doomed then [] else [x]);
      if k < |s| {
        LastNotInPrefix(s, k, key);
        assert x !in doomed;
        assert s[k..] == init[k..] + [x];
      } else {
        assert x in doomed;
      }
    }
  }

  /** The hypothesis of `RemoveAllPrefix`, carried from `s` to `s` without its last element. */
  lemma DoomedPrefixOfInit<T(!new)>(s: seq<T>, doomed: seq<T>, k: nat)
    requires 0 < |s| && k <= |s|
    requires forall x :: x in s ==> (x in doomed <==> x in s[..k])
    ensures var init := s[..|s| - 1];
      forall y :: y in init ==> (y in doomed <==> y in init[..if k < |s| then k else |init|])
  {
    var init := s[..|s| - 1];
    var k' := if k < |s| then k else |init|;
    assert s[..k] == init[..k'] || (k == |s| && s[..k] == s && init[..k'] == init);
    forall y | y in init
      ensures y in doomed <==> y in init[..k']
    {
      assert y in s;
    }
  }

  /** In an increasing sequence the last element does not occur before position `k < |s|`. */
  lemma LastNotInPrefix<T(!new)>(s: seq<T>, k: nat, key: T -> int)
    requires k < |s| && Increasing(s, key)
    ensures s[|s| - 1] !in s[..k]
  {
    forall i | 0 <= i < k
      ensures s[i] != s[|s| - 1]
    {
      assert key(s[i]) < key(s[|s| - 1]);
    }
  }

  /** Dropping the first `n` elements of a reversal reverses all but the last `n`. */
  lemma ReverseSuffix<T(!new)>(s: seq<T>, n: nat)
    requires n <= |s|
    ensures Reverse(s)[n..] == Reverse(s[..|s| - n])
  {
    var a, b := Reverse(s)[n..], Reverse(s[..|s| - n]);
    assert |a| == |b|;
    forall j | 0 <= j < |a|
      ensures a[j] == b[j]
    {
      assert a[j] == Reverse(s)[n + j];
      assert b[j] == s[..|s| - n][|s| - n - 1 - j];
    }
  }

  /** Deleting elements that do not occur changes nothing. */
  lemma RemoveAllDisjoint<T(!new)>(s: seq<T>, doomed: seq<T>)
    requires forall x :: x in s ==> x !in doomed
    ensures RemoveAll(s, doomed) == s
  {
    FilterAll(s, NotIn(doomed));
  }
}
