/** Row ids and the ascending order `ORDER BY id` puts them in. */
module Ids {

  /** Strictly ascending: in order, and therefore without duplicates. */
  predicate Ascending(s: seq<int>)
  {
    forall i, j :: 0 <= i < j < |s| ==> s[i] < s[j]
  }

  /** A set other than the empty one has a member. */
  lemma HasMember(ids: set<int>)
    requires |ids| > 0
    ensures exists x :: x in ids
  {
    if forall x :: x !in ids {
      assert false;
    }
  }

  /** Every non-empty finite set of ids has a smallest member. */
  lemma {:induction false} HasLeast(ids: set<int>)
    requires |ids| > 0
    ensures exists m :: m in ids && forall y :: y in ids ==> m <= y
  {
    HasMember(ids);
    var x :| x in ids;
    if ids != {x} {
      var rest := ids - {x};
      HasLeast(rest);
      var m :| m in rest && forall y :: y in rest ==> m <= y;
      assert forall y :: y in ids ==> y == x || y in rest;
    } else {
      assert forall y :: y in ids ==> x <= y;
    }
  }

  /** The smallest id of a non-empty set. */
  function Least(ids: set<int>): (m: int)
    requires |ids| > 0
    ensures m in ids
    ensures forall y :: y in ids ==> m <= y
  {
    HasLeast(ids);
    var m :| m in ids && forall y :: y in ids ==> m <= y;
    m
  }

  /** The members of a finite set of ids, listed in ascending order (see SortedIdsCorrect). */
  function SortedIds(ids: set<int>): (r: seq<int>)
    ensures forall x :: x in r ==> x in ids
    decreases |ids|
  {
    if ids == {} then []
    else
      var m := Least(ids);
      [m] + SortedIds(ids - {m})
  }

  /** SortedIds lists every member exactly once, in strictly ascending order. */
  lemma {:induction false} SortedIdsCorrect(ids: set<int>)
    ensures |SortedIds(ids)| == |ids|
    ensures forall x :: x in SortedIds(ids) <==> x in ids
    ensures Ascending(SortedIds(ids))
    decreases |ids|
  {
    if ids != {} {
      var m := Least(ids);
      var rest := ids - {m};
      SortedIdsCorrect(rest);
      var r := SortedIds(ids);
      assert r == [m] + SortedIds(rest);
      forall i, j | 0 <= i < j < |r|
        ensures r[i] < r[j]
      {
        if i == 0 {
          assert r[j] in SortedIds(rest);
          assert r[j] in ids && r[j] != m;
        } else {
          assert SortedIds(rest)[i - 1] < SortedIds(rest)[j - 1];
        }
      }
    }
  }

  /** In an ascending sequence, the tail holds exactly the members other than the head. */
  lemma TailMembers(s: seq<int>, x: int)
    requires Ascending(s) && s != []
    ensures x in s[1..] <==> x in s && x != s[0]
  {
    if x in s[1..] {
      var k :| 0 <= k < |s[1..]| && s[1..][k] == x;
      assert s[k + 1] == x;
    }
    if x in s && x != s[0] {
      var k :| 0 <= k < |s| && s[k] == x;
      assert s[1..][k - 1] == x;
    }
  }

  /** A set has only one ascending listing: two ascending sequences with the same members are equal. */
  lemma {:induction false} AscendingUnique(a: seq<int>, b: seq<int>)
    requires Ascending(a) && Ascending(b)
    requires forall x :: x in a <==> x in b
    ensures a == b
  {
    if a != [] {
      assert a[0] in a;
    }
    if b != [] {
      assert b[0] in b;
    }
    if a != [] && b != [] {
      assert a[0] in b && b[0] in a;
      var i :| 0 <= i < |b| && b[i] == a[0];
      var j :| 0 <= j < |a| && a[j] == b[0];
      assert a[0] == b[0];
      forall x
        ensures x in a[1..] <==> x in b[1..]
      {
        TailMembers(a, x);
        TailMembers(b, x);
      }
      AscendingUnique(a[1..], b[1..]);
      assert a == [a[0]] + a[1..];
      assert b == [b[0]] + b[1..];
    }
  }
}
