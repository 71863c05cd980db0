/**
 `sortByKey(users, 'points')` (users/router.js:11-17, used at line 21):
 users ordered by points, highest first.
 */
module Ranking {
  import opened Users

  /** The comparator handed to `Array.prototype.sort`: negative when `a`
      must come first, positive when `b` must, zero for a tie. */
  function Compare(a: User, b: User): (c: int)
    ensures c < 0 <==> a.points > b.points
    ensures c > 0 <==> a.points < b.points
    ensures c == 0 <==> a.points == b.points
  {
    if a.points < b.points then 1 else if a.points > b.points then -1 else 0
  }

  /** Points never increase from one position to a later one. */
  ghost predicate Descending(s: seq<User>) {
    forall i, j :: 0 <= i < j < |s| ==> s[i].points >= s[j].points
  }

  /** A descending sequence is one the comparator accepts pairwise: it never
      asks for a later user to come before an earlier one. */
  lemma DescendingAgreesWithCompare(s: seq<User>)
    ensures Descending(s) <==> forall i, j :: 0 <= i < j < |s| ==> Compare(s[i], s[j]) <= 0
  {
  }

  /** Inserts `x` into a descending sequence before the first user with
      fewer points. */
  function Insert(x: User, s: seq<User>): (r: seq<User>)
    requires Descending(s)
    ensures Descending(r)
    ensures multiset(r) == multiset(s) + multiset{x}
    ensures |r| == |s| + 1
  {
    if |s| == 0 || Compare(x, s[0]) <= 0 then
      [x] + s
    else
      var t := Insert(x, s[1..]);
      assert s == [s[0]] + s[1..];
      forall k | 0 <= k < |t| ensures s[0].points >= t[k].points {
        assert t[k] in multiset(s[1..]) + multiset{x};
        if t[k] != x {
          assert t[k] in s[1..];
        }
      }
      [s[0]] + t
  }

  /** Sorts users by points, highest first. Users with equal points keep
      their relative order, as in the stable `Array.prototype.sort` of
      ECMAScript 2019. */
  function SortByKey(s: seq<User>): (r: seq<User>)
    ensures Descending(r)
    ensures multiset(r) == multiset(s)
    ensures |r| == |s|
  {
    if |s| == 0 then []
    else
      assert multiset(s) == multiset(s[1..]) + multiset{s[0]} by {
        assert s == [s[0]] + s[1..];
      }
      Insert(s[0], SortByKey(s[1..]))
  }

  /** Sorting a sequence that is already in order changes nothing. */
  lemma {:induction false} SortedIsFixpoint(s: seq<User>)
    requires Descending(s)
    ensures SortByKey(s) == s
  {
    if |s| > 0 {
      SortedIsFixpoint(s[1..]);
    }
  }

  /** Sorting twice is sorting once. */
  lemma SortIdempotent(s: seq<User>)
    ensures SortByKey(SortByKey(s)) == SortByKey(s)
  {
    SortedIsFixpoint(SortByKey(s));
  }
}
