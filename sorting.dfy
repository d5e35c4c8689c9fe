// Python's built-in `sorted`, which the search engines apply to the
// lists they return, modelled as an insertion sort on integer sequences.
module Sorting {

  /** Non-decreasing order. */
  predicate Ascending(s: seq<int>)
  {
    forall i, j :: 0 <= i < j < |s| ==> s[i] <= s[j]
  }

  /** Strictly increasing order (ascending with no repetition). */
  predicate StrictlyAscending(s: seq<int>)
  {
    forall i, j :: 0 <= i < j < |s| ==> s[i] < s[j]
  }

  /** No element occurs twice. */
  predicate Distinct(s: seq<int>)
  {
    forall i, j :: 0 <= i < j < |s| ==> s[i] != s[j]
  }

  /** Inserts x in front of the first element that is not smaller than x. */
  function Insert(x: int, s: seq<int>): (r: seq<int>)
    ensures |r| == |s| + 1
    ensures multiset(r) == multiset(s) + multiset{x}
  {
    if s == [] || x <= s[0] then [x] + s
    else
      assert s == [s[0]] + s[1..];
      [s[0]] + Insert(x, s[1..])
  }

  /** Insertion keeps a sequence in order, strictly so when x is new. */
  lemma {:induction false} InsertOrdered(x: int, s: seq<int>)
    ensures Ascending(s) ==> Ascending(Insert(x, s))
    ensures StrictlyAscending(s) && x !in s ==> StrictlyAscending(Insert(x, s))
  {
    if s != [] && x > s[0] {
      var rest := Insert(x, s[1..]);
      InsertOrdered(x, s[1..]);
      assert Insert(x, s) == [s[0]] + rest;
      if Ascending(s) {
        assert Ascending(s[1..]);
        InsertAbove(x, s[1..], s[0]);
        HeadBelow(s[0], rest);
      }
      if StrictlyAscending(s) && x !in s {
        assert StrictlyAscending(s[1..]);
        InsertAbove(x, s[1..], s[0] + 1);
        StrictHeadBelow(s[0], rest);
      }
    }
  }

  /** A lower bound of x and of every element of s bounds Insert(x, s). */
  lemma {:induction false} InsertAbove(x: int, s: seq<int>, b: int)
    requires b <= x && forall k :: 0 <= k < |s| ==> b <= s[k]
    ensures forall k :: 0 <= k < |Insert(x, s)| ==> b <= Insert(x, s)[k]
  {
    if s != [] && x > s[0] {
      InsertAbove(x, s[1..], b);
      assert Insert(x, s) == [s[0]] + Insert(x, s[1..]);
    }
  }

  /** A head no larger than an ascending tail gives an ascending list. */
  lemma HeadBelow(h: int, rest: seq<int>)
    requires Ascending(rest) && forall k :: 0 <= k < |rest| ==> h <= rest[k]
    ensures Ascending([h] + rest)
  {
    var t := [h] + rest;
    forall i, j | 0 <= i < j < |t| ensures t[i] <= t[j] {
      assert t[j] == rest[j - 1];
      if i > 0 {
        assert t[i] == rest[i - 1];
      }
    }
  }

  /** A head smaller than a strictly ascending tail gives a strictly
      ascending list. */
  lemma StrictHeadBelow(h: int, rest: seq<int>)
    requires StrictlyAscending(rest) && forall k :: 0 <= k < |rest| ==> h < rest[k]
    ensures StrictlyAscending([h] + rest)
  {
    var t := [h] + rest;
    forall i, j | 0 <= i < j < |t| ensures t[i] < t[j] {
      assert t[j] == rest[j - 1];
      if i > 0 {
        assert t[i] == rest[i - 1];
      }
    }
  }

  /** The sorted permutation of s. */
  function Sort(s: seq<int>): (r: seq<int>)
    ensures |r| == |s|
    ensures multiset(r) == multiset(s)
    ensures Ascending(r)
  {
    if s == [] then []
    else
      assert s == [s[0]] + s[1..];
      InsertOrdered(s[0], Sort(s[1..]));
      Insert(s[0], Sort(s[1..]))
  }

  /** Sorting a list without repetitions gives a strictly increasing list. */
  lemma {:induction false} SortDistinct(s: seq<int>)
    requires Distinct(s)
    ensures StrictlyAscending(Sort(s))
  {
    if s != [] {
      var rest := Sort(s[1..]);
      SortDistinct(s[1..]);
      InsertOrdered(s[0], rest);
      forall j | 0 <= j < |s[1..]|
        ensures s[1..][j] != s[0]
      {
        assert s[1..][j] == s[j + 1];
      }
      assert s[0] !in multiset(s[1..]);
      assert s[0] !in rest by {
        assert s[0] !in multiset(rest);
      }
    }
  }

  /** Membership is preserved by sorting. */
  lemma SortMembers(s: seq<int>)
    ensures forall y :: y in Sort(s) <==> y in s
  {
    var r := Sort(s);
    forall y ensures y in r <==> y in s {
      assert y in r <==> y in multiset(r);
      assert y in s <==> y in multiset(s);
    }
  }
}
