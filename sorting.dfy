/** Python's `list.sort(reverse=True)` on a list of rod masks, as a pure function. */
module Sorting {

  predicate SortedDesc(s: seq<nat>)
  {
    forall i, j :: 0 <= i < j < |s| ==> s[i] >= s[j]
  }

  /** Inserts x in front of the first element it is not smaller than. */
  function Insert(x: nat, s: seq<nat>): (r: seq<nat>)
    ensures |r| == |s| + 1
    ensures multiset(r) == multiset(s) + multiset{x}
  {
    if s == [] || x >= s[0] then [x] + s
    else
      assert s == [s[0]] + s[1..];
      [s[0]] + Insert(x, s[1..])
  }

  /** Inserting into a descending sequence keeps it descending. */
  lemma {:induction false} InsertSorted(x: nat, s: seq<nat>)
    requires SortedDesc(s)
    ensures SortedDesc(Insert(x, s))
  {
    if s != [] && x < s[0] {
      InsertSorted(x, s[1..]);
      forall k | 0 <= k < |s[1..]|
        ensures s[1..][k] <= s[0]
      {
        assert s[1..][k] == s[k + 1];
      }
      BoundedByMultiset(Insert(x, s[1..]), s[1..], x, s[0]);
    }
  }

  /** A sequence holding the elements of u and x is bounded by any bound of both. */
  lemma BoundedByMultiset(t: seq<nat>, u: seq<nat>, x: nat, b: nat)
    requires multiset(t) == multiset(u) + multiset{x}
    requires x <= b && forall k :: 0 <= k < |u| ==> u[k] <= b
    ensures forall k :: 0 <= k < |t| ==> t[k] <= b
  {
    forall k | 0 <= k < |t|
      ensures t[k] <= b
    {
      assert t[k] in multiset(t);
      if t[k] != x {
        assert t[k] in multiset(u);
        var i :| 0 <= i < |u| && u[i] == t[k];
      }
    }
  }

  /** The descending sort of s. */
  function SortDesc(s: seq<nat>): (r: seq<nat>)
    ensures |r| == |s|
    ensures SortedDesc(r)
    ensures multiset(r) == multiset(s)
  {
    if s == [] then []
    else
      assert s == [s[0]] + s[1..];
      InsertSorted(s[0], SortDesc(s[1..]));
      Insert(s[0], SortDesc(s[1..]))
  }

  /** Two descending orderings of one multiset start with the same, largest, element. */
  lemma SortedHead(s: seq<nat>, t: seq<nat>)
    requires SortedDesc(s) && SortedDesc(t)
    requires multiset(s) == multiset(t) && s != []
    ensures t != [] && s[0] == t[0]
  {
    assert s[0] in multiset(t);
    var i :| 0 <= i < |t| && t[i] == s[0];
    assert t[0] in multiset(s);
    var j :| 0 <= j < |s| && s[j] == t[0];
    assert s[0] >= s[j] && t[0] >= t[i];
  }

  /** A descending sequence is determined by its multiset of elements. */
  lemma {:induction false} SortedUnique(s: seq<nat>, t: seq<nat>)
    requires SortedDesc(s) && SortedDesc(t)
    requires multiset(s) == multiset(t)
    ensures s == t
  {
    if s == [] {
      assert |t| == |multiset(t)| == 0;
    } else {
      SortedHead(s, t);
      assert s == [s[0]] + s[1..];
      assert t == [t[0]] + t[1..];
      assert multiset(s[1..]) == multiset(s) - multiset{s[0]};
      assert multiset(t[1..]) == multiset(t) - multiset{t[0]};
      SortedUnique(s[1..], t[1..]);
    }
  }

  /** Sorting depends only on the multiset of the input: any permutation sorts alike. */
  lemma SortDescPermutation(s: seq<nat>, t: seq<nat>)
    requires multiset(s) == multiset(t)
    ensures SortDesc(s) == SortDesc(t)
  {
    SortedUnique(SortDesc(s), SortDesc(t));
  }
}
