/** Ascending order on 16-bit values, as `sort.Slice` with `<` produces it
    (fp.go:313-314). The order is total on values, so the sorted list is
    unique and stability does not matter. */
module Sorting {
  import opened Bytes

  predicate Sorted(s: seq<uint16>) {
    forall i, j :: 0 <= i < j < |s| ==> s[i] <= s[j]
  }

  /** `x` put in place in an ascending list. */
  function Insert(x: uint16, s: seq<uint16>): (r: seq<uint16>)
    requires Sorted(s)
    ensures Sorted(r)
    ensures multiset(r) == multiset(s) + multiset{x}
  {
    if s == [] || x <= s[0] then
      assert forall k :: 0 <= k < |s| ==> s[0] <= s[k];
      ConsSorted(x, s);
      [x] + s
    else
      var rest := Insert(x, s[1..]);
      assert s == [s[0]] + s[1..];
      LowerBound(s[0], rest, multiset(s[1..]) + multiset{x});
      ConsSorted(s[0], rest);
      [s[0]] + rest
  }

  lemma ConsSorted(h: uint16, t: seq<uint16>)
    requires Sorted(t)
    requires forall k :: 0 <= k < |t| ==> h <= t[k]
    ensures Sorted([h] + t)
  {
  }

  /** A bound on every value of a bag bounds every element of a list
      holding that bag. */
  lemma LowerBound(lo: uint16, r: seq<uint16>, m: multiset<uint16>)
    requires multiset(r) == m
    requires forall v :: v in m ==> lo <= v
    ensures forall k :: 0 <= k < |r| ==> lo <= r[k]
  {
    forall k | 0 <= k < |r| ensures lo <= r[k] {
      assert r[k] in multiset(r);
    }
  }

  /** The values in ascending order. */
  function Sort(s: seq<uint16>): (r: seq<uint16>)
    ensures Sorted(r)
    ensures multiset(r) == multiset(s)
  {
    if s == [] then []
    else
      assert s == [s[0]] + s[1..];
      Insert(s[0], Sort(s[1..]))
  }

  /** Two ascending lists holding the same values are the same list. */
  lemma {:induction false} SortedUnique(a: seq<uint16>, b: seq<uint16>)
    requires Sorted(a) && Sorted(b) && multiset(a) == multiset(b)
    ensures a == b
  {
    if a != [] {
      assert b != [] by { assert |multiset(b)| == |multiset(a)|; }
      SameHead(a, b);
      assert a == [a[0]] + a[1..];
      assert b == [b[0]] + b[1..];
      assert multiset(a[1..]) == multiset(a) - multiset{a[0]};
      assert multiset(b[1..]) == multiset(b) - multiset{b[0]};
      SortedUnique(a[1..], b[1..]);
    }
  }

  /** The least value of the bag heads both lists. */
  lemma SameHead(a: seq<uint16>, b: seq<uint16>)
    requires Sorted(a) && Sorted(b) && multiset(a) == multiset(b)
    requires a != [] && b != []
    ensures a[0] == b[0]
  {
    assert a[0] in multiset(b);
    assert b[0] in multiset(a);
    var i :| 0 <= i < |b| && b[i] == a[0];
    var j :| 0 <= j < |a| && a[j] == b[0];
    assert b[0] <= b[i] && a[0] <= a[j];
  }

  /** Sorting forgets the original order: permutations sort alike. */
  lemma {:induction false} SortPermutation(a: seq<uint16>, b: seq<uint16>)
    requires multiset(a) == multiset(b)
    ensures Sort(a) == Sort(b)
  {
    SortedUnique(Sort(a), Sort(b));
  }
}
