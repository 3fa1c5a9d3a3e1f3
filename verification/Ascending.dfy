/** Strictly ascending lists of sequence numbers: sorting with duplicates removed, and its uniqueness. */
module Ascending {
  import opened Bytes

  predicate IsAscending(s: seq<U64>) {
    forall i, j :: 0 <= i < j < |s| ==> s[i] < s[j]
  }

  lemma AppendAscends(s: seq<U64>, x: U64)
    requires IsAscending(s) && forall y <- s :: y < x
    ensures IsAscending(s + [x])
  {
    assert forall i :: 0 <= i < |s| ==> s[i] in s;
  }

  predicate SameElements(a: seq<U64>, b: seq<U64>) {
    (forall x :: x in a ==> x in b) && (forall x :: x in b ==> x in a)
  }

  function Insert(x: U64, s: seq<U64>): (r: seq<U64>)
    requires IsAscending(s)
    ensures IsAscending(r) && SameElements(r, [x] + s)
  {
    if s == [] then [x]
    else if x < s[0] then [x] + s
    else if x == s[0] then s
    else
      var rest := Insert(x, s[1..]);
      assert forall j :: 0 <= j < |rest| ==> rest[j] in [x] + s[1..];
      [s[0]] + rest
  }

  /** The list sorted, with duplicates removed. */
  function SortUnique(s: seq<U64>): (r: seq<U64>)
    ensures IsAscending(r) && SameElements(r, s)
  {
    if s == [] then [] else Insert(s[0], SortUnique(s[1..]))
  }

  /** There is only one ascending list of given elements. */
  lemma {:induction false} AscendingIsUnique(a: seq<U64>, b: seq<U64>)
    requires IsAscending(a) && IsAscending(b) && SameElements(a, b)
    ensures a == b
    decreases |a|
  {
    var first := if b == [] then 0 else b[0];
    assert b != [] ==> first in b;
    if a != [] {
      assert a[0] in b && b[0] in a;
      TailElements(a);
      TailElements(b);
      AscendingIsUnique(a[1..], b[1..]);
      assert a == [a[0]] + a[1..] && b == [b[0]] + b[1..];
    }
  }

  lemma TailElements(s: seq<U64>)
    requires IsAscending(s) && s != []
    ensures forall x :: x in s[1..] <==> x in s && x != s[0]
    ensures forall x :: x in s ==> s[0] <= x
  {
    assert forall i :: 0 < i < |s| ==> s[i] == s[1..][i - 1];
  }

  lemma SortUniqueOfAscending(s: seq<U64>)
    requires IsAscending(s)
    ensures SortUnique(s) == s
  {
    AscendingIsUnique(SortUnique(s), s);
  }

  function Largest(s: seq<U64>): (m: U64)
    requires s != []
    ensures m in s && forall x <- s :: x <= m
  {
    if |s| == 1 then s[0]
    else
      var rest := Largest(s[1..]);
      assert forall x <- s :: x == s[0] || x in s[1..];
      if rest < s[0] then s[0] else rest
  }

  lemma LastIsLargest(s: seq<U64>)
    requires s != []
    ensures SortUnique(s) != [] && SortUnique(s)[|SortUnique(s)| - 1] == Largest(s)
  {
    var sorted := SortUnique(s);
    assert Largest(s) in sorted;
    assert sorted[|sorted| - 1] in s;
  }

  lemma NoElements(s: seq<U64>)
    requires forall x: U64 :: x !in s
    ensures s == []
  {
    AscendingIsUnique(SortUnique(s), []);
    assert multiset(s) == multiset{};
  }
}
