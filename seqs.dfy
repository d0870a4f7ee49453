/** Small facts about sequences and sets used by the graph model. */
module Seqs {

  datatype Option<+T> = None | Some(value: T)

  /** No element occurs twice in `s`. */
  predicate NoDuplicates<T(==)>(s: seq<T>) {
    forall i, j :: 0 <= i < j < |s| ==> s[i] != s[j]
  }

  /** The set of elements of `s`. */
  function Elements<T>(s: seq<T>): set<T> {
    set x | x in s
  }

  /** The position of the first occurrence of `x` in `s`. */
  function IndexOf<T(==)>(s: seq<T>, x: T): (i: nat)
    requires x in s
    ensures i < |s| && s[i] == x
    ensures forall k :: 0 <= k < i ==> s[k] != x
  {
    if s[0] == x then 0 else 1 + IndexOf(s[1..], x)
  }

  lemma {:induction false} SubsetCard<T>(a: set<T>, b: set<T>)
    requires a <= b
    ensures |a| <= |b|
  {
    if a != {} {
      var x :| x in a;
      SubsetCard(a - {x}, b - {x});
    }
  }

  /** A sequence without duplicates has as many elements as its length. */
  lemma {:induction false} DistinctCard<T>(s: seq<T>)
    requires NoDuplicates(s)
    ensures |Elements(s)| == |s|
  {
    if s != [] {
      DistinctCard(s[1..]);
      assert Elements(s) == Elements(s[1..]) + {s[0]};
      assert s[0] !in Elements(s[1..]);
    }
  }

  /** A sequence longer than the set it draws from repeats an element. */
  lemma Pigeonhole<T>(s: seq<T>, r: set<T>)
    requires forall k :: 0 <= k < |s| ==> s[k] in r
    requires |s| > |r|
    ensures exists i, j :: 0 <= i < j < |s| && s[i] == s[j]
  {
    if !exists i, j :: 0 <= i < j < |s| && s[i] == s[j] {
      DistinctCard(s);
      SubsetCard(Elements(s), r);
    }
  }

  /** In a sequence without duplicates every element occurs exactly once. */
  lemma {:induction false} DistinctCount<T>(s: seq<T>, x: T)
    requires NoDuplicates(s)
    ensures multiset(s)[x] == if x in s then 1 else 0
  {
    if s != [] {
      DistinctCount(s[1..], x);
      assert s == [s[0]] + s[1..];
      assert multiset(s) == multiset{s[0]} + multiset(s[1..]);
    }
  }

  /** Two duplicate-free sequences with the same elements are permutations of each other. */
  lemma DistinctPermutation<T>(s: seq<T>, t: seq<T>)
    requires NoDuplicates(s) && NoDuplicates(t)
    requires forall x :: x in s <==> x in t
    ensures multiset(s) == multiset(t)
  {
    forall x ensures multiset(s)[x] == multiset(t)[x] {
      DistinctCount(s, x);
      DistinctCount(t, x);
    }
  }
}
