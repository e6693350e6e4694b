/**
 * Python's `sorted(xs, key=...)` for string keys, and the duplicate removal
 * of pandas' `unique()`, which keeps first occurrences in order.
 */
module Sorting {
  import opened Text

  ghost predicate SortedBy<T>(s: seq<T>, key: T -> string)
  {
    forall i, j :: 0 <= i < j < |s| ==> Below(key(s[i]), key(s[j]))
  }

  /** Strictly ascending strings: each below the next and none repeated. */
  ghost predicate StrictlyAscending(s: seq<string>)
  {
    forall i, j :: 0 <= i < j < |s| ==> Below(s[i], s[j]) && s[i] != s[j]
  }

  ghost predicate Distinct<T>(s: seq<T>)
  {
    forall i, j :: 0 <= i < j < |s| ==> s[i] != s[j]
  }

  /** Insert `x` in front of the first element whose key is strictly above it. */
  function Insert<T>(x: T, s: seq<T>, key: T -> string): (r: seq<T>)
    requires SortedBy(s, key)
    ensures SortedBy(r, key)
    ensures multiset(r) == multiset(s) + multiset{x}
  {
    if s == [] then
      [x]
    else if Below(key(x), key(s[0])) then
      InsertFront(x, s, key);
      [x] + s
    else
      var rest := Insert(x, s[1..], key);
      InsertLater(x, s, rest, key);
      [s[0]] + rest
  }

  lemma InsertFront<T>(x: T, s: seq<T>, key: T -> string)
    requires s != [] && SortedBy(s, key) && Below(key(x), key(s[0]))
    ensures SortedBy([x] + s, key)
  {
    BelowAllAfterHead(key(x), s, key);
  }

  lemma InsertLater<T>(x: T, s: seq<T>, rest: seq<T>, key: T -> string)
    requires s != [] && SortedBy(s, key) && !Below(key(x), key(s[0]))
    requires SortedBy(rest, key) && multiset(rest) == multiset(s[1..]) + multiset{x}
    ensures SortedBy([s[0]] + rest, key)
    ensures multiset([s[0]] + rest) == multiset(s) + multiset{x}
  {
    BelowTotal(key(x), key(s[0]));
    assert forall y | y in multiset(rest) :: y == x || y in s[1..];
    assert s == [s[0]] + s[1..];
    HeadBelowAll(s[0], rest, key);
  }

  lemma BelowAllAfterHead<T>(k: string, s: seq<T>, key: T -> string)
    requires s != [] && SortedBy(s, key) && Below(k, key(s[0]))
    ensures forall j :: 0 <= j < |s| ==> Below(k, key(s[j]))
  {
    forall j | 0 <= j < |s| ensures Below(k, key(s[j])) {
      if j > 0 {
        BelowTransitive(k, key(s[0]), key(s[j]));
      }
    }
  }

  lemma HeadBelowAll<T>(h: T, rest: seq<T>, key: T -> string)
    requires SortedBy(rest, key)
    requires forall y | y in multiset(rest) :: Below(key(h), key(y))
    ensures SortedBy([h] + rest, key)
  {
  }

  /** Stable insertion sort by `key`: sorted, and a permutation of the input. */
  function Sort<T>(s: seq<T>, key: T -> string): (r: seq<T>)
    ensures SortedBy(r, key)
    ensures multiset(r) == multiset(s)
  {
    if s == [] then []
    else
      assert s == [s[0]] + s[1..];
      Insert(s[0], Sort(s[1..], key), key)
  }

  /** The elements of `s`, each kept at its first occurrence. */
  function Unique(s: seq<string>): (r: seq<string>)
    ensures Distinct(r)
    ensures forall x :: x in r <==> x in s
  {
    if s == [] then []
    else
      var prev := Unique(s[..|s| - 1]);
      assert s == s[..|s| - 1] + [s[|s| - 1]];
      if s[|s| - 1] in prev then prev else prev + [s[|s| - 1]]
  }

  lemma {:induction false} DistinctCounts<T>(s: seq<T>)
    requires Distinct(s)
    ensures forall x :: multiset(s)[x] <= 1
  {
    if s != [] {
      assert s == [s[0]] + s[1..];
      DistinctCounts(s[1..]);
      assert s[0] !in s[1..];
    }
  }

  lemma RepeatCounts<T>(s: seq<T>, i: int, j: int)
    requires 0 <= i < j < |s| && s[i] == s[j]
    ensures multiset(s)[s[i]] >= 2
  {
    assert s == s[..j] + s[j..];
    assert s[i] in s[..j];
    assert s[j] in s[j..];
  }

  /** A permutation of a sequence without repeats has no repeats either. */
  lemma DistinctPermutation<T>(a: seq<T>, b: seq<T>)
    requires Distinct(a) && multiset(a) == multiset(b)
    ensures Distinct(b)
  {
    DistinctCounts(a);
    forall i, j | 0 <= i < j < |b| ensures b[i] != b[j] {
      if b[i] == b[j] {
        RepeatCounts(b, i, j);
      }
    }
  }

  /** A sequence without repeats has as many elements as its set. */
  lemma {:induction false} DistinctCardinality<T>(s: seq<T>)
    requires Distinct(s)
    ensures |set x | x in s| == |s|
  {
    if s != [] {
      var t := s[1..];
      DistinctCardinality(t);
      assert (set x | x in s) == (set x | x in t) + {s[0]};
      assert s[0] !in t;
    }
  }
}
