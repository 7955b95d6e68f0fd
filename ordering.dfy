/**
  Orders the store relies on: JavaScript's `<` on strings (element ids are
  compared by it when a catch-up snapshot is built) and the stable ascending
  sort by a numeric key that `Array.prototype.sort` performs when old
  elements are evicted.
  */
module Ordering {

  /** JavaScript `a < b` on strings: lexicographic order on characters, a
      proper prefix coming first. */
  predicate StringLess(a: string, b: string)
    decreases |a|
  {
    && |b| > 0
    && (|a| == 0 || a[0] < b[0] || (a[0] == b[0] && StringLess(a[1..], b[1..])))
  }

  lemma {:induction false} StringLessIrreflexive(a: string)
    ensures !StringLess(a, a)
    decreases |a|
  {
    if |a| > 0 {
      StringLessIrreflexive(a[1..]);
    }
  }

  lemma {:induction false} StringLessTransitive(a: string, b: string, c: string)
    requires StringLess(a, b) && StringLess(b, c)
    ensures StringLess(a, c)
    decreases |a|
  {
    if |a| > 0 && a[0] == b[0] && b[0] == c[0] {
      StringLessTransitive(a[1..], b[1..], c[1..]);
    }
  }

  /** Any two different ids are ordered one way or the other, and never both. */
  lemma {:induction false} StringLessTotal(a: string, b: string)
    ensures a == b || StringLess(a, b) || StringLess(b, a)
    ensures !(StringLess(a, b) && StringLess(b, a))
    decreases |a|
  {
    if |a| > 0 && |b| > 0 && a[0] == b[0] {
      StringLessTotal(a[1..], b[1..]);
      if a[1..] == b[1..] {
        assert a == [a[0]] + a[1..] && b == [b[0]] + b[1..];
      }
    }
  }

  // ---------------------------------------------------------------------------
  // Sorting ids by a numeric key.

  /** The key of an id; ids the table does not know sort as 0. */
  function KeyOf(key: map<string, int>, id: string): int {
    if id in key then key[id] else 0
  }

  predicate SortedBy(s: seq<string>, key: map<string, int>) {
    forall i, j :: 0 <= i < j < |s| ==> KeyOf(key, s[i]) <= KeyOf(key, s[j])
  }

  predicate Distinct(s: seq<string>) {
    forall i, j :: 0 <= i < j < |s| ==> s[i] != s[j]
  }

  /** Insert `x` before the first entry whose key is not smaller; entries that
      were already in `s` keep their relative order. */
  function InsertBy(x: string, s: seq<string>, key: map<string, int>): (r: seq<string>)
    ensures multiset(r) == multiset(s) + multiset{x}
    ensures |r| == |s| + 1
  {
    if s == [] || KeyOf(key, x) <= KeyOf(key, s[0]) then
      [x] + s
    else
      assert s == [s[0]] + s[1..];
      [s[0]] + InsertBy(x, s[1..], key)
  }

  lemma {:induction false} InsertBySorted(x: string, s: seq<string>, key: map<string, int>)
    requires SortedBy(s, key)
    ensures SortedBy(InsertBy(x, s, key), key)
  {
    if s != [] && KeyOf(key, x) > KeyOf(key, s[0]) {
      var rest := InsertBy(x, s[1..], key);
      InsertBySorted(x, s[1..], key);
      forall i | 0 <= i < |rest| ensures KeyOf(key, s[0]) <= KeyOf(key, rest[i]) {
        assert rest[i] in multiset(rest);
        assert rest[i] == x || rest[i] in s[1..];
      }
    }
  }

  lemma {:induction false} InsertByDistinct(x: string, s: seq<string>, key: map<string, int>)
    requires Distinct(s) && x !in s
    ensures Distinct(InsertBy(x, s, key))
  {
    if s != [] && KeyOf(key, x) > KeyOf(key, s[0]) {
      var rest := InsertBy(x, s[1..], key);
      InsertByDistinct(x, s[1..], key);
      forall y | y in rest ensures y == x || y in s[1..] {
        assert y in multiset(rest);
      }
      assert s[0] !in s[1..];
    }
  }

  /** Stable ascending sort by key (an insertion sort): a permutation of `s`. */
  function SortBy(s: seq<string>, key: map<string, int>): (r: seq<string>)
    ensures multiset(r) == multiset(s)
    ensures |r| == |s|
  {
    if s == [] then []
    else
      assert s == [s[0]] + s[1..];
      InsertBy(s[0], SortBy(s[1..], key), key)
  }

  /** The sort puts the ids in ascending key order, without repeating any. */
  lemma {:induction false} SortByOrdered(s: seq<string>, key: map<string, int>)
    ensures SortedBy(SortBy(s, key), key)
    ensures Distinct(s) ==> Distinct(SortBy(s, key))
  {
    if s != [] {
      var rest := SortBy(s[1..], key);
      SortByOrdered(s[1..], key);
      InsertBySorted(s[0], rest, key);
      if Distinct(s) {
        assert s[0] !in s[1..];
        assert s[0] !in multiset(rest);
        InsertByDistinct(s[0], rest, key);
      }
    }
  }

  /** A sequence without repetitions has as many distinct members as entries. */
  lemma {:induction false} DistinctCardinality(s: seq<string>)
    requires Distinct(s)
    ensures |set x | x in s| == |s|
  {
    if s != [] {
      DistinctCardinality(s[1..]);
      assert (set x | x in s) == {s[0]} + (set x | x in s[1..]);
      assert s[0] !in (set x | x in s[1..]);
    }
  }
}
