/**
  Sorting by a string key, as pandas does for `sort_index(axis='columns')` and for the
  keys of a `groupby`. The keys are distinct (column names, deduplicated stems), so the
  sorted order is strict and unique.
*/
module Sorting {
  import opened Strings

  predicate StrictlySorted<T>(s: seq<T>, key: T -> string) {
    forall i, j | 0 <= i < j < |s| :: Below(key(s[i]), key(s[j]))
  }

  predicate DistinctKeys<T>(s: seq<T>, key: T -> string) {
    forall i, j | 0 <= i < j < |s| :: key(s[i]) != key(s[j])
  }

  /** An element whose key is below every key of a sorted sequence can go in front of it. */
  lemma ConsSorted<T>(y: T, rest: seq<T>, key: T -> string)
    requires StrictlySorted(rest, key)
    requires forall i | 0 <= i < |rest| :: Below(key(y), key(rest[i]))
    ensures StrictlySorted([y] + rest, key)
  {
    var r := [y] + rest;
    forall i, j | 0 <= i < j < |r| ensures Below(key(r[i]), key(r[j])) {
      assert r[j] == rest[j - 1];
      if i > 0 {
        assert r[i] == rest[i - 1];
      }
    }
  }

  /** A key below the first key of a sorted sequence is below all of them. */
  lemma BelowFirst<T>(x: T, s: seq<T>, key: T -> string)
    requires s != [] && StrictlySorted(s, key) && Below(key(x), key(s[0]))
    ensures forall j | 0 <= j < |s| :: Below(key(x), key(s[j]))
  {
    forall j | 0 < j < |s| ensures Below(key(x), key(s[j])) {
      BelowTransitive(key(x), key(s[0]), key(s[j]));
    }
  }

  /** The first key of a sorted s is below every element of an insertion into its tail. */
  lemma BelowInserted<T>(x: T, s: seq<T>, rest: seq<T>, key: T -> string)
    requires s != [] && StrictlySorted(s, key) && Below(key(s[0]), key(x))
    requires forall i | 0 <= i < |rest| :: rest[i] == x || rest[i] in s[1..]
    ensures forall i | 0 <= i < |rest| :: Below(key(s[0]), key(rest[i]))
  {
    forall i | 0 <= i < |rest| ensures Below(key(s[0]), key(rest[i])) {
      if rest[i] != x {
        var j :| 0 <= j < |s[1..]| && s[1..][j] == rest[i];
        assert s[j + 1] == rest[i];
      }
    }
  }

  lemma ConsFrom<T>(x: T, s: seq<T>, rest: seq<T>)
    requires s != []
    requires forall i | 0 <= i < |rest| :: rest[i] == x || rest[i] in s[1..]
    ensures forall i | 0 <= i < |rest| + 1 :: ([s[0]] + rest)[i] == x || ([s[0]] + rest)[i] in s
  {
    forall i | 0 <= i < |rest| + 1 ensures ([s[0]] + rest)[i] == x || ([s[0]] + rest)[i] in s {
      if i > 0 {
        assert ([s[0]] + rest)[i] == rest[i - 1];
      }
    }
  }

  /** With distinct keys, no element of a permutation of the tail shares the head's key. */
  lemma TailKeysDiffer<T>(s: seq<T>, rest: seq<T>, key: T -> string)
    requires s != [] && DistinctKeys(s, key) && multiset(rest) == multiset(s[1..])
    ensures forall i | 0 <= i < |rest| :: key(rest[i]) != key(s[0])
  {
    forall i | 0 <= i < |rest| ensures key(rest[i]) != key(s[0]) {
      assert rest[i] in multiset(s[1..]);
      var j :| 0 <= j < |s[1..]| && s[1..][j] == rest[i];
      assert s[j + 1] == rest[i];
    }
  }

  lemma TailSorted<T>(s: seq<T>, key: T -> string)
    requires s != [] && StrictlySorted(s, key)
    ensures StrictlySorted(s[1..], key)
  {
    forall i, j | 0 <= i < j < |s[1..]| ensures Below(key(s[1..][i]), key(s[1..][j])) {
      assert s[1..][i] == s[i + 1] && s[1..][j] == s[j + 1];
    }
  }

  function Insert<T(==)>(x: T, s: seq<T>, key: T -> string): (r: seq<T>)
    requires StrictlySorted(s, key)
    requires forall i | 0 <= i < |s| :: key(s[i]) != key(x)
    ensures |r| == |s| + 1
    ensures multiset(r) == multiset(s) + multiset{x}
    ensures forall i | 0 <= i < |r| :: r[i] == x || r[i] in s
    ensures StrictlySorted(r, key)
  {
    if s == [] then [x]
    else if Below(key(x), key(s[0])) then
      BelowFirst(x, s, key);
      ConsSorted(x, s, key);
      [x] + s
    else
      BelowTotal(key(x), key(s[0]));
      TailSorted(s, key);
      assert forall i | 0 <= i < |s[1..]| :: key(s[1..][i]) != key(x) by {
        forall i | 0 <= i < |s[1..]| ensures key(s[1..][i]) != key(x) {
          assert s[1..][i] == s[i + 1];
        }
      }
      var rest := Insert(x, s[1..], key);
      assert s == [s[0]] + s[1..];
      BelowInserted(x, s, rest, key);
      ConsSorted(s[0], rest, key);
      ConsFrom(x, s, rest);
      [s[0]] + rest
  }

  /** The elements of s ordered by strictly increasing key. */
  function SortBy<T(==)>(s: seq<T>, key: T -> string): (r: seq<T>)
    requires DistinctKeys(s, key)
    ensures |r| == |s|
    ensures multiset(r) == multiset(s)
    ensures StrictlySorted(r, key)
  {
    if s == [] then []
    else
      var rest := SortBy(s[1..], key);
      TailKeysDiffer(s, rest, key);
      assert s == [s[0]] + s[1..];
      Insert(s[0], rest, key)
  }

  /** Every element of the sorted sequence comes from the input. */
  lemma SortByElement<T>(s: seq<T>, key: T -> string, i: nat)
    requires DistinctKeys(s, key) && i < |s|
    ensures SortBy(s, key)[i] in s
  {
    assert SortBy(s, key)[i] in multiset(SortBy(s, key));
  }
}
