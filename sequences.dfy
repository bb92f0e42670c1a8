/**
 * The LINQ operators the repositories and services compose: `Distinct`,
 * `Where`, `Skip`, `Take`, `OrderBy` and an unordered table scan.
 */
module Sequences {

  predicate NoDuplicates<T(==)>(s: seq<T>)
  {
    forall i, j :: 0 <= i < j < |s| ==> s[i] != s[j]
  }

  /**
   * `Distinct()`: each element once, at the position of its first
   * occurrence.
   */
  function Distinct<T(==,!new)>(s: seq<T>): (r: seq<T>)
    ensures NoDuplicates(r)
    ensures forall x :: x in r <==> x in s
    ensures |r| <= |s|
    ensures s == [] <==> r == []
  {
    if s == [] then []
    else
      var d := Distinct(s[..|s| - 1]);
      assert s == s[..|s| - 1] + [s[|s| - 1]];
      if s[|s| - 1] in d then d else d + [s[|s| - 1]]
  }

  /** Distinct leaves a sequence without duplicates as it is. */
  lemma {:induction false} DistinctOfDistinct<T(!new)>(s: seq<T>)
    requires NoDuplicates(s)
    ensures Distinct(s) == s
  {
    if s != [] {
      var p := s[..|s| - 1];
      assert NoDuplicates(p);
      DistinctOfDistinct(p);
      assert s[|s| - 1] !in p;
      assert s == p + [s[|s| - 1]];
    }
  }

  /** `Where(p)`: the elements satisfying `p`, in their order. */
  function Where<T(!new)>(s: seq<T>, p: T -> bool): (r: seq<T>)
    ensures |r| <= |s|
    ensures forall x :: x in r <==> x in s && p(x)
    ensures NoDuplicates(s) ==> NoDuplicates(r)
  {
    if s == [] then []
    else
      var rest := Where(s[1..], p);
      assert forall x :: x in s[1..] ==> x in s;
      if p(s[0]) then [s[0]] + rest else rest
  }

  /**
   * `Skip(n)` as SQLite evaluates `OFFSET n`: a negative offset skips nothing.
   */
  function Drop<T>(s: seq<T>, n: int): (r: seq<T>)
    ensures n <= 0 ==> r == s
    ensures 0 <= n <= |s| ==> r == s[n..]
    ensures n >= |s| ==> r == []
  {
    if n <= 0 then s else if n >= |s| then [] else s[n..]
  }

  /**
   * `Take(n)` as SQLite evaluates `LIMIT n`: a negative limit means no limit.
   */
  function Limit<T>(s: seq<T>, n: int): (r: seq<T>)
    ensures n < 0 ==> r == s
    ensures 0 <= n <= |s| ==> r == s[..n]
    ensures n >= |s| ==> r == s
  {
    if n < 0 || n >= |s| then s else s[..n]
  }

  // ---------------------------------------------------------------------
  // Ordering

  /** Every two elements are comparable. */
  ghost predicate Total<T(!new)>(le: (T, T) -> bool)
  {
    forall a, b :: le(a, b) || le(b, a)
  }

  /** Consecutive elements are in order. */
  predicate Sorted<T>(s: seq<T>, le: (T, T) -> bool)
  {
    forall i :: 0 < i < |s| ==> le(s[i - 1], s[i])
  }

  /**
   * Inserts `x` before the first element it orders before, so that it
   * follows every element it ties with (the insertion keeps the sort stable).
   */
  function Insert<T>(x: T, s: seq<T>, le: (T, T) -> bool): (r: seq<T>)
    ensures multiset(r) == multiset(s) + multiset{x}
    ensures |r| == |s| + 1
  {
    if s == [] then [x]
    else if le(x, s[0]) && !le(s[0], x) then [x] + s
    else
      assert s == [s[0]] + s[1..];
      [s[0]] + Insert(x, s[1..], le)
  }

  /** `OrderBy` with the comparison `le`, stable with respect to `s`. */
  function SortBy<T>(s: seq<T>, le: (T, T) -> bool): (r: seq<T>)
    ensures multiset(r) == multiset(s)
    ensures |r| == |s|
  {
    if s == [] then []
    else
      assert s == [s[0]] + s[1..];
      Insert(s[0], SortBy(s[1..], le), le)
  }

  lemma {:induction false} InsertSorted<T(!new)>(x: T, s: seq<T>, le: (T, T) -> bool)
    requires Total(le) && Sorted(s, le)
    ensures Sorted(Insert(x, s, le), le)
  {
    if s != [] && !(le(x, s[0]) && !le(s[0], x)) {
      var tail := s[1..];
      assert Sorted(tail, le) by {
        forall i | 0 < i < |tail|
          ensures le(tail[i - 1], tail[i])
        {
          assert tail[i - 1] == s[i] && tail[i] == s[i + 1];
        }
      }
      InsertSorted(x, tail, le);
      var rest := Insert(x, tail, le);
      assert le(s[0], x);
      assert rest[0] == x || (tail != [] && rest[0] == tail[0]) by {
        if tail != [] && !(le(x, tail[0]) && !le(tail[0], x)) {
          assert rest[0] == tail[0];
        }
      }
      var r := [s[0]] + rest;
      forall i | 0 < i < |r|
        ensures le(r[i - 1], r[i])
      {
        if i == 1 {
          assert r[0] == s[0] && r[1] == rest[0];
        } else {
          assert r[i - 1] == rest[i - 2] && r[i] == rest[i - 1];
        }
      }
    } else if s != [] {
      var r := [x] + s;
      forall i | 0 < i < |r|
        ensures le(r[i - 1], r[i])
      {
        if i > 1 {
          assert r[i - 1] == s[i - 2] && r[i] == s[i - 1];
        }
      }
    }
  }

  /** With a total comparison, `SortBy` yields a sorted permutation of its input. */
  lemma {:induction false} SortBySorted<T(!new)>(s: seq<T>, le: (T, T) -> bool)
    requires Total(le)
    ensures Sorted(SortBy(s, le), le)
  {
    if s != [] {
      SortBySorted(s[1..], le);
      InsertSorted(s[0], SortBy(s[1..], le), le);
    }
  }

  /** A permutation of a sequence without duplicates has none either. */
  lemma PermutationNoDuplicates<T>(s: seq<T>, r: seq<T>)
    requires multiset(r) == multiset(s) && NoDuplicates(s)
    ensures NoDuplicates(r)
  {
    forall x | x in multiset(s)
      ensures multiset(s)[x] == 1
    {
      DistinctCount(s, x);
    }
    forall i, j | 0 <= i < j < |r|
      ensures r[i] != r[j]
    {
      RepeatedCount(r, i, j);
    }
  }

  /** A sequence without duplicates has exactly as many elements as its set of elements. */
  lemma {:induction false} DistinctCardinality<T>(s: seq<T>)
    requires NoDuplicates(s)
    ensures |set x | x in s| == |s|
  {
    if s != [] {
      var tail := s[1..];
      assert NoDuplicates(tail) by {
        forall i, j | 0 <= i < j < |tail|
          ensures tail[i] != tail[j]
        {
          assert tail[i] == s[i + 1] && tail[j] == s[j + 1];
        }
      }
      DistinctCardinality(tail);
      assert s[0] !in tail;
      assert (set x | x in s) == (set x | x in tail) + {s[0]};
    }
  }

  /** A slice of a sequence without duplicates has none either. */
  lemma NoDuplicatesSlice<T>(s: seq<T>, lo: int, hi: int)
    requires NoDuplicates(s) && 0 <= lo <= hi <= |s|
    ensures NoDuplicates(s[lo..hi])
  {
    var r := s[lo..hi];
    forall i, j | 0 <= i < j < |r|
      ensures r[i] != r[j]
    {
      assert r[i] == s[lo + i] && r[j] == s[lo + j];
    }
  }

  lemma RepeatedCount<T>(r: seq<T>, i: int, j: int)
    requires 0 <= i < j < |r|
    ensures r[i] == r[j] ==> multiset(r)[r[i]] >= 2
  {
    assert r == r[..j] + [r[j]] + r[j + 1..];
    assert r[i] in r[..j];
  }

  lemma {:induction false} DistinctCount<T>(s: seq<T>, x: T)
    requires NoDuplicates(s) && x in s
    ensures multiset(s)[x] == 1
  {
    if s[0] == x {
      assert s == [x] + s[1..];
      assert x !in s[1..];
    } else {
      assert s == [s[0]] + s[1..];
      assert NoDuplicates(s[1..]);
      DistinctCount(s[1..], x);
    }
  }

  // ---------------------------------------------------------------------
  // Table scans

  /**
   * The keys of a table in the order a full scan happens to meet them:
   * each key exactly once, in an order the model leaves open.
   */
  method Enumerate<K, V>(m: map<K, V>) returns (keys: seq<K>)
    ensures NoDuplicates(keys)
    ensures forall k :: k in keys <==> k in m
  {
    keys := [];
    var rest := m.Keys;
    while rest != {}
      invariant rest <= m.Keys
      invariant NoDuplicates(keys)
      invariant forall k :: k in keys <==> k in m && k !in rest
      decreases |rest|
    {
      var k :| k in rest;
      keys := keys + [k];
      rest := rest - {k};
    }
  }
}
