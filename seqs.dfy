/** Sequence queries the store performs for the repositories: the first
    match (`findFirst`, `findUnique`), a filter (`where`) and an ordering by a
    numeric key (`orderBy`). */
module Seqs {
  import opened Wrappers

  /** The first element satisfying p, if any. */
  function FindFirst<T>(s: seq<T>, p: T -> bool): (r: Option<T>)
    ensures r.Some? ==> r.value in s && p(r.value)
    ensures r.None? <==> forall x :: x in s ==> !p(x)
  {
    if s == [] then None
    else if p(s[0]) then Some(s[0])
    else FindFirst(s[1..], p)
  }

  /** r occurs in s in the same order, possibly with gaps. */
  predicate Subsequence<T(==)>(r: seq<T>, s: seq<T>) {
    r == [] || (s != [] && if r[0] == s[0] then Subsequence(r[1..], s[1..]) else Subsequence(r, s[1..]))
  }

  /** The elements of s that satisfy p, in their original order. */
  function Filter<T(==,!new)>(s: seq<T>, p: T -> bool): (r: seq<T>)
    ensures forall x :: x in r <==> x in s && p(x)
    ensures forall x :: multiset(r)[x] == if p(x) then multiset(s)[x] else 0
    ensures Subsequence(r, s)
  {
    if s == [] then []
    else
      var rest := Filter(s[1..], p);
      assert s == [s[0]] + s[1..];
      if p(s[0]) then [s[0]] + rest else rest
  }

  datatype Direction = Ascending | Descending

  predicate InOrder(a: int, b: int, dir: Direction) {
    if dir == Ascending then a <= b else a >= b
  }

  predicate Sorted<T>(s: seq<T>, key: T -> int, dir: Direction) {
    forall i, j :: 0 <= i < j < |s| ==> InOrder(key(s[i]), key(s[j]), dir)
  }

  /** Places x before the first element it does not follow. */
  function Insert<T>(x: T, s: seq<T>, key: T -> int, dir: Direction): (r: seq<T>)
    ensures multiset(r) == multiset(s) + multiset{x}
  {
    if s == [] then [x]
    else if InOrder(key(x), key(s[0]), dir) then [x] + s
    else
      assert s == [s[0]] + s[1..];
      [s[0]] + Insert(x, s[1..], key, dir)
  }

  lemma {:induction false} InsertSorted<T>(x: T, s: seq<T>, key: T -> int, dir: Direction)
    requires Sorted(s, key, dir)
    ensures Sorted(Insert(x, s, key, dir), key, dir)
  {
    if s == [] {
    } else if InOrder(key(x), key(s[0]), dir) {
      var r := [x] + s;
      forall i, j | 0 <= i < j < |r| ensures InOrder(key(r[i]), key(r[j]), dir) {
        if i == 0 {
          assert r[j] == s[j - 1];
          if j > 1 {
            assert InOrder(key(s[0]), key(s[j - 1]), dir);
          }
        } else {
          assert r[i] == s[i - 1] && r[j] == s[j - 1];
        }
      }
    } else {
      var rest := Insert(x, s[1..], key, dir);
      InsertSorted(x, s[1..], key, dir);
      var r := [s[0]] + rest;
      assert s == [s[0]] + s[1..];
      forall i, j | 0 <= i < j < |r| ensures InOrder(key(r[i]), key(r[j]), dir) {
        if i == 0 {
          var y := r[j];
          assert y == rest[j - 1];
          assert y in multiset(rest);
          if y != x {
            assert y in multiset(s[1..]);
            var k :| 0 <= k < |s[1..]| && s[1..][k] == y;
            assert s[k + 1] == y;
          }
        } else {
          assert r[i] == rest[i - 1] && r[j] == rest[j - 1];
        }
      }
      assert Insert(x, s, key, dir) == r;
    }
  }

  /** s ordered by key in the given direction (stable insertion sort). */
  function SortBy<T>(s: seq<T>, key: T -> int, dir: Direction): (r: seq<T>)
    ensures Sorted(r, key, dir)
    ensures multiset(r) == multiset(s)
  {
    if s == [] then []
    else
      assert s == [s[0]] + s[1..];
      InsertSorted(s[0], SortBy(s[1..], key, dir), key, dir);
      Insert(s[0], SortBy(s[1..], key, dir), key, dir)
  }
}
