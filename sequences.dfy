/**
 * Generic sequence operations behind the store's queries: a filter (SQL WHERE and the
 * controllers' list comprehensions), a stable sort by a key, largest first (SQL ORDER BY ... DESC),
 * and the rows of an id-keyed table in id order (a table scan).
 */
module Sequences {

  /** Ordered by `key`, largest first: what `ORDER BY key DESC` guarantees. */
  predicate NewestFirst<T>(s: seq<T>, key: T -> int) {
    forall i, j :: 0 <= i < j < |s| ==> key(s[i]) >= key(s[j])
  }

  /** No element occurs twice. */
  predicate NoDuplicates<T(==)>(s: seq<T>) {
    forall i, j :: 0 <= i < j < |s| ==> s[i] != s[j]
  }

  /** `a` is `b` with some elements dropped and the rest in the same order. */
  predicate IsSubsequence<T(==)>(a: seq<T>, b: seq<T>)
    decreases |b|
  {
    || a == []
    || (b != [] && if a[0] == b[0] then IsSubsequence(a[1..], b[1..]) else IsSubsequence(a, b[1..]))
  }

  /** The elements of `s` that satisfy `keep`, in their order. */
  function Filter<T(==,!new)>(s: seq<T>, keep: T -> bool): (r: seq<T>)
    ensures forall x :: x in r <==> x in s && keep(x)
    ensures IsSubsequence(r, s)
    ensures (forall x :: x in s ==> keep(x)) ==> r == s
    ensures (forall x :: x in s ==> !keep(x)) ==> r == []
    ensures forall x :: multiset(r)[x] == if keep(x) then multiset(s)[x] else 0
  {
    if s == [] then []
    else
      assert s == [s[0]] + s[1..];
      if keep(s[0]) then [s[0]] + Filter(s[1..], keep)
      else Filter(s[1..], keep)
  }

  /** Filtering keeps the order of a sorted sequence. */
  lemma {:induction false} FilterNewestFirst<T(!new)>(s: seq<T>, keep: T -> bool, key: T -> int)
    requires NewestFirst(s, key)
    ensures NewestFirst(Filter(s, keep), key)
  {
    if s != [] {
      var tail := s[1..];
      TailNewestFirst(s, key);
      FilterNewestFirst(tail, keep, key);
      if keep(s[0]) {
        var rest := Filter(tail, keep);
        HeadBoundsMembers(s, rest, key);
        ConsNewestFirst(s[0], rest, key);
      }
    }
  }

  /** The tail of a sorted sequence is sorted. */
  lemma TailNewestFirst<T>(s: seq<T>, key: T -> int)
    requires s != [] && NewestFirst(s, key)
    ensures NewestFirst(s[1..], key)
  {
    var tail := s[1..];
    forall i, j | 0 <= i < j < |tail| ensures key(tail[i]) >= key(tail[j]) {
      assert tail[i] == s[i + 1] && tail[j] == s[j + 1];
    }
  }

  /** The head of a sorted sequence sorts before anything drawn from its tail. */
  lemma HeadBoundsMembers<T>(s: seq<T>, rest: seq<T>, key: T -> int)
    requires s != [] && NewestFirst(s, key)
    requires forall x :: x in rest ==> x in s[1..]
    ensures forall j :: 0 <= j < |rest| ==> key(s[0]) >= key(rest[j])
  {
    var tail := s[1..];
    forall j | 0 <= j < |rest| ensures key(s[0]) >= key(rest[j]) {
      assert rest[j] in tail;
      var k :| 0 <= k < |tail| && tail[k] == rest[j];
      assert s[k + 1] == rest[j];
    }
  }

  /** Putting an element that sorts before all of a sorted sequence in front keeps it sorted. */
  lemma ConsNewestFirst<T>(h: T, rest: seq<T>, key: T -> int)
    requires NewestFirst(rest, key)
    requires forall j :: 0 <= j < |rest| ==> key(h) >= key(rest[j])
    ensures NewestFirst([h] + rest, key)
  {
    var r := [h] + rest;
    forall i, j | 0 <= i < j < |r| ensures key(r[i]) >= key(r[j]) {
      assert r[j] == rest[j - 1];
      if i > 0 {
        assert r[i] == rest[i - 1];
      }
    }
  }

  /** Filtering cannot create duplicates. */
  lemma {:induction false} FilterNoDuplicates<T(!new)>(s: seq<T>, keep: T -> bool)
    requires NoDuplicates(s)
    ensures NoDuplicates(Filter(s, keep))
  {
    if s != [] {
      assert NoDuplicates(s[1..]);
      FilterNoDuplicates(s[1..], keep);
      var rest := Filter(s[1..], keep);
      if keep(s[0]) {
        assert s[0] !in s[1..];
        ConsNoDuplicates(s[0], rest);
      }
    }
  }

  /** Putting an element that does not occur in a sequence without duplicates in front keeps it so. */
  lemma ConsNoDuplicates<T>(h: T, rest: seq<T>)
    requires NoDuplicates(rest) && h !in rest
    ensures NoDuplicates([h] + rest)
  {
    var r := [h] + rest;
    forall i, j | 0 <= i < j < |r| ensures r[i] != r[j] {
      assert r[j] == rest[j - 1];
      if i > 0 {
        assert r[i] == rest[i - 1];
      }
    }
  }

  /** The elements of `s`, as a set. */
  ghost function Elements<T>(s: seq<T>): set<T> {
    set x | x in s
  }

  /** A sequence without duplicates has as many elements as it has distinct elements. */
  lemma {:induction false} DistinctElementsCount<T>(s: seq<T>)
    requires NoDuplicates(s)
    ensures |Elements(s)| == |s|
  {
    if s != [] {
      var tail := s[1..];
      assert NoDuplicates(tail) by {
        forall i, j | 0 <= i < j < |tail| ensures tail[i] != tail[j] {
          assert tail[i] == s[i + 1] && tail[j] == s[j + 1];
        }
      }
      DistinctElementsCount(tail);
      assert Elements(s) == {s[0]} + Elements(tail);
      assert s[0] !in Elements(tail);
    }
  }

  /** `x` placed into the sorted `s` before the first element whose key is not larger. */
  function Insert<T>(x: T, s: seq<T>, key: T -> int): (r: seq<T>)
    requires NewestFirst(s, key)
    ensures NewestFirst(r, key)
    ensures multiset(r) == multiset(s) + multiset{x}
  {
    if s == [] || key(x) >= key(s[0]) then
      ConsNewestFirst(x, s, key);
      [x] + s
    else
      TailNewestFirst(s, key);
      var rest := Insert(x, s[1..], key);
      InsertHeadBound(x, s, key, rest);
      ConsNewestFirst(s[0], rest, key);
      assert s == [s[0]] + s[1..];
      [s[0]] + rest
  }

  /** Everything in `rest`, which holds `x` and the tail of `s`, sorts after the head of `s`. */
  lemma InsertHeadBound<T>(x: T, s: seq<T>, key: T -> int, rest: seq<T>)
    requires s != [] && key(x) < key(s[0]) && NewestFirst(s, key)
    requires multiset(rest) == multiset(s[1..]) + multiset{x}
    ensures forall j :: 0 <= j < |rest| ==> key(s[0]) >= key(rest[j])
  {
    forall j | 0 <= j < |rest| ensures key(s[0]) >= key(rest[j]) {
      assert rest[j] in multiset(rest);
      if rest[j] != x {
        assert rest[j] in multiset(s[1..]);
        assert rest[j] in s[1..];
        var k :| 0 <= k < |s[1..]| && s[1..][k] == rest[j];
        assert s[k + 1] == rest[j];
      }
    }
  }

  /** `s` sorted by `key`, largest first; elements with equal keys keep their order. */
  function SortNewestFirst<T>(s: seq<T>, key: T -> int): (r: seq<T>)
    ensures NewestFirst(r, key)
    ensures multiset(r) == multiset(s)
  {
    if s == [] then []
    else
      assert s == [s[0]] + s[1..];
      Insert(s[0], SortNewestFirst(s[1..], key), key)
  }

  /** A sequence without duplicates has none after sorting. */
  lemma SortNoDuplicates<T>(s: seq<T>, key: T -> int)
    requires NoDuplicates(s)
    ensures NoDuplicates(SortNewestFirst(s, key))
  {
    var r := SortNewestFirst(s, key);
    forall i, j | 0 <= i < j < |r| ensures r[i] != r[j] {
      if r[i] == r[j] {
        MultisetCountTwo(r, i, j);
        CountAtMostOne(s, r[i]);
        assert false;
      }
    }
  }

  lemma MultisetCountTwo<T>(s: seq<T>, i: int, j: int)
    requires 0 <= i < j < |s| && s[i] == s[j]
    ensures multiset(s)[s[i]] >= 2
  {
    assert s == s[..i] + [s[i]] + s[i + 1..j] + [s[j]] + s[j + 1..];
  }

  lemma {:induction false} CountAtMostOne<T>(s: seq<T>, x: T)
    requires NoDuplicates(s)
    ensures multiset(s)[x] <= 1
  {
    if s != [] {
      assert s == [s[0]] + s[1..];
      assert NoDuplicates(s[1..]);
      CountAtMostOne(s[1..], x);
      if x == s[0] {
        assert x !in s[1..];
      }
    }
  }

  /**
   * The values of an id-keyed table, in increasing id order, for ids 1..n: a table scan
   * before ORDER BY. Each value is stored under its own id.
   */
  function RowsById<R(==,!new)>(m: map<int, R>, idOf: R -> int, n: int): (r: seq<R>)
    requires forall k :: k in m ==> idOf(m[k]) == k
    ensures forall x :: x in r <==> x in m.Values && 1 <= idOf(x) <= n
    ensures forall i, j :: 0 <= i < j < |r| ==> idOf(r[i]) < idOf(r[j])
    decreases n
  {
    if n <= 0 then []
    else
      var before := RowsById(m, idOf, n - 1);
      assert forall x :: x in m.Values ==> idOf(x) in m && m[idOf(x)] == x;
      before + if n in m then [m[n]] else []
  }

  /**
   * `SELECT * FROM <table> ORDER BY <key> DESC` over a table whose ids run from 1 to n:
   * every stored value exactly once, newest first.
   */
  function NewestRows<R(==,!new)>(m: map<int, R>, idOf: R -> int, n: int, key: R -> int): (r: seq<R>)
    requires forall k :: k in m ==> idOf(m[k]) == k && 1 <= k <= n
    ensures forall x :: x in r <==> x in m.Values
    ensures NoDuplicates(r) && NewestFirst(r, key)
  {
    var scan := RowsById(m, idOf, n);
    assert NoDuplicates(scan) by {
      forall i, j | 0 <= i < j < |scan| ensures scan[i] != scan[j] {
        assert idOf(scan[i]) < idOf(scan[j]);
      }
    }
    SortNoDuplicates(scan, key);
    var r := SortNewestFirst(scan, key);
    assert forall x :: x in r <==> x in scan by {
      forall x ensures x in r <==> x in scan {
        assert x in r <==> multiset(r)[x] > 0;
        assert x in scan <==> multiset(scan)[x] > 0;
      }
    }
    assert forall x :: x in m.Values ==> 1 <= idOf(x) <= n by {
      forall x | x in m.Values ensures 1 <= idOf(x) <= n {
        var k :| k in m && m[k] == x;
      }
    }
    r
  }
}
