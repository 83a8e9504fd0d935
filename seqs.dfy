/** Generic sequence helpers shared by the table queries: selection, counting,
    first match, substring matching, ordering and pagination windows.
    A table is a sequence of rows in insertion order. */
module Seqs {

  datatype Option<T> = None | Some(value: T)

  /** The rows of `s` that satisfy `keep`, in table order (a SQL `where`). */
  function Select<T(!new)>(s: seq<T>, keep: T -> bool): (r: seq<T>)
    ensures |r| <= |s|
    ensures forall x :: x in r <==> x in s && keep(x)
    ensures multiset(r) <= multiset(s)
  {
    if s == [] then []
    else
      assert s == [s[0]] + s[1..];
      if keep(s[0]) then [s[0]] + Select(s[1..], keep)
      else Select(s[1..], keep)
  }

  /** Number of rows of `s` that satisfy `keep` (a SQL `count(*)`). */
  function CountWhere<T>(s: seq<T>, keep: T -> bool): (n: nat)
    ensures n <= |s|
    ensures n == 0 <==> forall i :: 0 <= i < |s| ==> !keep(s[i])
  {
    if s == [] then 0
    else (if keep(s[0]) then 1 else 0) + CountWhere(s[1..], keep)
  }

  /** Counting the matches and selecting them agree. */
  lemma {:induction false} CountIsSelectSize<T(!new)>(s: seq<T>, keep: T -> bool)
    ensures CountWhere(s, keep) == |Select(s, keep)|
  {
    if s != [] {
      CountIsSelectSize(s[1..], keep);
    }
  }

  /** Counting with a filter that keeps every row counts the whole table. */
  lemma {:induction false} CountAll<T>(s: seq<T>, keep: T -> bool)
    requires forall k :: 0 <= k < |s| ==> keep(s[k])
    ensures CountWhere(s, keep) == |s|
  {
    if s != [] {
      CountAll(s[1..], keep);
    }
  }

  /** The first row of `s` that satisfies `keep` (a single-row read). */
  function FirstWhere<T>(s: seq<T>, keep: T -> bool): (r: Option<T>)
    ensures r.Some? ==> r.value in s && keep(r.value)
    ensures r.None? <==> forall i :: 0 <= i < |s| ==> !keep(s[i])
  {
    if s == [] then None
    else if keep(s[0]) then Some(s[0])
    else FirstWhere(s[1..], keep)
  }

  /** A match at index `k` with no match before it is what FirstWhere returns. */
  lemma {:induction false} FirstWhereAt<T>(s: seq<T>, keep: T -> bool, k: nat)
    requires k < |s| && keep(s[k])
    requires forall i :: 0 <= i < k ==> !keep(s[i])
    ensures FirstWhere(s, keep) == Some(s[k])
  {
    if k > 0 {
      FirstWhereAt(s[1..], keep, k - 1);
    }
  }

  /** `sub` occurs in `s` at position 0. */
  predicate IsPrefix(sub: string, s: string) {
    |sub| <= |s| && s[..|sub|] == sub
  }

  /** `sub` occurs somewhere in `s`: the `%sub%` pattern of a LIKE or
      `icontains` filter, without collation. */
  predicate Contains(s: string, sub: string)
    decreases |s|
  {
    IsPrefix(sub, s) || (|s| > 0 && Contains(s[1..], sub))
  }

  /** `sub` occurs in `s` starting at index `i`. */
  predicate OccursAt(s: string, sub: string, i: int) {
    0 <= i <= |s| - |sub| && s[i..i + |sub|] == sub
  }

  /** Contains means: `sub` occurs in `s` at some index. */
  lemma {:induction false} ContainsAt(s: string, sub: string)
    ensures Contains(s, sub) <==> exists i :: OccursAt(s, sub, i)
  {
    if IsPrefix(sub, s) {
      assert OccursAt(s, sub, 0);
    }
    if |s| > 0 {
      ContainsAt(s[1..], sub);
      if Contains(s[1..], sub) {
        var i :| OccursAt(s[1..], sub, i);
        assert s[1..][i..i + |sub|] == s[i + 1..i + 1 + |sub|];
        assert OccursAt(s, sub, i + 1);
      }
      if i :| OccursAt(s, sub, i) {
        if i > 0 {
          assert s[1..][i - 1..i - 1 + |sub|] == s[i..i + |sub|];
          assert OccursAt(s[1..], sub, i - 1);
        } else {
          assert IsPrefix(sub, s);
        }
      }
    } else if i :| OccursAt(s, sub, i) {
      assert i == 0 && IsPrefix(sub, s);
    }
  }

  /** `s` is in non-decreasing order of `key`. */
  ghost predicate SortedBy<T>(s: seq<T>, key: T -> int) {
    forall i, j :: 0 <= i < j < |s| ==> key(s[i]) <= key(s[j])
  }

  /** Puts `x` into `s` before the first row with a larger key. */
  function InsertBy<T>(x: T, s: seq<T>, key: T -> int): (r: seq<T>)
    ensures |r| == |s| + 1
    ensures r[0] == x || (|s| > 0 && r[0] == s[0])
    ensures multiset(r) == multiset(s) + multiset{x}
  {
    if s == [] then [x]
    else if key(x) <= key(s[0]) then [x] + s
    else
      assert s == [s[0]] + s[1..];
      [s[0]] + InsertBy(x, s[1..], key)
  }

  /** A row no larger than the first row of a sorted sequence can head it. */
  lemma ConsSorted<T>(a: T, rest: seq<T>, key: T -> int)
    requires SortedBy(rest, key)
    requires |rest| > 0 ==> key(a) <= key(rest[0])
    ensures SortedBy([a] + rest, key)
  {
    var r := [a] + rest;
    forall i, j | 0 <= i < j < |r| ensures key(r[i]) <= key(r[j]) {
      assert r[j] == rest[j - 1];
      if i > 0 {
        assert r[i] == rest[i - 1];
      } else {
        assert key(rest[0]) <= key(rest[j - 1]);
      }
    }
  }

  /** Inserting into a sorted sequence keeps it sorted. */
  lemma {:induction false} InsertBySorted<T>(x: T, s: seq<T>, key: T -> int)
    requires SortedBy(s, key)
    ensures SortedBy(InsertBy(x, s, key), key)
  {
    if s == [] {
    } else if key(x) <= key(s[0]) {
      ConsSorted(x, s, key);
    } else {
      var rest := InsertBy(x, s[1..], key);
      assert SortedBy(s[1..], key);
      InsertBySorted(x, s[1..], key);
      if |s| > 1 {
        assert key(s[0]) <= key(s[1]);
      }
      ConsSorted(s[0], rest, key);
    }
  }

  /** An `order by key` over a table: sorted, and a permutation of its input
      (rows with equal keys come out in an order the query does not fix). */
  function SortBy<T>(s: seq<T>, key: T -> int): (r: seq<T>)
    ensures SortedBy(r, key)
    ensures multiset(r) == multiset(s)
  {
    if s == [] then []
    else
      assert s == [s[0]] + s[1..];
      var sorted := SortBy(s[1..], key);
      InsertBySorted(s[0], sorted, key);
      InsertBy(s[0], sorted, key)
  }

  /** Sorting keeps exactly the rows it was given. */
  lemma SortByMembers<T(!new)>(s: seq<T>, key: T -> int)
    ensures |SortBy(s, key)| == |s|
    ensures forall x :: x in SortBy(s, key) <==> x in s
  {
    var r := SortBy(s, key);
    assert |r| == |multiset(r)| == |multiset(s)| == |s|;
    forall x ensures x in r <==> x in s {
      assert x in r <==> x in multiset(r);
      assert x in s <==> x in multiset(s);
    }
  }

  /** `f` applied to every row, in table order (an unconditional bulk update
      whose `f` leaves the rows it does not match as they are). */
  function MapRows<T>(s: seq<T>, f: T -> T): (r: seq<T>)
    ensures |r| == |s|
    ensures forall k :: 0 <= k < |s| ==> r[k] == f(s[k])
  {
    if s == [] then [] else [f(s[0])] + MapRows(s[1..], f)
  }

  /** A single-row read after a bulk update that does not change which rows
      the read matches finds the updated version of the row it found before. */
  lemma {:induction false} FirstWhereMapRows<T>(s: seq<T>, f: T -> T, keep: T -> bool)
    requires forall k :: 0 <= k < |s| ==> keep(f(s[k])) == keep(s[k])
    ensures FirstWhere(MapRows(s, f), keep) ==
      match FirstWhere(s, keep) case None => None case Some(x) => Some(f(x))
  {
    if s != [] {
      assert MapRows(s, f)[1..] == MapRows(s[1..], f);
      FirstWhereMapRows(s[1..], f, keep);
    }
  }

  /** `limit l offset o`: at most `limit` rows starting at row `offset`. */
  function Window<T>(s: seq<T>, offset: nat, limit: nat): (r: seq<T>)
    ensures |r| <= limit
    ensures offset <= |s| ==> |r| == if |s| - offset < limit then |s| - offset else limit
    ensures offset >= |s| ==> r == []
    ensures forall k :: 0 <= k < |r| ==> offset + k < |s| && r[k] == s[offset + k]
  {
    if offset >= |s| then []
    else if |s| - offset <= limit then s[offset..]
    else s[offset..offset + limit]
  }
}
