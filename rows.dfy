/**
 * The query shapes the repositories use on a table held as a sequence of rows: a lookup of
 * the first matching row, a `WHERE` filter, an `ORDER BY` over one or more integer columns,
 * `OFFSET`/`LIMIT`, row removal and fresh ids. Sort keys are sequences of integers compared
 * lexicographically, so `ORDER BY created_at, id` is the key `[createdAt, id]`.
 */
module Rows {
  import opened Wrappers

  /** The index of the first row satisfying `p`, if any. */
  function FindFirst<T>(s: seq<T>, p: T -> bool): (r: Option<nat>)
    ensures r.Some? ==> r.value < |s| && p(s[r.value])
    ensures r.Some? ==> forall k :: 0 <= k < r.value ==> !p(s[k])
    ensures r.None? ==> forall k :: 0 <= k < |s| ==> !p(s[k])
  {
    if s == [] then None
    else if p(s[0]) then Some(0)
    else
      var r := FindFirst(s[1..], p);
      if r.Some? then Some(r.value + 1) else None
  }

  /** The table without its row at index `i`. */
  function RemoveAt<T>(s: seq<T>, i: nat): (r: seq<T>)
    requires i < |s|
    ensures |r| == |s| - 1
    ensures forall k :: 0 <= k < i ==> r[k] == s[k]
    ensures forall k :: i <= k < |r| ==> r[k] == s[k + 1]
  {
    s[..i] + s[i + 1..]
  }

  /** Removing the row at `i` takes exactly that row out of the table. */
  lemma {:induction false} RemoveAtMultiset<T>(s: seq<T>, i: nat)
    requires i < |s|
    ensures multiset(RemoveAt(s, i)) == multiset(s) - multiset{s[i]}
  {
    assert s == s[..i] + [s[i]] + s[i + 1..];
    assert multiset(s) == multiset(s[..i]) + multiset{s[i]} + multiset(s[i + 1..]);
  }

  /** No two rows share an id. */
  ghost predicate DistinctIds<T>(s: seq<T>, id: T -> int) {
    forall i, j :: 0 <= i < |s| && 0 <= j < |s| && i != j ==> id(s[i]) != id(s[j])
  }

  /** An id larger than every id in the table (the next value of an id sequence is never in use). */
  function NextId<T>(s: seq<T>, id: T -> int): (n: int)
    ensures n >= 1
    ensures forall k :: 0 <= k < |s| ==> id(s[k]) < n
  {
    if s == [] then 1
    else
      var rest := NextId(s[1..], id);
      assert forall k :: 1 <= k < |s| ==> id(s[k]) == id(s[1..][k - 1]);
      if id(s[0]) < rest then rest else id(s[0]) + 1
  }

  /** Appending a row with a fresh id keeps ids distinct. */
  lemma AppendFreshId<T>(s: seq<T>, x: T, id: T -> int)
    requires DistinctIds(s, id) && id(x) == NextId(s, id)
    ensures DistinctIds(s + [x], id)
  {
  }

  /** Removing a row keeps ids distinct. */
  lemma RemoveKeepsDistinct<T>(s: seq<T>, i: nat, id: T -> int)
    requires i < |s| && DistinctIds(s, id)
    ensures DistinctIds(RemoveAt(s, i), id)
  {
    var r := RemoveAt(s, i);
    forall a, b | 0 <= a < |r| && 0 <= b < |r| && a != b ensures id(r[a]) != id(r[b]) {
      var a' := if a < i then a else a + 1;
      var b' := if b < i then b else b + 1;
      assert r[a] == s[a'] && r[b] == s[b'];
    }
  }

  /** Lexicographic order on sort keys; a prefix sorts first. */
  predicate LexLe(a: seq<int>, b: seq<int>)
    decreases |a|
  {
    a == [] || (b != [] && (a[0] < b[0] || (a[0] == b[0] && LexLe(a[1..], b[1..]))))
  }

  lemma {:induction false} LexLeTotal(a: seq<int>, b: seq<int>)
    ensures LexLe(a, b) || LexLe(b, a)
    decreases |a|
  {
    if a != [] && b != [] && a[0] == b[0] {
      LexLeTotal(a[1..], b[1..]);
    }
  }

  lemma {:induction false} LexLeTrans(a: seq<int>, b: seq<int>, c: seq<int>)
    requires LexLe(a, b) && LexLe(b, c)
    ensures LexLe(a, c)
    decreases |a|
  {
    if a != [] && a[0] == b[0] && b[0] == c[0] {
      LexLeTrans(a[1..], b[1..], c[1..]);
    }
  }

  /** Every earlier element's key is at most every later element's key. */
  ghost predicate SortedBy<T>(s: seq<T>, key: T -> seq<int>) {
    forall i, j :: 0 <= i < j < |s| ==> LexLe(key(s[i]), key(s[j]))
  }

  /** The rows of `s` that satisfy `p`, in their original order. */
  function Filter<T(!new)>(s: seq<T>, p: T -> bool): (r: seq<T>)
    ensures |r| <= |s|
    ensures forall x :: x in r <==> x in s && p(x)
    ensures forall x {:trigger multiset(r)[x]} :: multiset(r)[x] == if p(x) then multiset(s)[x] else 0
  {
    if s == [] then []
    else
      var rest := Filter(s[1..], p);
      assert s == [s[0]] + s[1..];
      if p(s[0]) then [s[0]] + rest else rest
  }

  /** A filter that every row passes returns the rows unchanged. */
  lemma {:induction false} FilterKeepsAll<T(!new)>(s: seq<T>, p: T -> bool)
    requires forall i :: 0 <= i < |s| ==> p(s[i])
    ensures Filter(s, p) == s
  {
    if s != [] {
      assert forall i :: 0 <= i < |s| - 1 ==> s[1..][i] == s[i + 1];
      FilterKeepsAll(s[1..], p);
    }
  }

  /** No two rows at different positions clash. */
  ghost predicate PairwiseApart<T>(s: seq<T>, clash: (T, T) -> bool) {
    forall i, j :: 0 <= i < |s| && 0 <= j < |s| && i != j ==> !clash(s[i], s[j])
  }

  /** Filtering keeps rows apart: a table without clashing pairs has none after a filter (a delete by predicate). */
  lemma {:induction false} FilterKeepsApart<T(!new)>(s: seq<T>, p: T -> bool, clash: (T, T) -> bool)
    requires PairwiseApart(s, clash)
    ensures PairwiseApart(Filter(s, p), clash)
  {
    if s != [] {
      var tail := s[1..];
      assert PairwiseApart(tail, clash) by {
        forall i, j | 0 <= i < |tail| && 0 <= j < |tail| && i != j ensures !clash(tail[i], tail[j]) {
          assert tail[i] == s[i + 1] && tail[j] == s[j + 1];
        }
      }
      FilterKeepsApart(tail, p, clash);
      if p(s[0]) {
        ConsKeepsApart(s, Filter(tail, p), clash);
      }
    }
  }

  /** The head of `s` put before rows of its tail that are apart stays apart from them. */
  lemma ConsKeepsApart<T>(s: seq<T>, rest: seq<T>, clash: (T, T) -> bool)
    requires s != [] && PairwiseApart(s, clash) && PairwiseApart(rest, clash)
    requires forall x :: x in rest ==> x in s[1..]
    ensures PairwiseApart([s[0]] + rest, clash)
  {
    var r := [s[0]] + rest;
    forall i, j | 0 <= i < |r| && 0 <= j < |r| && i != j ensures !clash(r[i], r[j]) {
      if i == 0 || j == 0 {
        var other := if i == 0 then j else i;
        assert r[other] == rest[other - 1];
        assert r[other] in s[1..];
        var k :| 0 <= k < |s| - 1 && s[1..][k] == r[other];
        assert s[k + 1] == r[other];
      } else {
        assert r[i] == rest[i - 1] && r[j] == rest[j - 1];
      }
    }
  }

  /** `x` placed into a sorted `s` before the first element whose key is larger. */
  function Insert<T>(x: T, s: seq<T>, key: T -> seq<int>): (r: seq<T>)
    requires SortedBy(s, key)
    ensures SortedBy(r, key)
    ensures multiset(r) == multiset(s) + multiset{x}
    ensures |r| == |s| + 1
  {
    if s == [] then [x]
    else if LexLe(key(x), key(s[0])) then
      InsertFrontSorted(x, s, key);
      [x] + s
    else
      LexLeTotal(key(x), key(s[0]));
      var rest := Insert(x, s[1..], key);
      InsertBehindSorted(x, s, rest, key);
      assert s == [s[0]] + s[1..];
      [s[0]] + rest
  }

  lemma InsertFrontSorted<T>(x: T, s: seq<T>, key: T -> seq<int>)
    requires SortedBy(s, key) && s != [] && LexLe(key(x), key(s[0]))
    ensures SortedBy([x] + s, key)
  {
    var r := [x] + s;
    forall i, j | 0 <= i < j < |r| ensures LexLe(key(r[i]), key(r[j])) {
      if i == 0 && j > 1 {
        LexLeTrans(key(x), key(s[0]), key(s[j - 1]));
      }
    }
  }

  lemma InsertBehindSorted<T>(x: T, s: seq<T>, rest: seq<T>, key: T -> seq<int>)
    requires SortedBy(s, key) && s != [] && LexLe(key(s[0]), key(x))
    requires SortedBy(rest, key) && multiset(rest) == multiset(s[1..]) + multiset{x}
    ensures SortedBy([s[0]] + rest, key)
  {
    var r := [s[0]] + rest;
    forall i, j | 0 <= i < j < |r| ensures LexLe(key(r[i]), key(r[j])) {
      if i == 0 {
        var y := rest[j - 1];
        assert y in multiset(rest);
        if y == x {
        } else {
          assert y in multiset(s[1..]);
          var k :| 0 <= k < |s[1..]| && s[1..][k] == y;
          assert s[k + 1] == y;
        }
      }
    }
  }

  /** Insertion sort: the same rows, ordered by `key`. */
  function SortBy<T>(s: seq<T>, key: T -> seq<int>): (r: seq<T>)
    ensures SortedBy(r, key)
    ensures multiset(r) == multiset(s)
    ensures |r| == |s|
  {
    if s == [] then []
    else
      assert s == [s[0]] + s[1..];
      Insert(s[0], SortBy(s[1..], key), key)
  }

  /** Sorting keeps exactly the rows it is given. */
  lemma SortByKeepsRows<T>(s: seq<T>, key: T -> seq<int>)
    ensures forall x :: x in SortBy(s, key) <==> x in s
  {
    var r := SortBy(s, key);
    forall x ensures x in r <==> x in s {
      assert x in r <==> x in multiset(r);
      assert x in s <==> x in multiset(s);
    }
  }

  /** `OFFSET skip LIMIT limit`. */
  function Page<T>(s: seq<T>, skip: nat, limit: nat): (r: seq<T>)
    ensures |r| <= limit
    ensures forall x :: x in r ==> x in s
    ensures skip >= |s| ==> r == []
    ensures skip < |s| ==> r == s[skip..if skip + limit <= |s| then skip + limit else |s|]
  {
    if skip >= |s| then []
    else if skip + limit <= |s| then s[skip..skip + limit]
    else s[skip..]
  }

  /** A page of a sorted sequence is sorted. */
  lemma PageKeepsSorted<T>(s: seq<T>, skip: nat, limit: nat, key: T -> seq<int>)
    requires SortedBy(s, key)
    ensures SortedBy(Page(s, skip, limit), key)
  {
    var r := Page(s, skip, limit);
    forall i, j | 0 <= i < j < |r| ensures LexLe(key(r[i]), key(r[j])) {
      assert r[i] == s[skip + i] && r[j] == s[skip + j];
    }
  }

  /** A page of the sorted rows is sorted, holds only rows of `s`, and is all of them when it spans them. */
  lemma PageOfSorted<T>(s: seq<T>, skip: nat, limit: nat, key: T -> seq<int>)
    ensures SortedBy(Page(SortBy(s, key), skip, limit), key)
    ensures forall x :: x in Page(SortBy(s, key), skip, limit) ==> x in s
    ensures skip == 0 && limit >= |s| ==> multiset(Page(SortBy(s, key), skip, limit)) == multiset(s)
  {
    var sorted := SortBy(s, key);
    PageKeepsSorted(sorted, skip, limit, key);
    forall x | x in Page(sorted, skip, limit) ensures x in s {
      assert x in multiset(sorted);
    }
    if skip == 0 && limit >= |s| {
      PageSpanningAll(sorted, limit);
    }
  }

  /** A first page at least as long as the rows is all of them. */
  lemma PageSpanningAll<T>(s: seq<T>, limit: nat)
    requires limit >= |s|
    ensures Page(s, 0, limit) == s
  {
    if s != [] {
      assert s[0..|s|] == s;
    }
  }

  /** Two consecutive pages are the page that spans both: paging loses and repeats no row. */
  lemma PagesConcatenate<T>(s: seq<T>, skip: nat, n: nat, m: nat)
    ensures Page(s, skip, n) + Page(s, skip + n, m) == Page(s, skip, n + m)
  {
    if skip + n < |s| {
      var e := if skip + n + m <= |s| then skip + n + m else |s|;
      assert s[skip..skip + n] + s[skip + n..e] == s[skip..e];
    }
  }

  /** Filtering a table with one more row at its end filters the table, then that row. */
  lemma {:induction false} FilterSnoc<T(!new)>(s: seq<T>, x: T, p: T -> bool)
    ensures Filter(s + [x], p) == Filter(s, p) + (if p(x) then [x] else [])
  {
    if s == [] {
      assert s + [x] == [x] + s;
      FilterCons(x, s, p);
    } else {
      var h, tl := s[0], s[1..];
      assert s == [h] + tl;
      assert s + [x] == [h] + (tl + [x]);
      FilterCons(h, tl, p);
      FilterCons(h, tl + [x], p);
      FilterSnoc(tl, x, p);
    }
  }

  /** Filtering a table with one more row at its head filters that row, then the table. */
  lemma FilterCons<T(!new)>(h: T, s: seq<T>, p: T -> bool)
    ensures Filter([h] + s, p) == (if p(h) then [h] else []) + Filter(s, p)
  {
    var t := [h] + s;
    assert t[0] == h && t[1..] == s;
  }
}
