/** Sequence queries that the store's LINQ expressions are built from:
    first match, filter, uniqueness of a key, removal, SQLite paging, and
    ordering by a descending key. */
module Seqs {
  import opened Base

  /** Index of the first element satisfying `p` (`FirstOrDefault`). */
  function FirstIndex<T>(s: seq<T>, p: T -> bool): (r: Option<nat>)
    ensures r.Some? ==> r.value < |s| && p(s[r.value])
    ensures r.Some? ==> forall j :: 0 <= j < r.value ==> !p(s[j])
    ensures r.None? <==> forall j :: 0 <= j < |s| ==> !p(s[j])
    decreases |s|
  {
    if |s| == 0 then None
    else if p(s[0]) then Some(0)
    else match FirstIndex(s[1..], p)
      case None => None
      case Some(k) => Some(k + 1)
  }

  /** The elements satisfying `p`, in their original order (`Where`). */
  function Filter<T(!new)>(s: seq<T>, p: T -> bool): (r: seq<T>)
    ensures |r| <= |s|
    ensures forall x :: multiset(r)[x] == if p(x) then multiset(s)[x] else 0
    ensures forall x :: x in r <==> x in s && p(x)
    decreases |s|
  {
    if |s| == 0 then []
    else
      var rest := Filter(s[1..], p);
      assert s == [s[0]] + s[1..];
      if p(s[0]) then [s[0]] + rest else rest
  }

  /** The number of elements satisfying `p` (`Count(p)`). */
  function Count<T>(s: seq<T>, p: T -> bool): (r: nat)
    ensures r <= |s|
    ensures r == 0 <== forall j :: 0 <= j < |s| ==> !p(s[j])
    decreases |s|
  {
    if |s| == 0 then 0 else (if p(s[0]) then 1 else 0) + Count(s[1..], p)
  }

  /** Counting the matches is measuring the filtered sequence. */
  lemma {:induction false} CountIsFilterLength<T(!new)>(s: seq<T>, p: T -> bool)
    ensures Count(s, p) == |Filter(s, p)|
    decreases |s|
  {
    if |s| > 0 {
      CountIsFilterLength(s[1..], p);
    }
  }

  /** Appending one element adds one to the count exactly when it matches. */
  lemma {:induction false} CountAppend<T>(s: seq<T>, x: T, p: T -> bool)
    ensures Count(s + [x], p) == Count(s, p) + (if p(x) then 1 else 0)
    decreases |s|
  {
    if |s| > 0 {
      assert (s + [x])[1..] == s[1..] + [x];
      CountAppend(s[1..], x, p);
    }
  }

  /** Replacing one element changes the count by what the old element
      contributed and what the new one does. */
  lemma {:induction false} CountUpdate<T>(s: seq<T>, k: nat, x: T, p: T -> bool)
    requires k < |s|
    ensures Count(s[k := x], p) == Count(s, p) - (if p(s[k]) then 1 else 0) + (if p(x) then 1 else 0)
    decreases |s|
  {
    if k > 0 {
      assert s[k := x][1..] == s[1..][k - 1 := x];
      CountUpdate(s[1..], k - 1, x, p);
    }
  }

  /** No two elements share a key (a unique index over `key`). */
  ghost predicate UniqueBy<T, K>(s: seq<T>, key: T -> K) {
    forall i, j :: 0 <= i < j < |s| ==> key(s[i]) != key(s[j])
  }

  /** Under a unique key, two elements with the same key are the same element. */
  lemma UniqueByIndex<T, K>(s: seq<T>, key: T -> K, i: int, j: int)
    requires UniqueBy(s, key)
    requires 0 <= i < |s| && 0 <= j < |s| && key(s[i]) == key(s[j])
    ensures i == j
  {
  }

  lemma UniqueByAppend<T, K>(s: seq<T>, x: T, key: T -> K)
    requires UniqueBy(s, key)
    requires forall j :: 0 <= j < |s| ==> key(s[j]) != key(x)
    ensures UniqueBy(s + [x], key)
  {
  }

  lemma UniqueByUpdate<T, K>(s: seq<T>, i: int, x: T, key: T -> K)
    requires 0 <= i < |s|
    requires UniqueBy(s, key)
    requires forall j :: 0 <= j < |s| && j != i ==> key(s[j]) != key(x)
    ensures UniqueBy(s[i := x], key)
  {
  }

  /** `t` has the keys of `s`, position by position. */
  ghost predicate SameKeys<T, K>(s: seq<T>, t: seq<T>, key: T -> K) {
    |s| == |t| && forall j :: 0 <= j < |s| ==> key(s[j]) == key(t[j])
  }

  lemma UniqueBySameKeys<T, K>(s: seq<T>, t: seq<T>, key: T -> K)
    requires UniqueBy(s, key) && SameKeys(s, t, key)
    ensures UniqueBy(t, key)
  {
    forall i, j | 0 <= i < j < |t| ensures key(t[i]) != key(t[j]) {
      assert key(s[i]) != key(s[j]);
    }
  }

  /** `s` without the element at index `i` (`Remove` on a table). */
  function RemoveAt<T(!new)>(s: seq<T>, i: nat): (r: seq<T>)
    requires i < |s|
    ensures |r| == |s| - 1
    ensures forall k :: 0 <= k < i ==> r[k] == s[k]
    ensures forall k :: i <= k < |r| ==> r[k] == s[k + 1]
    ensures forall x :: x in s ==> x in r || x == s[i]
    ensures forall x :: x in r ==> x in s
  {
    assert s == s[..i] + [s[i]] + s[i + 1..];
    s[..i] + s[i + 1..]
  }

  lemma UniqueByRemove<T(!new), K>(s: seq<T>, i: nat, key: T -> K)
    requires i < |s|
    requires UniqueBy(s, key)
    ensures UniqueBy(RemoveAt(s, i), key)
  {
    var r := RemoveAt(s, i);
    forall a, b | 0 <= a < b < |r|
      ensures key(r[a]) != key(r[b])
    {
      var a' := if a < i then a else a + 1;
      var b' := if b < i then b else b + 1;
      assert r[a] == s[a'] && r[b] == s[b'] && a' < b';
    }
  }

  // ---------------------------------------------------------------------
  // Paging. The service computes `Skip((page - 1) * pageSize).Take(pageSize)`
  // with unchecked 32-bit arithmetic; SQLite runs it as `LIMIT take OFFSET
  // skip`, where a negative OFFSET acts as zero and a negative LIMIT means no
  // limit.

  /** The row offset the service asks for: `(page - 1) * pageSize` in C# `int`. */
  function Offset(page: int, pageSize: int): int
    requires IsInt32(page) && IsInt32(pageSize)
  {
    Wrap32(Wrap32(page - 1) * pageSize)
  }

  /** `OFFSET n`: drops the first `n` rows; a negative `n` drops none. */
  function Skip<T>(s: seq<T>, n: int): (r: seq<T>)
    ensures |r| == if n <= 0 then |s| else |s| - Min(n, |s|)
    ensures forall k :: 0 <= k < |r| ==> r[k] == s[k + (|s| - |r|)]
  {
    if n <= 0 then s else s[Min(n, |s|)..]
  }

  /** `LIMIT n`: keeps the first `n` rows; a negative `n` keeps all. */
  function Take<T>(s: seq<T>, n: int): (r: seq<T>)
    ensures n >= 0 ==> |r| == Min(n, |s|)
    ensures n < 0 ==> r == s
    ensures r == s[..|r|]
  {
    if n < 0 then s else s[..Min(n, |s|)]
  }

  /** The rows `LIMIT size OFFSET n` returns. */
  function Window<T>(s: seq<T>, n: int, size: int): seq<T> {
    Take(Skip(s, n), size)
  }

  /** One page of a query result, as the service and SQLite compute it. */
  function PageOf<T>(s: seq<T>, page: int, pageSize: int): seq<T>
    requires IsInt32(page) && IsInt32(pageSize)
  {
    Window(s, Offset(page, pageSize), pageSize)
  }

  /** `r` occurs in `s` as the contiguous run starting at index `lo`. */
  ghost predicate RunAt<T>(s: seq<T>, r: seq<T>, lo: int) {
    0 <= lo <= |s| - |r| && r == s[lo..lo + |r|]
  }

  /** A window is a contiguous run of `s` of at most `size` rows; for a
      non-negative offset and size it is the slice starting at the offset,
      clamped to the rows there are. */
  lemma WindowIsRun<T>(s: seq<T>, n: int, size: int)
    ensures size >= 0 ==> |Window(s, n, size)| <= size
    ensures exists lo :: RunAt(s, Window(s, n, size), lo)
    ensures n >= 0 && size >= 0 ==>
      var lo := Min(n, |s|);
      Window(s, n, size) == s[lo..Min(lo + size, |s|)]
  {
    var skipped := Skip(s, n);
    var lo := |s| - |skipped|;
    assert skipped == s[lo..];
    var r := Take(skipped, size);
    assert r == Window(s, n, size);
    assert RunAt(s, r, lo);
    if n >= 0 && size >= 0 {
      assert lo == Min(n, |s|);
      assert r == s[lo..Min(lo + size, |s|)];
    }
  }

  /** Without overflow the computed offset is `(page - 1) * pageSize`. */
  lemma OffsetExact(page: int, pageSize: int)
    requires IsInt32(page) && IsInt32(pageSize)
    requires 1 <= page && 0 <= pageSize && (page - 1) * pageSize <= Int32Max
    ensures Offset(page, pageSize) == (page - 1) * pageSize
  {
    var a := page - 1;
    assert Wrap32(a) == a;
    assert 0 <= a * pageSize by {
      assert 0 <= a && 0 <= pageSize;
    }
  }

  /** `r` is the slice of `s` that starts at the computed offset of `page`,
      clamped to the rows there are, and holds at most `pageSize` rows; said
      of a non-negative offset and page size only. */
  ghost predicate PageAtOffset<T>(s: seq<T>, r: seq<T>, page: int, pageSize: int)
    requires IsInt32(page) && IsInt32(pageSize)
  {
    Offset(page, pageSize) >= 0 && pageSize >= 0 ==>
      var lo := Min(Offset(page, pageSize), |s|);
      r == s[lo..Min(lo + pageSize, |s|)]
  }

  /** A page is a contiguous run of `s` of at most `pageSize` rows; when the
      computed offset is not negative it is the slice starting there (which,
      by `OffsetExact`, is `(page - 1) * pageSize` unless that overflows). */
  lemma PageIsSlice<T>(s: seq<T>, page: int, pageSize: int)
    requires IsInt32(page) && IsInt32(pageSize)
    ensures var r := PageOf(s, page, pageSize);
      && (pageSize >= 0 ==> |r| <= pageSize)
      && (exists lo :: RunAt(s, r, lo))
    ensures PageAtOffset(s, PageOf(s, page, pageSize), page, pageSize)
  {
    var n := Offset(page, pageSize);
    assert PageOf(s, page, pageSize) == Window(s, n, pageSize);
    WindowIsRun(s, n, pageSize);
  }

  /** The overflow of the unchecked offset: asking for page 65537 of 32768
      rows computes offset 2^31, which wraps to a negative number, so the
      first rows come back instead of an empty page. */
  lemma PageOffsetWraps<T>(s: seq<T>)
    ensures PageOf(s, 65537, 32768) == s[..Min(32768, |s|)]
  {
    assert Wrap32(65536 * 32768) == Int32Min;
  }

  // ---------------------------------------------------------------------
  // Ordering by a descending key (`OrderByDescending`).

  ghost predicate SortedDesc<T>(s: seq<T>, key: T -> int) {
    forall i, j :: 0 <= i < j < |s| ==> key(s[i]) >= key(s[j])
  }

  /** `x` inserted before the first element whose key is not above its own. */
  function InsertDesc<T>(x: T, s: seq<T>, key: T -> int): (r: seq<T>)
    ensures |r| == |s| + 1
    decreases |s|
  {
    if |s| == 0 then [x]
    else if key(x) >= key(s[0]) then [x] + s
    else [s[0]] + InsertDesc(x, s[1..], key)
  }

  lemma {:induction false} InsertDescPermutes<T>(x: T, s: seq<T>, key: T -> int)
    ensures multiset(InsertDesc(x, s, key)) == multiset(s) + multiset{x}
    decreases |s|
  {
    if |s| > 0 && key(x) < key(s[0]) {
      assert s == [s[0]] + s[1..];
      InsertDescPermutes(x, s[1..], key);
    }
  }

  /** A bound above `x` and every element of `s` stays above the insertion. */
  lemma {:induction false} InsertDescBounded<T>(x: T, s: seq<T>, key: T -> int, b: int)
    requires b >= key(x) && forall j :: 0 <= j < |s| ==> b >= key(s[j])
    ensures forall k :: 0 <= k < |s| + 1 ==> b >= key(InsertDesc(x, s, key)[k])
    decreases |s|
  {
    if |s| > 0 && key(x) < key(s[0]) {
      InsertDescBounded(x, s[1..], key, b);
    }
  }

  lemma {:induction false} InsertDescSorted<T>(x: T, s: seq<T>, key: T -> int)
    requires SortedDesc(s, key)
    ensures SortedDesc(InsertDesc(x, s, key), key)
    decreases |s|
  {
    if |s| > 0 && key(x) < key(s[0]) {
      InsertDescSorted(x, s[1..], key);
      InsertDescBounded(x, s[1..], key, key(s[0]));
    }
  }

  /** A permutation of `s` in descending `key` order. */
  function SortDesc<T>(s: seq<T>, key: T -> int): (r: seq<T>)
    ensures SortedDesc(r, key)
    ensures multiset(r) == multiset(s)
    ensures |r| == |s|
    decreases |s|
  {
    if |s| == 0 then []
    else
      var rest := SortDesc(s[1..], key);
      InsertDescPermutes(s[0], rest, key);
      InsertDescSorted(s[0], rest, key);
      assert s == [s[0]] + s[1..];
      InsertDesc(s[0], rest, key)
  }
}
