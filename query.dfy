/**
 * The query operations the controllers ask of the document store:
 * `find(filter)`, `sort({field: -1})`, `skip(n).limit(m)`, and the page
 * count `Math.ceil(total / limit)` they report back.
 */
module Query {
  import opened Wrappers

  /** `r` can be obtained from `s` by deleting elements (relative order kept). */
  predicate IsSubsequence<T(==)>(r: seq<T>, s: seq<T>)
    decreases |s|
  {
    |r| == 0 || (|s| > 0 && if r[0] == s[0] then IsSubsequence(r[1..], s[1..]) else IsSubsequence(r, s[1..]))
  }

  lemma {:induction false} SubsequenceDropHead<T>(r: seq<T>, s: seq<T>)
    requires |r| > 0 && IsSubsequence(r, s)
    ensures IsSubsequence(r[1..], s)
    decreases |s|, |r|
  {
    if |r[1..]| > 0 {
      if r[0] == s[0] {
        SubsequenceDropHead(r[1..], s[1..]);
        SubsequenceTail(r[1..], s);
      } else {
        SubsequenceDropHead(r, s[1..]);
        SubsequenceTail(r[1..], s);
      }
    }
  }

  /** A subsequence of the tail is a subsequence of the whole. */
  lemma {:induction false} SubsequenceTail<T>(r: seq<T>, s: seq<T>)
    requires |s| > 0 && IsSubsequence(r, s[1..])
    ensures IsSubsequence(r, s)
    decreases |s|, |r|
  {
    if |r| > 0 && r[0] == s[0] {
      SubsequenceDropHead(r, s[1..]);
    }
  }

  /**
   * `r` is `s` filtered by `p`: exactly the elements that satisfy `p`, each
   * as often as in `s`, in the order of `s`.
   */
  ghost predicate FilteredBy<T(!new)>(r: seq<T>, s: seq<T>, p: T -> bool) {
    && |r| <= |s|
    && (forall i :: 0 <= i < |r| ==> p(r[i]))
    && (forall x :: x in r <==> x in s && p(x))
    && (forall x :: multiset(r)[x] == if p(x) then multiset(s)[x] else 0)
    && IsSubsequence(r, s)
  }

  /** `find(filter)` */
  function Filter<T(==,!new)>(s: seq<T>, p: T -> bool): (r: seq<T>)
    ensures FilteredBy(r, s, p)
  {
    if |s| == 0 then []
    else
      var rest := Filter(s[1..], p);
      FilterStep(s, p, rest);
      if p(s[0]) then [s[0]] + rest else rest
  }

  /** Filtering the tail, then keeping or dropping the head. */
  lemma FilterStep<T(!new)>(s: seq<T>, p: T -> bool, rest: seq<T>)
    requires |s| > 0 && FilteredBy(rest, s[1..], p)
    ensures FilteredBy(if p(s[0]) then [s[0]] + rest else rest, s, p)
  {
    assert s == [s[0]] + s[1..];
    if p(s[0]) {
      FilterKeep(s[0], s[1..], p, rest);
    } else {
      FilterDrop(s[0], s[1..], p, rest);
    }
  }

  lemma FilterKeep<T(!new)>(x0: T, tail: seq<T>, p: T -> bool, rest: seq<T>)
    requires p(x0) && FilteredBy(rest, tail, p)
    ensures FilteredBy([x0] + rest, [x0] + tail, p)
  {
    var s, r := [x0] + tail, [x0] + rest;
    assert s[0] == x0 && s[1..] == tail;
    assert r[0] == x0 && r[1..] == rest;
    assert multiset(s) == multiset([x0]) + multiset(tail);
    assert multiset(r) == multiset([x0]) + multiset(rest);
    assert forall i :: 1 <= i < |r| ==> r[i] == rest[i - 1];
    assert forall i :: 0 <= i < |r| ==> p(r[i]);
    assert forall x :: x in r <==> x in s && p(x);
    assert forall x :: multiset(r)[x] == if p(x) then multiset(s)[x] else 0;
    assert IsSubsequence(r, s);
  }

  lemma FilterDrop<T(!new)>(x0: T, tail: seq<T>, p: T -> bool, rest: seq<T>)
    requires !p(x0) && FilteredBy(rest, tail, p)
    ensures FilteredBy(rest, [x0] + tail, p)
  {
    var s := [x0] + tail;
    assert s[0] == x0 && s[1..] == tail;
    assert multiset(s) == multiset([x0]) + multiset(tail);
    assert forall x :: x in rest <==> x in s && p(x);
    assert forall x :: multiset(rest)[x] == if p(x) then multiset(s)[x] else 0;
    SubsequenceTail(rest, s);
  }

  /** Filtering twice with the same predicate changes nothing the second time. */
  lemma {:induction false} FilterIdempotent<T(!new)>(s: seq<T>, p: T -> bool)
    ensures Filter(Filter(s, p), p) == Filter(s, p)
  {
    if |s| > 0 {
      FilterIdempotent(s[1..], p);
      if p(s[0]) {
        var rest := Filter(s[1..], p);
        assert ([s[0]] + rest)[1..] == rest;
      }
    }
  }

  /** Filtering by a conjunction is filtering by each conjunct in turn. */
  lemma {:induction false} FilterConjunction<T(!new)>(s: seq<T>, p: T -> bool, q: T -> bool)
    ensures Filter(s, x => p(x) && q(x)) == Filter(Filter(s, p), q)
  {
    if |s| > 0 {
      FilterConjunction(s[1..], p, q);
      if p(s[0]) {
        var rest := Filter(s[1..], p);
        assert ([s[0]] + rest)[1..] == rest;
      }
    }
  }

  /** Number of elements of `s` that satisfy `p` (`countDocuments(filter)`). */
  function Count<T>(s: seq<T>, p: T -> bool): (n: nat)
    ensures n <= |s|
  {
    if |s| == 0 then 0 else (if p(s[0]) then 1 else 0) + Count(s[1..], p)
  }

  lemma {:induction false} CountIsFilterLength<T(!new)>(s: seq<T>, p: T -> bool)
    ensures Count(s, p) == |Filter(s, p)|
  {
    if |s| > 0 {
      CountIsFilterLength(s[1..], p);
    }
  }

  /** `s` is in descending order of `key`. */
  ghost predicate SortedDesc<T>(s: seq<T>, key: T -> int) {
    forall i, j :: 0 <= i < j < |s| ==> key(s[i]) >= key(s[j])
  }

  /** Inserts `x` into a descending sequence after every element with a larger key. */
  function InsertDesc<T>(x: T, s: seq<T>, key: T -> int): (r: seq<T>)
    requires SortedDesc(s, key)
    ensures |r| == |s| + 1 && SortedDesc(r, key)
    ensures multiset(r) == multiset(s) + multiset{x}
    ensures r[0] == x || (|s| > 0 && r[0] == s[0])
  {
    if |s| == 0 || key(s[0]) <= key(x) then
      [x] + s
    else
      var rest := InsertDesc(x, s[1..], key);
      InsertDescBehind(x, s, key, rest);
      [s[0]] + rest
  }

  /** The head of `s`, ahead of `x`, stays ahead of the tail with `x` inserted. */
  lemma InsertDescBehind<T>(x: T, s: seq<T>, key: T -> int, rest: seq<T>)
    requires |s| > 0 && SortedDesc(s, key) && key(s[0]) > key(x)
    requires SortedDesc(rest, key) && multiset(rest) == multiset(s[1..]) + multiset{x}
    ensures SortedDesc([s[0]] + rest, key)
    ensures multiset([s[0]] + rest) == multiset(s) + multiset{x}
  {
    assert s == [s[0]] + s[1..];
    var r := [s[0]] + rest;
    forall j | 0 <= j < |rest|
      ensures key(s[0]) >= key(rest[j])
    {
      assert rest[j] in multiset(rest);
      if rest[j] != x {
        assert rest[j] in multiset(s[1..]);
        var k :| 0 <= k < |s| - 1 && s[1..][k] == rest[j];
        assert s[k + 1] == rest[j];
      }
    }
    forall i, j | 0 <= i < j < |r|
      ensures key(r[i]) >= key(r[j])
    {
      assert r[j] == rest[j - 1];
      if i > 0 {
        assert r[i] == rest[i - 1];
      }
    }
  }

  /**
   * `sort({field: -1})`: a permutation of `s` in descending key order.
   * The store does not promise an order among equal keys, and neither
   * does this contract.
   */
  function SortDesc<T>(s: seq<T>, key: T -> int): (r: seq<T>)
    ensures |r| == |s| && SortedDesc(r, key)
    ensures multiset(r) == multiset(s)
  {
    if |s| == 0 then []
    else
      assert s == [s[0]] + s[1..];
      InsertDesc(s[0], SortDesc(s[1..], key), key)
  }

  /** The sum of `f` over `s` (`reduce((sum, x) => sum + f(x), 0)`). */
  function SumOf<T>(s: seq<T>, f: T -> int): int {
    if |s| == 0 then 0 else f(s[0]) + SumOf(s[1..], f)
  }

  lemma {:induction false} SumOfInsertDesc<T>(x: T, s: seq<T>, key: T -> int, f: T -> int)
    requires SortedDesc(s, key)
    ensures SumOf(InsertDesc(x, s, key), f) == f(x) + SumOf(s, f)
  {
    if |s| > 0 && key(s[0]) > key(x) {
      SumOfInsertDesc(x, s[1..], key, f);
      assert ([s[0]] + InsertDesc(x, s[1..], key))[1..] == InsertDesc(x, s[1..], key);
    } else {
      assert ([x] + s)[1..] == s;
    }
  }

  /** Sorting does not change a sum. */
  lemma {:induction false} SumOfSortDesc<T>(s: seq<T>, key: T -> int, f: T -> int)
    ensures SumOf(SortDesc(s, key), f) == SumOf(s, f)
  {
    if |s| > 0 {
      SumOfSortDesc(s[1..], key, f);
      SumOfInsertDesc(s[0], SortDesc(s[1..], key), key, f);
    }
  }

  /** The elements of `s` in reverse order (creation order turned newest-first). */
  function Reverse<T>(s: seq<T>): (r: seq<T>)
    ensures |r| == |s| && forall i :: 0 <= i < |s| ==> r[i] == s[|s| - 1 - i]
  {
    seq(|s|, i requires 0 <= i < |s| => s[|s| - 1 - i])
  }

  function Min(a: int, b: int): int {
    if a <= b then a else b
  }

  function Abs(n: int): nat {
    if n < 0 then -n else n
  }

  /**
   * `skip(skip).limit(limit)` on an already ordered result. A limit of 0 is
   * the store's "no limit"; a negative limit `-n` returns at most `n` items
   * in a single batch.
   */
  function PageSlice<T>(items: seq<T>, skip: nat, limit: int): (r: seq<T>)
    ensures |r| == if skip >= |items| then 0 else if limit == 0 then |items| - skip else Min(Abs(limit), |items| - skip)
    ensures skip + |r| <= |items| || r == []
    ensures forall i :: 0 <= i < |r| ==> r[i] == items[skip + i]
  {
    if skip >= |items| then []
    else if limit == 0 then items[skip..]
    else items[skip..Min(skip + Abs(limit), |items|)]
  }

  /**
   * `Math.ceil(total / limit)`: for a positive limit, the least page count
   * covering `total` items; for a negative limit `-n`, the ceiling of a
   * negative quotient, minus the number of whole batches of `n`; `None` for
   * a zero limit, where JavaScript gives `Infinity` or `NaN`.
   */
  function PageCount(total: nat, limit: int): (pages: Option<int>)
    ensures pages.None? <==> limit == 0
    ensures limit > 0 ==> pages.value >= 0 && total <= pages.value * limit
    ensures limit > 0 && pages.value > 0 ==> (pages.value - 1) * limit < total
    ensures limit < 0 ==> pages.value <= 0 && -pages.value * -limit <= total < (-pages.value + 1) * -limit
  {
    if limit == 0 then None
    else if limit > 0 then Some((total + limit - 1) / limit)
    else Some(-(total / -limit))
  }

  /** One page of a listing: its items, the page and limit asked for, the total and the page count. */
  datatype Page<T> = Page(items: seq<T>, page: int, limit: int, total: nat, pages: Option<int>)

  /**
   * `p` is page `page` of `all` at `limit` to a page: it reports the page,
   * the limit, the number of items and the page count, and holds exactly
   * the slice that starts at position `(page - 1) * limit`.
   */
  ghost predicate IsPageOf<T>(p: Page<T>, all: seq<T>, page: int, limit: int) {
    && p.page == page && p.limit == limit && p.total == |all|
    && p.pages == PageCount(|all|, limit)
    && (page - 1) * limit >= 0
    && p.items == PageSlice(all, (page - 1) * limit, limit)
  }

  /** Page `page` of `all`, `limit` to a page, for a non-negative skip. */
  function Paged<T(==)>(all: seq<T>, page: int, limit: int): (p: Page<T>)
    requires (page - 1) * limit >= 0
    ensures IsPageOf(p, all, page, limit)
    ensures forall x :: x in p.items ==> x in all
  {
    var skip := (page - 1) * limit;
    Page(PageSlice(all, skip, limit), page, limit, |all|, PageCount(|all|, limit))
  }

  /** A page of a positive size is non-empty exactly when its number is at most the page count. */
  lemma PageNonEmptyIffWithinCount<T>(items: seq<T>, limit: nat, page: nat)
    requires limit > 0 && page >= 1
    ensures |PageSlice(items, (page - 1) * limit, limit)| > 0 <==> page <= PageCount(|items|, limit).value
  {
    var pages := PageCount(|items|, limit).value;
    if page <= pages {
      MulMono(page - 1, pages - 1, limit);
    } else {
      MulMono(pages, page - 1, limit);
    }
  }

  /** The same for a whole page: with a positive limit and a page from 1 on, it is non-empty exactly within the page count. */
  lemma PagedNonEmptyIffWithinCount<T>(all: seq<T>, page: int, limit: int)
    requires limit > 0 && page >= 1
    ensures (page - 1) * limit >= 0
    ensures |Paged(all, page, limit).items| > 0 <==> page <= Paged(all, page, limit).pages.value
  {
    MulMono(0, page - 1, limit);
    PageNonEmptyIffWithinCount(all, limit, page);
  }

  lemma MulMono(a: nat, b: nat, c: nat)
    requires a <= b
    ensures a * c <= b * c
  {
  }

  /**
   * Every item appears on exactly the page its position says: item `k` is at
   * position `k % limit` of page `k / limit + 1`.
   */
  lemma ItemOnItsPage<T>(items: seq<T>, limit: nat, k: nat)
    requires limit > 0 && k < |items|
    ensures var skip := (k / limit) * limit;
            k % limit < |PageSlice(items, skip, limit)| &&
            PageSlice(items, skip, limit)[k % limit] == items[k]
  {
    var skip := (k / limit) * limit;
    assert skip + k % limit == k;
  }
}
