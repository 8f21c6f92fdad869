/** Pages of a query, and the total that is only counted when it must be. */
module Pagination {

  datatype PageMeta = PageMeta(page: int, perPage: int, total: int, totalPages: int)

  function Max(a: int, b: int): int {
    if a < b then b else a
  }

  function Min(a: int, b: int): int {
    if a < b then a else b
  }

  /** OFFSET and LIMIT */
  function Slice<T>(rows: seq<T>, offset: nat, limit: nat): seq<T> {
    rows[Min(offset, |rows|)..Min(offset + limit, |rows|)]
  }

  function Ceil(a: nat, b: nat): nat
    requires b > 0
  {
    (a + b - 1) / b
  }

  function Offset(page: nat, perPage: nat): (n: nat)
    requires page >= 1
    ensures page == 1 ==> n == 0
  {
    (page - 1) * perPage
  }

  function Paginate<T>(rows: seq<T>, page: int, perPage: int): (seq<T>, PageMeta) {
    var page := Max(1, page);
    var perPage := Min(Max(1, perPage), 100);
    var items := Slice(rows, Offset(page, perPage), perPage);
    var total := if 0 < |items| < perPage then Offset(page, perPage) + |items| else |rows|;
    (items, PageMeta(page, perPage, total, if total > 0 then Ceil(total, perPage) else 1))
  }

  /** The page reported is the one asked for, from 1 on, its size the one asked for,
      from 1 to 100, and it holds the rows from there on. */
  lemma PageIsWhatWasAskedFor<T>(rows: seq<T>, page: int, perPage: int, j: nat)
    ensures var (items, meta) := Paginate(rows, page, perPage);
      && meta.page == (if page >= 1 then page else 1)
      && meta.perPage == (if perPage < 1 then 1 else if perPage > 100 then 100 else perPage)
      && 0 <= (meta.page - 1) * meta.perPage
      && (j < |items| <==> j < meta.perPage && (meta.page - 1) * meta.perPage + j < |rows|)
      && (j < |items| ==> items[j] == rows[(meta.page - 1) * meta.perPage + j])
  {
    var (items, meta) := Paginate(rows, page, perPage);
    assert Offset(meta.page, meta.perPage) == (meta.page - 1) * meta.perPage;
    SliceMeans(rows, Offset(meta.page, meta.perPage), meta.perPage, j);
  }

  lemma SliceMeans<T>(rows: seq<T>, offset: nat, limit: nat, j: nat)
    ensures j < |Slice(rows, offset, limit)| <==> j < limit && offset + j < |rows|
    ensures j < |Slice(rows, offset, limit)| ==> Slice(rows, offset, limit)[j] == rows[offset + j]
  {
  }

  /** A page that is neither empty nor full tells the total without counting. */
  lemma TotalIsTrue<T>(rows: seq<T>, page: int, perPage: int)
    ensures var meta := Paginate(rows, page, perPage).1;
      meta.total == |rows| && meta.page >= 1 && 1 <= meta.perPage <= 100 && meta.totalPages >= 1
  {
    var p, k := Max(1, page), Min(Max(1, perPage), 100);
    CeilBounds(|rows|, k);
  }

  lemma CeilBounds(a: nat, b: nat)
    requires b > 0
    ensures Ceil(a, b) * b >= a
    ensures a > 0 ==> Ceil(a, b) >= 1 && (Ceil(a, b) - 1) * b < a
  {
    var n := a + b - 1;
    assert n == n / b * b + n % b;
    assert (Ceil(a, b) - 1) * b == Ceil(a, b) * b - b;
  }

  /** Pages 1 to `k`, one after another. */
  function Pages<T>(rows: seq<T>, k: nat, perPage: int): seq<T> {
    if k == 0 then [] else Pages(rows, k - 1, perPage) + Paginate(rows, k, perPage).0
  }

  lemma {:induction false} PagesAreAPrefix<T>(rows: seq<T>, k: nat, perPage: int)
    requires 1 <= perPage <= 100
    ensures 0 <= k * perPage
    ensures Pages(rows, k, perPage) == rows[..Min(k * perPage, |rows|)]
  {
    if k > 0 {
      PagesAreAPrefix(rows, k - 1, perPage);
      assert k * perPage == (k - 1) * perPage + perPage;
      assert Offset(k, perPage) == (k - 1) * perPage;
      SlicesJoin(rows, Offset(k, perPage), perPage);
    }
  }

  lemma SlicesJoin<T>(rows: seq<T>, offset: nat, limit: nat)
    ensures rows[..Min(offset, |rows|)] + Slice(rows, offset, limit) == rows[..Min(offset + limit, |rows|)]
  {
  }

  /** Reading pages 1 to the last gives every row once, in order. */
  lemma PagesAreTheWholeList<T>(rows: seq<T>, page: int, perPage: int)
    ensures var meta := Paginate(rows, page, perPage).1; Pages(rows, meta.totalPages, meta.perPage) == rows
  {
    var k := Min(Max(1, perPage), 100);
    TotalIsTrue(rows, page, perPage);
    var last := if |rows| > 0 then Ceil(|rows|, k) else 1;
    PagesAreAPrefix(rows, last, k);
    CeilBounds(|rows|, k);
  }

  lemma Times(a: nat, b: nat, k: nat)
    requires a <= b
    ensures a * k <= b * k
  {
  }

  /** Every page before the last is full, the last has rows unless there are none,
      and past it there is nothing. */
  lemma OnlyTheLastPageIsShort<T>(rows: seq<T>, page: int, perPage: int)
    ensures var (items, meta) := Paginate(rows, page, perPage);
      && (meta.page < meta.totalPages ==> |items| == meta.perPage)
      && (meta.page == meta.totalPages ==> (items != [] <==> rows != []))
      && (meta.page > meta.totalPages ==> items == [])
  {
    var (items, meta) := Paginate(rows, page, perPage);
    TotalIsTrue(rows, page, perPage);
    var p, k, last := meta.page, meta.perPage, meta.totalPages;
    CeilBounds(|rows|, k);
    assert p * k == Offset(p, k) + k;
    if p < last {
      Times(p, last - 1, k);
    } else if p > last {
      Times(last, p - 1, k);
    }
  }
}
