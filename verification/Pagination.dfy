/**
 Pagination on Go's 64-bit `int`: every operation below is on `int64`, so verifying it shows that none
 overflows.
 Source: backend/internal/api/operations.go (collectionPage to writePageResult) and
 backend/internal/api/runs.go (checkedPaginationOffset, writeRunPage).
 */
module Pagination {
  import opened Arithmetic
  import opened Common

  newtype int64 = x: int | -0x8000_0000_0000_0000 <= x <= 0x7FFF_FFFF_FFFF_FFFF

  const MAX_INT: int64 := 0x7FFF_FFFF_FFFF_FFFF
  const MAX_PAGE_LIMIT: int64 := 100

  function Min(a: int, b: int): int {
    if a < b then a else b
  }

  /** Comparing a quotient compares the product: `k <= total / limit` means `k * limit <= total`. */
  lemma QuotientBound(k: int, limit: int, total: int)
    requires limit >= 1 && total >= 0 && k >= 0
    ensures k <= total / limit <==> k * limit <= total
  {
    var q := total / limit;
    assert q * limit <= total < q * limit + limit;
    if k <= q {
      MulMonotone(k, q, limit);
    } else {
      MulMonotone(q + 1, k, limit);
    }
  }

  /** `collectionPage`, after the query values are parsed */
  function CollectionPage(all: bool, page: int64, limit: int64): (r: (int64, int64))
    ensures r.0 >= 1 && 1 <= r.1 <= MAX_PAGE_LIMIT
    ensures all ==> r == (1, 100)
    ensures !all ==> r.0 == (if page >= 1 then page else 1) && r.1 == if 1 <= limit <= 100 then limit else 50
  {
    var page := if page < 1 then 1 else page;
    if all then (1, MAX_PAGE_LIMIT)
    else if limit < 1 || limit > MAX_PAGE_LIMIT then (page, 50)
    else (page, limit)
  }

  /** The index at which a page begins, on mathematical integers. */
  function FirstIndex(page: int, limit: int, total: int): int {
    if page <= 1 then 0 else Min((page - 1) * limit, total)
  }

  /** `pageStart`: the first item of a page, or the end of the list when the page lies beyond it. */
  function PageStart(page: int64, limit: int64, total: int64): (start: int64)
    requires limit >= 1 && total >= 0
    ensures start as int == FirstIndex(page as int, limit as int, total as int)
  {
    if page <= 1 then 0
    else
      QuotientBound(page as int - 1, limit as int, total as int);
      if page - 1 > total / limit then total
      else
        MulMonotone(0, page as int - 1, limit as int);
        (page - 1) * limit
  }

  /** `pageOffset`: the offset for a repository query, capped at the largest int. */
  function PageOffset(page: int64, limit: int64): (offset: int64)
    requires limit >= 1
    ensures offset as int == FirstIndex(page as int, limit as int, MAX_INT as int)
  {
    PageStart(page, limit, MAX_INT)
  }

  /** `checkedPaginationOffset` accepts exactly the offsets that an int can hold. */
  function CheckedOffset(page: int64, limit: int64): (offset: Option<int64>)
    ensures offset.Some? <==> page >= 1 && limit >= 1 && (page as int - 1) * limit as int <= MAX_INT as int
    ensures offset.Some? ==> offset.value as int == (page as int - 1) * limit as int
  {
    if page < 1 || limit < 1 then None
    else
      QuotientBound(page as int - 1, limit as int, MAX_INT as int);
      if page - 1 > MAX_INT / limit then None
      else
        MulMonotone(0, page as int - 1, limit as int);
        Some((page - 1) * limit)
  }

  /** The page count of `writePageResult` */
  function PageCount(total: int64, limit: int64): int64
    requires limit >= 1 && total >= 0
  {
    QuotientAtMost(total as int, limit as int);
    var pages := total / limit;
    if total % limit != 0 || pages == 0 then pages + 1 else pages
  }

  /** The page count of `writeRunPage` */
  function RunPageCount(total: int64, limit: int64): int64
    requires limit >= 1 && total >= 0
  {
    QuotientAtMost(total as int, limit as int);
    var pages := if total % limit != 0 then total / limit + 1 else total / limit;
    if pages == 0 then 1 else pages
  }

  lemma QuotientAtMost(total: int, limit: int)
    requires limit >= 1 && total >= 0
    ensures 0 <= total / limit <= total
    ensures total % limit != 0 ==> total / limit < total
  {
    var q := total / limit;
    assert q * limit + total % limit == total && 0 <= total % limit < limit;
    MulMonotone(1, limit, q);
  }

  /** Both count the least number of pages, at least one, that hold every item. */
  lemma PageCountsAgree(total: int64, limit: int64)
    requires limit >= 1 && total >= 0
    ensures PageCount(total, limit) == RunPageCount(total, limit) >= 1
    ensures PageCount(total, limit) as int * limit as int >= total as int
    ensures PageCount(total, limit) > 1 ==> (PageCount(total, limit) as int - 1) * limit as int < total as int
  {
    var q := total as int / limit as int;
    assert q * limit as int + total as int % limit as int == total as int;
    assert (q + 1) * limit as int == q * limit as int + limit as int;
    assert (q - 1) * limit as int == q * limit as int - limit as int;
  }

  // ---- The pages of a list ----

  /** `writePage`: the items of one page. */
  method WritePage<T>(items: seq<T>, page: int64, limit: int64) returns (slice: seq<T>)
    requires limit >= 1 && page >= 1 && |items| <= MAX_INT as int
    ensures slice == PageOf(items, page as int, limit as int)
  {
    var total := |items| as int64;
    var start := PageStart(page, limit, total);
    var end := total;
    if limit <= total - start {
      end := start + limit;
    }
    PageBounds(page as int, limit as int, |items|, start as int, end as int);
    slice := items[start..end];
  }

  lemma PageBounds(page: int, limit: int, total: int, start: int, end: int)
    requires page >= 1 && limit >= 1 && total >= 0
    requires start == FirstIndex(page, limit, total)
    requires end == if limit <= total - start then start + limit else total
    ensures start == Min((page - 1) * limit, total) && end == Min(page * limit, total) && 0 <= start <= end
  {
    var first := (page - 1) * limit;
    assert page * limit == first + limit;
    MulMonotone(0, page - 1, limit);
  }

  /** Page `page` of the list: the items from `(page - 1) * limit` up to `page * limit`. */
  function PageOf<T>(items: seq<T>, page: int, limit: int): seq<T>
    requires page >= 1 && limit >= 1
  {
    MulMonotone(0, page - 1, limit);
    MulMonotone(page - 1, page, limit);
    items[Min((page - 1) * limit, |items|)..Min(page * limit, |items|)]
  }

  function FirstPages<T>(items: seq<T>, count: nat, limit: int): seq<T>
    requires limit >= 1
  {
    if count == 0 then [] else FirstPages(items, count - 1, limit) + PageOf(items, count, limit)
  }

  lemma {:induction false} FirstPagesArePrefix<T>(items: seq<T>, count: nat, limit: int)
    requires limit >= 1
    ensures 0 <= count * limit
    ensures FirstPages(items, count, limit) == items[..Min(count * limit, |items|)]
    decreases count
  {
    MulMonotone(0, count, limit);
    if count > 0 {
      FirstPagesArePrefix(items, count - 1, limit);
      MulMonotone(count - 1, count, limit);
    }
  }

  /** Every page that the list reaches beyond is full. */
  lemma PageIsFull<T>(items: seq<T>, page: int, limit: int)
    requires page >= 1 && limit >= 1 && page * limit <= |items|
    ensures |PageOf(items, page, limit)| == limit
  {
    assert page * limit == (page - 1) * limit + limit;
  }

  /** The pages partition the list: in order they are the list, and every page after the last is empty. */
  lemma PagesPartition<T>(items: seq<T>, limit: int64, beyond: int)
    requires limit >= 1 && |items| <= MAX_INT as int
    ensures var pages := PageCount(|items| as int64, limit) as int;
            && pages >= 1
            && FirstPages(items, pages, limit as int) == items
            && (beyond > pages ==> PageOf(items, beyond, limit as int) == [])
            && (1 <= beyond < pages ==> |PageOf(items, beyond, limit as int)| == limit as int)
  {
    var pages := PageCount(|items| as int64, limit) as int;
    PageCountsAgree(|items| as int64, limit);
    FirstPagesArePrefix(items, pages, limit as int);
    assert items[..|items|] == items;
    if beyond > pages {
      MulMonotone(pages, beyond - 1, limit as int);
      MulMonotone(beyond - 1, beyond, limit as int);
    } else if 1 <= beyond < pages {
      MulMonotone(beyond, pages - 1, limit as int);
      PageIsFull(items, beyond, limit as int);
    }
  }
}
