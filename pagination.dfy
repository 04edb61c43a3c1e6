/**
 * The `page`/`limit` handling shared by the list and search handlers of
 * backend/controllers/candidates.js: parsing with fallbacks, the skip/limit
 * window the store returns, and the `next`/`prev` descriptors.
 */
module Pagination {
  import opened Basics
  import opened JsText
  import opened Http

  const DefaultPage: int := 1
  const DefaultLimit: int := 10

  /** `parseInt(x, 10) || fallback`: `NaN` and `0` are falsy, anything else is kept, negatives too. */
  function OrFallback(parsed: Option<int>, fallback: int): int {
    match parsed
    case Some(n) => if n != 0 then n else fallback
    case None => fallback
  }

  /** The page number of a request. */
  function PageNumber(p: Option<string>): (n: int)
    ensures n != 0
  {
    OrFallback(ParseParam(p, Decimal), DefaultPage)
  }

  /** The page size of a request. */
  function PageLimit(p: Option<string>): (n: int)
    ensures n != 0
  {
    OrFallback(ParseParam(p, Decimal), DefaultLimit)
  }

  /** `startIndex = (page - 1) * limit`, the number of records skipped. */
  function StartIndex(page: int, limit: int): int {
    (page - 1) * limit
  }

  /** `endIndex = page * limit`. */
  function EndIndex(page: int, limit: int): int {
    page * limit
  }

  /** `next` when `endIndex < total`, `prev` when `startIndex > 0`. */
  function Links(page: int, limit: int, total: int): Pagination {
    Pagination(
      next := if EndIndex(page, limit) < total then Some(PageRef(page + 1, limit)) else None,
      prev := if StartIndex(page, limit) > 0 then Some(PageRef(page - 1, limit)) else None)
  }

  function Abs(n: int): nat {
    if n < 0 then -n else n
  }

  function Min(a: int, b: int): int {
    if a <= b then a else b
  }

  /**
   * `.skip(skip).limit(limit)`: the records from position `skip` on, at most
   * `|limit|` of them (a negative limit asks for a single batch of that size).
   */
  function Window<T>(s: seq<T>, skip: nat, limit: int): (w: seq<T>)
    requires limit != 0
    ensures |w| <= Abs(limit)
    ensures skip >= |s| ==> w == []
    ensures skip < |s| ==> |w| == Min(Abs(limit), |s| - skip)
    ensures forall i :: 0 <= i < |w| ==> skip + i < |s| && w[i] == s[skip + i]
  {
    if skip >= |s| then [] else s[skip..Min(|s|, skip + Abs(limit))]
  }

  /** An absent, non-numeric or zero parameter falls back to page 1 and limit 10. */
  lemma Fallbacks(p: Option<string>)
    requires ParseParam(p, Decimal).None? || ParseParam(p, Decimal) == Some(0)
    ensures PageNumber(p) == 1 && PageLimit(p) == 10
  {
  }

  /** Any non-zero integer a client writes, negative ones included, is taken as it is. */
  lemma NumbersKept(k: int)
    requires k != 0
    ensures PageNumber(Some(SignedDecimalText(k))) == k
    ensures PageLimit(Some(SignedDecimalText(k))) == k
  {
    ParseSignedDecimal(k, Decimal);
  }

  /**
   * With a positive limit the descriptors say what a client expects: `prev`
   * exactly when the page is after the first, `next` exactly when records
   * remain beyond this page.
   */
  lemma LinksForPositiveLimit(page: int, limit: int, total: int)
    requires limit > 0
    ensures Links(page, limit, total).prev.Some? <==> page > 1
    ensures Links(page, limit, total).next.Some? <==> page * limit < total
    ensures Links(page, limit, total).next.Some? ==> Links(page, limit, total).next.value == PageRef(page + 1, limit)
    ensures Links(page, limit, total).prev.Some? ==> Links(page, limit, total).prev.value == PageRef(page - 1, limit)
  {
    if page > 1 {
      assert (page - 1) * limit >= limit by {
        MulMonotone(page - 1, limit);
      }
    } else {
      assert (1 - page) * limit >= 0 by {
        MulMonotone(1 - page, limit);
      }
    }
  }

  lemma MulMonotone(a: int, b: int)
    requires a >= 0 && b > 0
    ensures a * b >= 0
    ensures a >= 1 ==> a * b >= b
  {
  }

  /** The records on pages 1 to `k` in turn, each window taken as the handler takes it. */
  function FirstPages<T>(s: seq<T>, k: nat, limit: int): seq<T>
    requires limit >= 1
  {
    if k == 0 then [] else FirstPages(s, k - 1, limit) + Window(s, StartIndex(k, limit), limit)
  }

  /**
   * With a positive limit, consecutive pages partition the ordered records: pages
   * 1 to `k` together are exactly the first `k * limit` of them, with no overlap
   * and no gap.
   */
  lemma {:induction false} PagesPartition<T>(s: seq<T>, k: nat, limit: int)
    requires limit >= 1
    ensures k * limit >= 0
    ensures FirstPages(s, k, limit) == s[..Min(k * limit, |s|)]
  {
    MulMonotone(k, limit);
    if k > 0 {
      PagesPartition(s, k - 1, limit);
      var start := StartIndex(k, limit);
      NextPageStart(k, limit);
      PrefixThenWindow(s, start, limit);
    }
  }

  /** Page `k` starts where pages 1 to `k - 1` end and ends `limit` later. */
  lemma NextPageStart(k: nat, limit: int)
    requires k >= 1 && limit >= 1
    ensures StartIndex(k, limit) == (k - 1) * limit >= 0
    ensures k * limit == StartIndex(k, limit) + limit
  {
    MulMonotone(k - 1, limit);
  }

  /** The first `start` records followed by the window at `start` are the first `start + limit` records. */
  lemma PrefixThenWindow<T>(s: seq<T>, start: nat, limit: int)
    requires limit >= 1
    ensures s[..Min(start, |s|)] + Window(s, start, limit) == s[..Min(start + limit, |s|)]
  {
    if start < |s| {
      assert s[..Min(start + limit, |s|)] == s[..start] + s[start..Min(|s|, start + limit)];
    }
  }

  /** A page that starts at or past the last record is empty and has no `next`. */
  lemma PastTheEnd<T>(s: seq<T>, page: int, limit: int)
    requires limit > 0 && StartIndex(page, limit) >= |s|
    ensures Window(s, StartIndex(page, limit), limit) == []
    ensures Links(page, limit, |s|).next.None?
  {
  }
}
