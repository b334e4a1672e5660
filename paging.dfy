/** Paging as the repository uses it from Spring Data and Querydsl.
    None of this is code of the repository: `Pageable`, `PageImpl` and
    `PageableExecutionUtils.getPage` belong to Spring Data Commons, `offset`
    and `limit` to Querydsl. Their behaviour is written out here as explicit
    assumptions, and what the repository relies on is proved from them. */
module Paging {

  /** A page request: zero-based page index and page size. */
  datatype Pageable = Pageable(pageNumber: nat, pageSize: nat) {

    /** `Pageable.getOffset()`: the index of the first row of the page. */
    function Offset(): nat {
      pageNumber * pageSize
    }
  }

  /** A page of results with the total number of rows behind it. */
  datatype Page<T> = Page(content: seq<T>, pageable: Pageable, total: nat)

  function Min(a: nat, b: nat): nat {
    if a <= b then a else b
  }

  /** How many rows `offset(o).limit(l)` leaves of `size` rows. */
  function WindowLength(size: nat, offset: nat, limit: nat): nat {
    if offset >= size then 0 else Min(limit, size - offset)
  }

  /** Querydsl's `offset(o).limit(l)`: skip `o` rows, keep at most `l` rows. */
  function Window<T>(s: seq<T>, offset: nat, limit: nat): (w: seq<T>)
    ensures |w| == WindowLength(|s|, offset, limit)
    ensures |w| <= limit
    ensures forall i :: 0 <= i < |w| ==> offset + i < |s| && w[i] == s[offset + i]
  {
    if offset >= |s| then [] else s[offset..offset + Min(limit, |s| - offset)]
  }

  /** Assumption (Spring Data's `PageImpl(content, pageable, total)`):
      when the content is non-empty and the requested page reaches past
      `total`, the constructor replaces the total by offset + content size. */
  function PageImplTotal(contentSize: nat, p: Pageable, total: nat): nat {
    if contentSize > 0 && p.Offset() + p.pageSize > total then p.Offset() + contentSize else total
  }

  /** `new PageImpl<>(content, pageable, total)`. */
  function NewPage<T>(content: seq<T>, p: Pageable, total: nat): (pg: Page<T>)
    ensures pg.content == content && pg.pageable == p
  {
    Page(content, p, PageImplTotal(|content|, p, total))
  }

  /** Assumption (Spring Data's `PageableExecutionUtils.getPage`): the count
      supplier is invoked unless the page itself fixes the total, that is
      unless the first page is shorter than the page size, or a later page is
      non-empty and shorter than the page size. */
  predicate CountQueryRuns(contentSize: nat, p: Pageable) {
    if p.Offset() == 0 then
      !(p.pageSize > contentSize)
    else
      !(contentSize != 0 && p.pageSize > contentSize)
  }

  /** Assumption (Spring Data's `PageableExecutionUtils.getPage(content,
      pageable, totalSupplier)`, paged requests only). `count` stands for the
      value the supplier would return; `CountQueryRuns` says whether it is
      asked for. */
  function GetPage<T>(content: seq<T>, p: Pageable, count: nat): (pg: Page<T>)
    ensures pg.content == content && pg.pageable == p
  {
    if p.Offset() == 0 then
      if p.pageSize > |content| then NewPage(content, p, |content|)
      else NewPage(content, p, count)
    else if |content| != 0 && p.pageSize > |content| then
      NewPage(content, p, p.Offset() + |content|)
    else
      NewPage(content, p, count)
  }

  /** When the count query is skipped, the page does not depend on what it
      would have returned. */
  lemma GetPageIgnoresSkippedCount<T>(content: seq<T>, p: Pageable, count1: nat, count2: nat)
    requires !CountQueryRuns(|content|, p)
    ensures GetPage(content, p, count1) == GetPage(content, p, count2)
  {
  }

  /** PageImpl keeps a total that is consistent with the page content. */
  lemma PageImplKeepsExactTotal(contentSize: nat, p: Pageable, total: nat)
    requires contentSize == WindowLength(total, p.Offset(), p.pageSize)
    ensures PageImplTotal(contentSize, p, total) == total
  {
  }

  /** getPage reports the true total for content cut from `total` rows by
      the page's offset and size, whether or not it runs the count. */
  lemma GetPageTotalIsExact<T>(content: seq<T>, p: Pageable, total: nat)
    requires |content| == WindowLength(total, p.Offset(), p.pageSize)
    ensures GetPage(content, p, total).total == total
  {
  }
}
