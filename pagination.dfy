/** The pagination bar: its derived page count and item range, and the page
    it asks its parent to show on a button click or an arrow key. The bar
    never changes its own page; it only emits `pageChange`, so each handler
    is a function returning the emitted page, if any. */
module Pagination {
  import opened Wrappers
  import opened Arith

  /** The bar's inputs: the 1-based `page`, `totalItems`, `pageSize` and
      `loopNavigation`. */
  datatype Pager = Pager(page: int, totalItems: int, pageSize: int, loop: bool)

  datatype Key = ArrowLeft | ArrowRight | OtherKey

  /** `totalPages`: 1 when the page size is not positive, otherwise the
      pages needed for the items, and never fewer than 1. */
  function TotalPages(p: Pager): (r: int)
    ensures r >= 1
    ensures p.pageSize <= 0 || p.totalItems <= 0 ==> r == 1
    ensures p.pageSize > 0 && p.totalItems > 0 ==>
      (r - 1) * p.pageSize < p.totalItems <= r * p.pageSize
  {
    if p.pageSize > 0 then Max(1, CeilDiv(p.totalItems, p.pageSize)) else 1
  }

  /** `totalZeroSafe(start, total)`: no items means item 0. */
  function TotalZeroSafe(start: int, total: int): (r: int)
    ensures total == 0 ==> r == 0
    ensures total != 0 ==> r == start
  {
    if total == 0 then 0 else start
  }

  /** `startItem`: the 1-based number of the page's first item. */
  function StartItem(p: Pager): int {
    TotalZeroSafe(p.pageSize * (p.page - 1) + 1, p.totalItems)
  }

  /** `endItem`: the number of the page's last item. */
  function EndItem(p: Pager): int {
    Min(p.pageSize * p.page, p.totalItems)
  }

  /** `disablePrev`. */
  predicate DisablePrev(p: Pager) {
    p.page <= 1
  }

  /** `disableNext`. */
  predicate DisableNext(p: Pager) {
    p.page >= TotalPages(p)
  }

  /** `Math.max(1, Math.min(target, totalPages))`. */
  function ClampPage(p: Pager, target: int): (r: int)
    ensures 1 <= r <= TotalPages(p)
    ensures 1 <= target <= TotalPages(p) ==> r == target
    ensures target < 1 ==> r == 1
    ensures target > TotalPages(p) ==> r == TotalPages(p)
  {
    Max(1, Min(target, TotalPages(p)))
  }

  /** `goToPage(target)`: emits the clamped page, and only when it differs
      from the current page. */
  function GoToPage(p: Pager, target: int): (r: Option<int>)
    ensures r.Some? ==> 1 <= r.value <= TotalPages(p) && r.value != p.page
    ensures r.None? <==> ClampPage(p, target) == p.page
    ensures r.Some? ==> r.value == ClampPage(p, target)
  {
    var next := ClampPage(p, target);
    if next != p.page then Some(next) else None
  }

  /** `onKeydown(event)`: ArrowLeft and ArrowRight step through `goToPage`;
      at the first or last page they wrap only with `loopNavigation`, and
      the wrap emits directly, without `goToPage`'s change check. */
  function OnKeydown(p: Pager, key: Key): (r: Option<int>)
    ensures r.Some? ==> 1 <= r.value <= TotalPages(p)
    ensures key == OtherKey ==> r.None?
    ensures key == ArrowRight && 1 <= p.page < TotalPages(p) ==> r == Some(p.page + 1)
    ensures key == ArrowRight && p.page >= TotalPages(p) ==> r == (if p.loop then Some(1) else None)
    ensures key == ArrowLeft && 1 < p.page <= TotalPages(p) ==> r == Some(p.page - 1)
    ensures key == ArrowLeft && p.page <= 1 ==> r == (if p.loop then Some(TotalPages(p)) else None)
  {
    var current := p.page;
    var total := TotalPages(p);
    match key
    case ArrowLeft =>
      if current > 1 then GoToPage(p, current - 1)
      else if p.loop then Some(total)
      else None
    case ArrowRight =>
      if current < total then GoToPage(p, current + 1)
      else if p.loop then Some(1)
      else None
    case OtherKey => None
  }

  /** A page within range, with positive page size and items. */
  predicate InRange(p: Pager) {
    p.pageSize >= 1 && p.totalItems >= 1 && 1 <= p.page <= TotalPages(p)
  }

  /** On a page in range, the item range is non-empty, lies within the
      items, and spans a full page except possibly on the last page. */
  lemma ItemRange(p: Pager)
    requires InRange(p)
    ensures 1 <= StartItem(p) <= EndItem(p) <= p.totalItems
    ensures StartItem(p) == p.pageSize * (p.page - 1) + 1
    ensures EndItem(p) - StartItem(p) + 1 <= p.pageSize
    ensures p.page < TotalPages(p) ==> EndItem(p) - StartItem(p) + 1 == p.pageSize
    ensures p.page == TotalPages(p) ==> EndItem(p) == p.totalItems
  {
    var size, page, total := p.pageSize, p.page, TotalPages(p);
    MulMonotone(1, page, size);
    MulMonotone(page, total, size);
    MulMonotone(0, page - 1, size);
    assert size * (page - 1) == size * page - size;
    if page < total {
      MulMonotone(page, total - 1, size);
    }
  }

  /** The buttons are disabled exactly where the arrow keys do nothing
      without wrap-around. */
  lemma DisabledMeansNoStep(p: Pager)
    requires 1 <= p.page <= TotalPages(p) && !p.loop
    ensures DisablePrev(p) <==> OnKeydown(p, ArrowLeft).None?
    ensures DisableNext(p) <==> OnKeydown(p, ArrowRight).None?
  {
  }

  /** Stepping left and then right from the resulting page comes back,
      as long as no wrap-around is involved. */
  lemma ArrowsInverse(p: Pager)
    requires 1 < p.page <= TotalPages(p)
    ensures var left := OnKeydown(p, ArrowLeft);
      left == Some(p.page - 1) && OnKeydown(p.(page := left.value), ArrowRight) == Some(p.page)
  {
  }

  /** On a single page with wrap-around, both arrows emit the current page
      again: the wrap skips the change check that `goToPage` makes. */
  lemma WrapEmitsUnchangedPage(p: Pager)
    requires p.page == 1 && TotalPages(p) == 1 && p.loop
    ensures OnKeydown(p, ArrowLeft) == Some(p.page)
    ensures OnKeydown(p, ArrowRight) == Some(p.page)
    ensures GoToPage(p, p.page).None?
  {
  }

  /** The documented examples: 50 items at 10 per page. */
  lemma Examples()
    ensures TotalPages(Pager(1, 50, 10, true)) == 5
    ensures StartItem(Pager(1, 50, 10, true)) == 1 && EndItem(Pager(1, 50, 10, true)) == 10
    ensures StartItem(Pager(2, 50, 10, true)) == 11 && EndItem(Pager(2, 50, 10, true)) == 20
    ensures StartItem(Pager(5, 50, 10, true)) == 41 && EndItem(Pager(5, 50, 10, true)) == 50
    ensures StartItem(Pager(1, 0, 10, true)) == 0 && EndItem(Pager(1, 0, 10, true)) == 0
    ensures DisablePrev(Pager(1, 50, 10, true)) && DisableNext(Pager(5, 50, 10, true))
    ensures OnKeydown(Pager(1, 50, 10, true), ArrowRight) == Some(2)
    ensures OnKeydown(Pager(1, 50, 10, true), ArrowLeft) == Some(5)
    ensures OnKeydown(Pager(5, 50, 10, true), ArrowRight) == Some(1)
    ensures OnKeydown(Pager(3, 50, 10, true), ArrowLeft) == Some(2)
    ensures GoToPage(Pager(1, 50, 10, true), 1).None?
  {
  }
}
