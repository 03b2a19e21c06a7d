/** The pagination bar: the full list of page numbers, the window of at most
    five numbers shown when there are many pages, and the navigation buttons,
    each of which either emits a page number or emits nothing. */
module Pagination {
  import opened Models

  /** Up to this many pages every page number is shown. */
  const FullListLimit: int := 7
  /** Otherwise this many consecutive page numbers are shown. */
  const WindowSize: int := 5

  function Max(a: int, b: int): int { if a < b then b else a }
  function Min(a: int, b: int): int { if a < b then a else b }

  /** The numbers lo, lo+1, ..., hi (empty when hi < lo). */
  function Range(lo: int, hi: int): (r: seq<int>)
    ensures |r| == if hi < lo then 0 else hi - lo + 1
    ensures forall i :: 0 <= i < |r| ==> r[i] == lo + i
    decreases hi - lo
  {
    if hi < lo then [] else [lo] + Range(lo + 1, hi)
  }

  /** Every page number, 1 to totalPages; a non-positive count gives no
      pages, as an array of negative length is created empty. */
  function Pages(totalPages: int): (r: seq<int>)
    ensures |r| == Max(0, totalPages)
    ensures forall i :: 0 <= i < |r| ==> r[i] == i + 1
  {
    Range(1, totalPages)
  }

  /** Whether the window is a run of consecutive page numbers that all lie
      in 1..totalPages. */
  ghost predicate ConsecutiveWithin(w: seq<int>, totalPages: int)
  {
    (forall i :: 0 <= i < |w| ==> 1 <= w[i] <= totalPages) &&
    (forall i :: 0 < i < |w| ==> w[i] == w[i - 1] + 1)
  }

  /** The visible page numbers for the current page: all pages when there
      are at most seven, otherwise five consecutive pages around `page`,
      shifted to stay inside 1..totalPages. */
  function Window(page: int, totalPages: int): (w: seq<int>)
    ensures totalPages <= FullListLimit ==> w == Pages(totalPages)
    ensures totalPages > FullListLimit ==> |w| == WindowSize
    ensures totalPages > FullListLimit ==>
      var first := Max(1, Min(page - 2, totalPages - WindowSize + 1));
      w == Range(first, first + WindowSize - 1)
    ensures ConsecutiveWithin(w, totalPages)
    ensures 1 <= page <= totalPages ==> page in w
  {
    var total := |Pages(totalPages)|;
    if total <= FullListLimit then
      assert 1 <= page <= totalPages ==> Pages(totalPages)[page - 1] == page;
      Pages(totalPages)
    else
      var start0 := Max(1, page - 2);
      var end := Min(total, start0 + WindowSize - 1);
      var start := Max(1, end - WindowSize + 1);
      assert total == totalPages;
      assert start == Max(1, Min(page - 2, totalPages - WindowSize + 1)) && end == start + WindowSize - 1 by {
        if start0 + WindowSize - 1 <= total {
          assert end == start0 + WindowSize - 1 && start == start0;
        } else {
          assert end == total && start == total - WindowSize + 1;
        }
      }
      var w := Range(start, end);
      assert 1 <= page <= totalPages ==> w[page - start] == page;
      w
  }

  lemma WindowExamples()
    ensures Window(1, 20) == [1, 2, 3, 4, 5]
    ensures Window(10, 20) == [8, 9, 10, 11, 12]
    ensures Window(20, 20) == [16, 17, 18, 19, 20]
    ensures Window(3, 5) == [1, 2, 3, 4, 5]
  {
    assert Range(1, 5) == [1, 2, 3, 4, 5];
    assert Range(8, 12) == [8, 9, 10, 11, 12];
    assert Range(16, 20) == [16, 17, 18, 19, 20];
  }

  /** Clicking a page number emits it unless it is already the current page. */
  function GoTo(page: int, target: int): (emitted: Option<int>)
    ensures emitted.Some? ==> emitted.value == target && target != page
    ensures emitted.None? ==> target == page
  {
    if target != page then Some(target) else None
  }

  /** "Next" emits the following page unless the current one is the last. */
  function Next(page: int, totalPages: int): (emitted: Option<int>)
    ensures emitted.Some? <==> page < totalPages
    ensures emitted.Some? ==> emitted.value == page + 1 && emitted.value <= totalPages
  {
    if page < totalPages then Some(page + 1) else None
  }

  /** "Previous" emits the preceding page unless the current one is the first. */
  function Prev(page: int): (emitted: Option<int>)
    ensures emitted.Some? <==> page > 1
    ensures emitted.Some? ==> emitted.value == page - 1 && emitted.value >= 1
  {
    if page > 1 then Some(page - 1) else None
  }

  /** From a page in range, the navigation buttons only ever emit pages in
      range, and "next" followed by "previous" comes back to the start. */
  lemma NavigationStaysInRange(page: int, totalPages: int)
    requires 1 <= page <= totalPages
    ensures Next(page, totalPages).Some? ==> 1 <= Next(page, totalPages).value <= totalPages
    ensures Prev(page).Some? ==> 1 <= Prev(page).value <= totalPages
    ensures Next(page, totalPages).Some? ==> Prev(Next(page, totalPages).value) == Some(page)
    ensures Prev(page).Some? ==> Next(Prev(page).value, totalPages) == Some(page)
  {
  }
}
