/** The public blog list: a page of blogs fetched through the load-state
    wrapper, the values derived from it, its own copy of the page window,
    and the handlers that move to another page by pushing a request. */
module BlogList {
  import opened Models
  import opened Pagination

  /** The blogs of the current page, or none unless the fetch succeeded. */
  function BlogsOf(s: LoadState<BlogPage>): (r: seq<Blog>)
    ensures s.Success? ==> r == s.data.items
    ensures !s.Success? ==> r == []
  {
    if s.Success? then s.data.items else []
  }

  /** The total number of blogs, or 0 unless the fetch succeeded. */
  function TotalCountOf(s: LoadState<BlogPage>): (n: int)
    ensures s.Success? ==> n == s.data.totalCount
    ensures !s.Success? ==> n == 0
  {
    if s.Success? then s.data.totalCount else 0
  }

  /** The number of pages, or 0 unless the fetch succeeded. */
  function TotalPagesOf(s: LoadState<BlogPage>): (n: int)
    ensures s.Success? ==> n == s.data.totalPages
    ensures !s.Success? ==> n == 0
  {
    if s.Success? then s.data.totalPages else 0
  }

  /** The list's own window computation: start two pages before the current
      one, and only when that runs past the last page pull the window back
      to end there. */
  function BlogWindow(current: int, totalPages: int): (w: seq<int>)
    ensures totalPages <= FullListLimit ==> w == Pages(totalPages)
    ensures totalPages > FullListLimit ==>
      var first := Max(1, Min(current - 2, totalPages - WindowSize + 1));
      w == Range(first, first + WindowSize - 1)
    ensures 1 <= current <= totalPages ==> current in w
  {
    var all := Pages(totalPages);
    var total := |all|;
    if total <= FullListLimit then all
    else
      var start := Max(1, current - WindowSize / 2);
      var end := start + WindowSize - 1;
      assert total == totalPages && WindowSize / 2 == 2;
      if end > total then
        var first := total - WindowSize + 1;
        assert Max(1, first) == first == Max(1, Min(current - 2, totalPages - WindowSize + 1));
        var w := Range(first, total);
        assert 1 <= current <= totalPages ==> w[current - first] == current;
        w
      else
        assert start == Max(1, Min(current - 2, totalPages - WindowSize + 1));
        var w := Range(start, end);
        assert 1 <= current <= totalPages ==> w[current - start] == current;
        w
  }

  /** Both window computations give the same pages for every input, so the
      list inherits every property proved of the pagination bar's window. */
  lemma WindowsAgree(current: int, totalPages: int)
    ensures BlogWindow(current, totalPages) == Window(current, totalPages)
    ensures totalPages > FullListLimit ==> |BlogWindow(current, totalPages)| == WindowSize
    ensures ConsecutiveWithin(BlogWindow(current, totalPages), totalPages)
  {
    // Both contracts give the same closed form.
  }

  /** The list's paging state: the current page number, the page size and
      every request pushed into the page-request stream, oldest first (the
      stream starts out holding the first page). */
  class BlogPager {
    var pageNumber: int
    var pageSize: int
    var requests: seq<PageRequest>
    var blogResponse: LoadState<BlogPage>

    /** The latest request in the stream is always for the page shown. */
    ghost predicate Valid()
      reads this
    {
      |requests| > 0 && requests[|requests| - 1] == PageRequest(pageNumber, pageSize)
    }

    constructor ()
      ensures Valid()
      ensures pageNumber == 1 && pageSize == 6
      ensures requests == [PageRequest(1, 6)] && blogResponse == Loading
    {
      pageNumber := 1;
      pageSize := 6;
      requests := [PageRequest(1, 6)];
      blogResponse := Loading;
    }

    function TotalPages(): (n: int)
      reads this
      ensures !blogResponse.Success? ==> n == 0
      ensures blogResponse.Success? ==> n == blogResponse.data.totalPages
    {
      TotalPagesOf(blogResponse)
    }

    /** A new state arrives from the fetch pipeline. */
    method Receive(s: LoadState<BlogPage>)
      modifies this`blogResponse
      ensures blogResponse == s
    {
      blogResponse := s;
    }

    /** Go to `page`; asking for the page already shown does nothing. */
    method LoadPage(page: int)
      requires Valid()
      modifies this`pageNumber, this`requests
      ensures Valid()
      ensures page == old(pageNumber) ==> pageNumber == old(pageNumber) && requests == old(requests)
      ensures page != old(pageNumber) ==>
        pageNumber == page && requests == old(requests) + [PageRequest(page, pageSize)]
    {
      if page == pageNumber {
        return;
      }
      pageNumber := page;
      requests := requests + [PageRequest(page, pageSize)];
    }

    /** Move one page forward unless the current page is the last. */
    method Next()
      requires Valid()
      modifies this`pageNumber, this`requests
      ensures Valid()
      ensures old(pageNumber) < TotalPages() ==>
        pageNumber == old(pageNumber) + 1 && requests == old(requests) + [PageRequest(pageNumber, pageSize)]
      ensures old(pageNumber) >= TotalPages() ==>
        pageNumber == old(pageNumber) && requests == old(requests)
    {
      if pageNumber < TotalPages() {
        var nextPage := pageNumber + 1;
        pageNumber := nextPage;
        requests := requests + [PageRequest(nextPage, pageSize)];
      }
    }

    /** Move one page back unless the current page is the first. */
    method Prev()
      requires Valid()
      modifies this`pageNumber, this`requests
      ensures Valid()
      ensures old(pageNumber) > 1 ==>
        pageNumber == old(pageNumber) - 1 && requests == old(requests) + [PageRequest(pageNumber, pageSize)]
      ensures old(pageNumber) <= 1 ==>
        pageNumber == old(pageNumber) && requests == old(requests)
    {
      if pageNumber > 1 {
        var prevPage := pageNumber - 1;
        pageNumber := prevPage;
        requests := requests + [PageRequest(prevPage, pageSize)];
      }
    }
  }
}
