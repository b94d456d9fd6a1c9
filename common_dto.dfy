/** The response envelope every service returns, the pagination envelope of the
 *  listings, and the arithmetic behind them (page offset and page count). */
module CommonDto {
  import opened Wrappers
  import opened Sequences

  /** ApiResponse<T>: Data is T? and Errors is an object? (here a list of messages);
   *  the Timestamp field is left out. */
  datatype ApiResponse<T> = ApiResponse(
    success: bool,
    message: string,
    data: Option<T>,
    errors: Option<seq<string>>,
    statusCode: Option<int>)

  /** ApiResponse.Ok: a successful response keeping the data, message and status code. */
  function Ok<T>(data: T, message: string, statusCode: Option<int>): (r: ApiResponse<T>)
    ensures r.success && r.data == Some(data)
    ensures r.message == message && r.statusCode == statusCode && r.errors == None
  {
    ApiResponse(true, message, Some(data), None, statusCode)
  }

  /** ApiResponse.Error: a failed response without data, keeping the message, status
   *  code and errors. */
  function Error<T>(message: string, statusCode: Option<int>, errors: Option<seq<string>>): (r: ApiResponse<T>)
    ensures !r.success && r.data == None
    ensures r.message == message && r.statusCode == statusCode && r.errors == errors
  {
    ApiResponse(false, message, None, errors, statusCode)
  }

  /** A response either of the factories can build. */
  predicate Built<T>(r: ApiResponse<T>) {
    if r.success then r.data.Some? && r.errors.None? else r.data.None?
  }

  /** Every response the factories build is recovered from its own fields by exactly one
   *  of them: Ok when it succeeded, Error when it failed. */
  lemma FactoryOfResponse<T>(r: ApiResponse<T>)
    requires Built(r)
    ensures r.success ==> r == Ok(r.data.value, r.message, r.statusCode)
    ensures !r.success ==> r == Error(r.message, r.statusCode, r.errors)
  {
  }

  lemma FactoriesBuild<T>(d: T, m: string, c: Option<int>, e: Option<seq<string>>)
    ensures Built(Ok(d, m, c)) && Built(Error<T>(m, c, e))
    ensures Ok(d, m, c) != Error(m, c, e)
  {
  }

  /** PaginatedResponse<T> */
  datatype Paginated<T> = Paginated(
    items: seq<T>,
    currentPage: int,
    pageSize: int,
    totalItems: int,
    totalPages: int)
  {
    predicate HasNextPage() { currentPage < totalPages }
    predicate HasPreviousPage() { currentPage > 1 }
  }

  /** PaginationParameters with its declared validation ranges. */
  datatype PaginationParameters = PaginationParameters(page: int, pageSize: int)

  const IntMax: int := 0x7FFF_FFFF
  const MaxPageSize: int := 100

  predicate InDeclaredRanges(p: PaginationParameters) {
    1 <= p.page <= IntMax && 1 <= p.pageSize <= MaxPageSize
  }

  /** The defaults Page = 1 and PageSize = 15, which lie in the declared ranges. */
  function DefaultParameters(): (r: PaginationParameters)
    ensures InDeclaredRanges(r)
    ensures r.page == 1 && r.pageSize == 15
  {
    PaginationParameters(1, 15)
  }

  /** (int)Math.Ceiling((double)n / d) for a positive page size: the least number of
   *  pages of `d` items that hold `n` items. */
  function CeilDiv(n: nat, d: int): (r: nat)
    requires d >= 1
    ensures n <= r * d
    ensures r == 0 || (r - 1) * d < n
  {
    (n + d - 1) / d
  }

  lemma CeilDivZero(d: int)
    requires d >= 1
    ensures CeilDiv(0, d) == 0
  {
  }

  const IntMin: int := -0x8000_0000

  /** (int)Math.Ceiling(n / (double)d) for any page size: the ceiling for a positive
   *  size, minus the floor of n / -d for a negative one, and for 0 (an infinite or
   *  undefined quotient) the value the x64 conversion gives, int.MinValue. */
  function TotalPages(n: nat, d: int): int {
    if d >= 1 then CeilDiv(n, d) else if d < 0 then -(n / -d) else IntMin
  }

  /** The number of items that come before page `page`. */
  function Offset(page: int, pageSize: int): int {
    (page - 1) * pageSize
  }

  /** Take(n) on a query the store runs: it becomes SQLite's LIMIT n, and SQLite reads
   *  a negative LIMIT as no limit at all. */
  function Limit<T>(s: seq<T>, n: int): (r: seq<T>)
    ensures r <= s
    ensures n >= 0 ==> |r| == (if n < |s| then n else |s|)
    ensures n < 0 ==> r == s
  {
    if n < 0 then s else Take(s, n)
  }

  /** The items of page `page` (counted from 1) with `pageSize` items per page:
   *  Skip((page - 1) * pageSize).Take(pageSize), run by the store as
   *  LIMIT pageSize OFFSET (page - 1) * pageSize, where a negative OFFSET skips
   *  nothing and a negative LIMIT keeps every remaining row. */
  function PageOf<T>(s: seq<T>, page: int, pageSize: int): (r: seq<T>)
    ensures pageSize >= 0 ==> |r| <= pageSize
    ensures var o := Offset(page, pageSize);
            pageSize >= 1 && 0 <= o < |s| ==> r == s[o..(if o + pageSize < |s| then o + pageSize else |s|)]
    ensures pageSize >= 0 && Offset(page, pageSize) >= |s| ==> r == []
    ensures pageSize < 0 ==> r == s[PageStart(|s|, page, pageSize)..]
  {
    Limit(Skip(s, Offset(page, pageSize)), pageSize)
  }

  /** From page 1 on, pages start at or after the first item, and a page ends where the
   *  next one starts. */
  lemma OffsetBounds(page: int, pageSize: int)
    requires page >= 1 && pageSize >= 1
    ensures 0 <= Offset(page, pageSize) && Offset(page, pageSize) + pageSize == page * pageSize
  {
    MulStep(page, pageSize);
    MulLe(0, page - 1, pageSize);
  }

  /** Where the page starts in a listing of `n` items: Skip's count, clamped to the
   *  listing. */
  function PageStart(n: nat, page: int, pageSize: int): (r: nat)
    ensures r <= n
  {
    var o := Offset(page, pageSize);
    if o <= 0 then 0 else if o >= n then n else o
  }

  /** Where the page ends: LIMIT's count after the start, clamped to the listing; with
   *  a negative count, the end of the listing. */
  function PageEnd(n: nat, page: int, pageSize: int): (r: nat)
    ensures PageStart(n, page, pageSize) <= r <= n
  {
    var i := PageStart(n, page, pageSize);
    if pageSize < 0 || pageSize >= n - i then n else i + pageSize
  }

  /** Whatever the page and size, a page is a contiguous piece of the listing. */
  lemma PageIsSlice<T>(s: seq<T>, page: int, pageSize: int)
    ensures PageOf(s, page, pageSize) == s[PageStart(|s|, page, pageSize)..PageEnd(|s|, page, pageSize)]
  {
    var i := PageStart(|s|, page, pageSize);
    assert Skip(s, Offset(page, pageSize)) == s[i..];
  }

  /** The i-th item of a page is the item at the page's start plus i. */
  lemma PageIndex<T>(s: seq<T>, page: int, pageSize: int)
    ensures var items := PageOf(s, page, pageSize);
      && PageStart(|s|, page, pageSize) + |items| <= |s|
      && forall i :: 0 <= i < |items| ==> items[i] == s[PageStart(|s|, page, pageSize) + i]
  {
    PageIsSlice(s, page, pageSize);
  }

  /** A page of an ordered listing is ordered. */
  lemma PageSorted<T>(s: seq<T>, le: (T, T) -> bool, page: int, pageSize: int)
    requires Sorted(s, le) && page >= 1 && pageSize >= 1
    ensures Sorted(PageOf(s, page, pageSize), le)
  {
    var o := Offset(page, pageSize);
    OffsetBounds(page, pageSize);
    if o < |s| {
      SortedSlice(s, le, o, if o + pageSize < |s| then o + pageSize else |s|);
    }
  }

  /** The envelope of a listing of `all` (already filtered and ordered). */
  function BuildPage<T>(all: seq<T>, page: int, pageSize: int): (r: Paginated<T>)
    ensures r.items == PageOf(all, page, pageSize)
    ensures r.currentPage == page && r.pageSize == pageSize && r.totalItems == |all|
    ensures pageSize >= 1 ==> r.totalPages == CeilDiv(|all|, pageSize)
    ensures pageSize < 0 ==> r.totalPages <= 0
  {
    Paginated(PageOf(all, page, pageSize), page, pageSize, |all|, TotalPages(|all|, pageSize))
  }

  /** From page 1 on, a next page is announced exactly when items remain after
   *  this page. */
  lemma HasNextPageIffItemsRemain<T>(all: seq<T>, page: int, pageSize: int)
    requires pageSize >= 1 && page >= 1
    ensures BuildPage(all, page, pageSize).HasNextPage() <==> page * pageSize < |all|
  {
    CeilDivAbove(|all|, pageSize, page);
  }

  /** A page number lies below the page count exactly when items remain after it. */
  lemma CeilDivAbove(n: nat, d: int, p: int)
    requires d >= 1 && p >= 1
    ensures p < CeilDiv(n, d) <==> p * d < n
  {
    var c := CeilDiv(n, d);
    if p < c {
      MulLe(p, c - 1, d);
    } else {
      MulLe(c, p, d);
    }
  }

  lemma MulLe(a: int, b: int, d: int)
    requires a <= b && d >= 1
    ensures a * d <= b * d
  {
  }

  /** A page of a list sorted by a total preorder is sorted, and holds only
   *  elements of the list. */
  lemma SortedPage<T(!new)>(s: seq<T>, le: (T, T) -> bool, page: int, pageSize: int)
    requires Total(le) && Transitive(le)
    ensures var items := PageOf(SortBy(s, le), page, pageSize);
      Sorted(items, le) && forall i :: 0 <= i < |items| ==> items[i] in s
  {
    var sorted := SortBy(s, le);
    PageIsSlice(sorted, page, pageSize);
    var a, b := PageStart(|sorted|, page, pageSize), PageEnd(|sorted|, page, pageSize);
    SlicePermuted(s, sorted, a, b);
    SortBySorted(s, le);
    SortedSlice(sorted, le, a, b);
  }

  /** A slice of a permutation holds only elements of the original. */
  lemma SlicePermuted<T>(s: seq<T>, t: seq<T>, a: int, b: int)
    requires multiset(t) == multiset(s) && 0 <= a <= b <= |t|
    ensures forall i :: 0 <= i < b - a ==> t[a..b][i] in s
  {
    forall i | 0 <= i < b - a
      ensures t[a..b][i] in s
    {
      assert t[a..b][i] == t[a + i];
      assert t[a + i] in multiset(t);
    }
  }

  /** A page past the last is empty. */
  lemma PagePastEndEmpty<T>(all: seq<T>, page: int, pageSize: int)
    requires pageSize >= 1
    ensures page > CeilDiv(|all|, pageSize) ==> PageOf(all, page, pageSize) == []
  {
    var n := CeilDiv(|all|, pageSize);
    if page > n {
      MulLe(n, page - 1, pageSize);
    }
  }

  /** Page 1 never has a previous page, and a listing without items announces no next
   *  page on any page from 1 on. */
  lemma FirstAndEmptyPages<T>(all: seq<T>, page: int, pageSize: int)
    requires pageSize >= 1
    ensures !BuildPage(all, 1, pageSize).HasPreviousPage()
    ensures page >= 2 ==> BuildPage(all, page, pageSize).HasPreviousPage()
    ensures |all| == 0 && page >= 1 ==> !BuildPage(all, page, pageSize).HasNextPage()
  {
  }

  /** Pages 1..k put back together. */
  function Pages<T>(s: seq<T>, pageSize: int, k: nat): seq<T>
    decreases k
  {
    if k == 0 then [] else Pages(s, pageSize, k - 1) + PageOf(s, k, pageSize)
  }

  lemma MulStep(k: int, d: int)
    ensures k * d == (k - 1) * d + d
  {
  }

  /** Pages 1..k are the first k * pageSize items (all of them once fewer remain). */
  lemma {:induction false} PagesPrefix<T>(s: seq<T>, pageSize: int, k: nat)
    requires pageSize >= 1
    ensures Pages(s, pageSize, k) == Take(s, k * pageSize)
    decreases k
  {
    if k > 0 {
      PagesPrefix(s, pageSize, k - 1);
      OffsetBounds(k, pageSize);
      TakeThenSkip(s, Offset(k, pageSize), pageSize);
    }
  }

  /** The first `o` items followed by the `d` items after them are the first `o + d`. */
  lemma TakeThenSkip<T>(s: seq<T>, o: int, d: int)
    requires 0 <= o && 0 <= d
    ensures Take(s, o) + Take(Skip(s, o), d) == Take(s, o + d)
  {
    if o + d <= |s| {
      assert s[..o] + s[o..o + d] == s[..o + d];
    } else if o <= |s| {
      assert s[..o] + s[o..] == s;
    }
  }

  /** The pages 1..TotalPages, one after the other, are exactly the listing: no item
   *  is lost or shown twice. */
  lemma PagesPartitionListing<T>(s: seq<T>, pageSize: int)
    requires pageSize >= 1
    ensures Pages(s, pageSize, CeilDiv(|s|, pageSize)) == s
  {
    PagesPrefix(s, pageSize, CeilDiv(|s|, pageSize));
  }

  /** A page number below 1 skips nothing, so it shows the first page. */
  lemma PageBeforeFirst<T>(s: seq<T>, page: int, pageSize: int)
    requires page <= 1 && pageSize >= 1
    ensures PageOf(s, page, pageSize) == PageOf(s, 1, pageSize)
  {
    MulLe(page - 1, 0, pageSize);
  }

  /** The envelope built for a positive size: its pages, one after the other, are the
   *  listing; a page past the last is empty; a page below 1 is the first. */
  lemma BuildPagePages<T>(all: seq<T>, page: int, pageSize: int)
    requires pageSize >= 1
    ensures var p := BuildPage(all, page, pageSize);
      && Pages(all, pageSize, p.totalPages) == all
      && (page > p.totalPages ==> p.items == [])
      && (page <= 1 ==> p.items == PageOf(all, 1, pageSize))
  {
    PagesPartitionListing(all, pageSize);
    PagePastEndEmpty(all, page, pageSize);
    if page <= 1 {
      PageBeforeFirst(all, page, pageSize);
    }
  }

  /** With a negative size the first page holds every item and no next page is
   *  announced from page 1 on. */
  lemma NegativeSizePages<T>(all: seq<T>, page: int, pageSize: int)
    requires pageSize < 0
    ensures BuildPage(all, 1, pageSize).items == all
    ensures page >= 1 ==> !BuildPage(all, page, pageSize).HasNextPage()
  {
  }

  /** The 32-bit signed result of an int expression in an unchecked context. */
  function Wrap32(x: int): (r: int)
    ensures -0x8000_0000 <= r <= IntMax
    ensures -0x8000_0000 <= x <= IntMax ==> r == x
  {
    (x + 0x8000_0000) % 0x1_0000_0000 - 0x8000_0000
  }

  /** The page offset as the listings compute it, on 32-bit ints. */
  function Int32Offset(page: int, pageSize: int): int {
    Wrap32(Wrap32(page - 1) * pageSize)
  }

  /** With the largest page size, page 21474838 overflows: the offset becomes negative,
   *  Skip then skips nothing and that page repeats page 1 instead of being empty. */
  lemma Int32OffsetWraps()
    ensures Offset(21474838, 100) > IntMax
    ensures Int32Offset(21474838, 100) < 0
    ensures var s := seq(200, i => i);
            Limit(Skip(s, Int32Offset(21474838, 100)), 100) == PageOf(s, 1, 100)
            && PageOf(s, 21474838, 100) == []
  {
  }
}
