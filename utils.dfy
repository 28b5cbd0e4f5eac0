/** The browser helpers of `utils.js`: date formatting and the windowed
    pagination bar. The container's children are returned as a list; a
    click handler is the page index and search keyword it loads. */
module Utils {
  import opened Common

  // ---------------------------------------------------------------------
  // formatDateTime

  /** The local-time fields of a `Date` that the formatter reads;
      `monthIndex` is `getMonth()`, counting from 0. */
  datatype DateFields = DateFields(year: int, monthIndex: int, day: int, hours: int, minutes: int)

  predicate WellFormed(d: DateFields) {
    0 <= d.monthIndex < 12 && 1 <= d.day <= 31 && 0 <= d.hours < 24 && 0 <= d.minutes < 60
  }

  /** `n.toString().padStart(2, '0')` */
  function TwoDigits(n: int): string {
    PadStart2(IntToString(n))
  }

  /** `formatDateTime(date)`; `None` is a falsy argument. */
  function FormatDateTime(date: Option<DateFields>): string {
    match date
    case None => ""
    case Some(d) =>
      IntToString(d.year) + "-" + TwoDigits(d.monthIndex + 1) + "-" + TwoDigits(d.day)
      + " " + TwoDigits(d.hours) + ":" + TwoDigits(d.minutes)
  }

  /** A number below 100 pads to exactly two digits that read back as it. */
  lemma {:induction false} TwoDigitsReadBack(n: nat)
    requires n < 100
    ensures |TwoDigits(n)| == 2 && IsDigit(TwoDigits(n)[0]) && IsDigit(TwoDigits(n)[1])
    ensures DecimalValue(TwoDigits(n)) == n
  {
    NatToStringLength(n);
    NatToStringRoundTrip(n);
    if n < 10 {
      assert TwoDigits(n) == "0" + NatToString(n);
      LeadingZero(NatToString(n));
    }
  }

  /** For a four-digit year the result is `YYYY-MM-DD HH:MM`: sixteen
      characters with the separators in place, and each field reads back as
      the year, the month counted from 1, the day, the hour and the
      minute. */
  lemma {:induction false} FormatDateTimeLayout(d: DateFields)
    requires WellFormed(d) && 1000 <= d.year < 10000
    ensures var s := FormatDateTime(Some(d));
      && |s| == 16
      && s[4] == '-' && s[7] == '-' && s[10] == ' ' && s[13] == ':'
      && (forall i | i in {0, 1, 2, 3, 5, 6, 8, 9, 11, 12, 14, 15} :: IsDigit(s[i]))
      && DecimalValue(s[0..4]) == d.year
      && DecimalValue(s[5..7]) == d.monthIndex + 1
      && DecimalValue(s[8..10]) == d.day
      && DecimalValue(s[11..13]) == d.hours
      && DecimalValue(s[14..16]) == d.minutes
  {
    var y := IntToString(d.year);
    NatToStringLength(d.year);
    NatToStringRoundTrip(d.year);
    var mo, da, ho, mi := TwoDigits(d.monthIndex + 1), TwoDigits(d.day), TwoDigits(d.hours), TwoDigits(d.minutes);
    TwoDigitsReadBack(d.monthIndex + 1);
    TwoDigitsReadBack(d.day);
    TwoDigitsReadBack(d.hours);
    TwoDigitsReadBack(d.minutes);
    var s := FormatDateTime(Some(d));
    assert s == y + "-" + mo + "-" + da + " " + ho + ":" + mi;
    assert s[0..4] == y;
    assert s[5..7] == mo;
    assert s[8..10] == da;
    assert s[11..13] == ho;
    assert s[14..16] == mi;
  }

  /** A falsy date formats as the empty string, and only then. */
  lemma FormatDateTimeEmpty(date: Option<DateFields>)
    ensures FormatDateTime(date) == "" <==> date.None?
  {
    if date.Some? {
      assert |FormatDateTime(date)| >= 12;
    }
  }

  // ---------------------------------------------------------------------
  // renderPagination

  const MaxPagesToShow: int := 5
  const Previous: string := "이전"
  const Next: string := "다음"

  /** A child of the pagination container: an `<a>` that loads a page with
      the keyword, or a `<span>` with its CSS class. */
  datatype Element = Link(text: string, page: int, keyword: string) | Span(text: string, cssClass: string)

  /** The first and last page index of the window. */
  function Window(totalPages: int, currentPage: int): (int, int) {
    var start := Max(0, currentPage - MaxPagesToShow / 2);
    var end := if totalPages - 1 < start + MaxPagesToShow - 1 then totalPages - 1 else start + MaxPagesToShow - 1;
    var start' := if end - start + 1 < MaxPagesToShow then Max(0, end - MaxPagesToShow + 1) else start;
    (start', end)
  }

  function PageElement(i: int, currentPage: int, keyword: string): Element {
    if i == currentPage then Span(IntToString(i + 1), "current-page") else Link(IntToString(i + 1), i, keyword)
  }

  function PreviousElement(currentPage: int, keyword: string): Element {
    if currentPage > 0 then Link(Previous, currentPage - 1, keyword) else Span(Previous, "disabled")
  }

  function NextElement(totalPages: int, currentPage: int, keyword: string): Element {
    if currentPage < totalPages - 1 then Link(Next, currentPage + 1, keyword) else Span(Next, "disabled")
  }

  /** The elements of `count` consecutive pages from `start`. */
  function Pages(start: int, count: int, currentPage: int, keyword: string): (r: seq<Element>)
    requires count >= 0
    ensures |r| == count
  {
    seq(count, k => PageElement(start + k, currentPage, keyword))
  }

  /** The children `renderPagination` leaves in the container. */
  function Pagination(totalPages: int, currentPage: int, keyword: string): seq<Element> {
    if totalPages <= 1 then []
    else
      var (start, end) := Window(totalPages, currentPage);
      [PreviousElement(currentPage, keyword)]
      + Pages(start, end - start + 1, currentPage, keyword)
      + [NextElement(totalPages, currentPage, keyword)]
  }

  /** `renderPagination(container, totalPages, currentPage, load, keyword)`:
      empties the container, then appends the previous button, the window's
      pages and the next button. */
  method RenderPagination(totalPages: int, currentPage: int, keyword: string) returns (container: seq<Element>)
    ensures container == Pagination(totalPages, currentPage, keyword)
  {
    container := [];
    if totalPages <= 1 {
      return;
    }
    var startPage := Max(0, currentPage - MaxPagesToShow / 2);
    var endPage := if totalPages - 1 < startPage + MaxPagesToShow - 1 then totalPages - 1 else startPage + MaxPagesToShow - 1;
    if endPage - startPage + 1 < MaxPagesToShow {
      startPage := Max(0, endPage - MaxPagesToShow + 1);
    }
    if currentPage > 0 {
      container := container + [Link(Previous, currentPage - 1, keyword)];
    } else {
      container := container + [Span(Previous, "disabled")];
    }
    var i := startPage;
    while i <= endPage
      invariant startPage <= i <= endPage + 1
      invariant container == [PreviousElement(currentPage, keyword)]
                             + Pages(startPage, i - startPage, currentPage, keyword)
    {
      assert Pages(startPage, i + 1 - startPage, currentPage, keyword)
             == Pages(startPage, i - startPage, currentPage, keyword) + [PageElement(i, currentPage, keyword)];
      if i == currentPage {
        container := container + [Span(IntToString(i + 1), "current-page")];
      } else {
        container := container + [Link(IntToString(i + 1), i, keyword)];
      }
      i := i + 1;
    }
    if currentPage < totalPages - 1 {
      container := container + [Link(Next, currentPage + 1, keyword)];
    } else {
      container := container + [Span(Next, "disabled")];
    }
  }

  /** The window holds `min(5, totalPages)` consecutive pages, all real
      pages, and holds the current page whenever it is one. */
  lemma WindowShape(totalPages: int, currentPage: int)
    requires totalPages > 1
    ensures var (start, end) := Window(totalPages, currentPage);
      && end - start + 1 == (if totalPages < MaxPagesToShow then totalPages else MaxPagesToShow)
      && 0 <= start && end < totalPages
      && (0 <= currentPage < totalPages ==> start <= currentPage <= end)
  {
  }

  /** With more than one page the bar is the previous control, one element
      per window page and the next control. The current page is a
      `current-page` span and every other page a link to itself with the
      keyword. Previous is a disabled span exactly on the first page and
      otherwise loads the page before; next likewise on the last page. */
  lemma {:induction false} PaginationShape(totalPages: int, currentPage: int, keyword: string)
    requires 0 <= currentPage < totalPages
    ensures var bar := Pagination(totalPages, currentPage, keyword);
      && (totalPages == 1 ==> bar == [])
      && (totalPages > 1 ==>
          var (start, end) := Window(totalPages, currentPage);
          var n := if totalPages < MaxPagesToShow then totalPages else MaxPagesToShow;
          && |bar| == n + 2
          && (bar[0] == Span(Previous, "disabled") <==> currentPage == 0)
          && (currentPage > 0 ==> bar[0] == Link(Previous, currentPage - 1, keyword))
          && (bar[n + 1] == Span(Next, "disabled") <==> currentPage == totalPages - 1)
          && (currentPage < totalPages - 1 ==> bar[n + 1] == Link(Next, currentPage + 1, keyword))
          && bar[1 + currentPage - start] == Span(IntToString(currentPage + 1), "current-page")
          && (forall j :: 1 <= j <= n && start + j - 1 != currentPage ==>
                bar[j] == Link(IntToString(start + j), start + j - 1, keyword)))
  {
    if totalPages > 1 {
      WindowShape(totalPages, currentPage);
      var (start, end) := Window(totalPages, currentPage);
      var bar := Pagination(totalPages, currentPage, keyword);
      var pages := Pages(start, end - start + 1, currentPage, keyword);
      assert bar == [PreviousElement(currentPage, keyword)] + pages + [NextElement(totalPages, currentPage, keyword)];
      assert bar[1 + currentPage - start] == pages[currentPage - start];
      forall j | 1 <= j <= end - start + 1
        ensures bar[j] == PageElement(start + j - 1, currentPage, keyword)
      {
        assert bar[j] == pages[j - 1];
      }
    }
  }

  /** No matter how many pages there are, a single page leaves the bar
      empty. */
  lemma FewPagesEmpty(totalPages: int, currentPage: int, keyword: string)
    requires totalPages <= 1
    ensures Pagination(totalPages, currentPage, keyword) == []
  {
  }
}
