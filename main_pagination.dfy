/** `renderPagination` of `main.js`, the list page's pagination: unlike the
    one in `utils.js` it shows a button for every page. Each button loads
    its page with the current search; the current page's button carries
    the `active` class. */
module MainPagination {
  import opened Common

  const Previous: string := "이전"
  const Next: string := "다음"

  datatype Button = Button(text: string, page: int, search: string, active: bool)

  /** The buttons the container ends up holding. */
  function Buttons(totalPages: int, currentPage: int, search: string): seq<Button> {
    if totalPages <= 1 then []
    else
      (if currentPage > 0 then [Button(Previous, currentPage - 1, search, false)] else [])
      + PageButtons(totalPages, currentPage, search)
      + (if currentPage < totalPages - 1 then [Button(Next, currentPage + 1, search, false)] else [])
  }

  function PageButton(i: int, currentPage: int, search: string): Button {
    Button(IntToString(i + 1), i, search, i == currentPage)
  }

  function PageButtons(count: nat, currentPage: int, search: string): (r: seq<Button>)
    ensures |r| == count
  {
    seq(count, i => PageButton(i, currentPage, search))
  }

  /** `renderPagination(container, pageData, fetch, search)`: a missing
      container (`None`) is left alone; otherwise its new children. */
  method RenderPagination(hasContainer: bool, totalPages: int, currentPage: int, search: string)
    returns (container: Option<seq<Button>>)
    ensures !hasContainer ==> container.None?
    ensures hasContainer ==> container == Some(Buttons(totalPages, currentPage, search))
  {
    if !hasContainer {
      return None;
    }
    var children: seq<Button> := [];
    if totalPages <= 1 {
      return Some(children);
    }
    if currentPage > 0 {
      children := children + [Button(Previous, currentPage - 1, search, false)];
    }
    ghost var prefix := children;
    assert prefix == (if currentPage > 0 then [Button(Previous, currentPage - 1, search, false)] else []);
    var i := 0;
    while i < totalPages
      invariant 0 <= i <= totalPages
      invariant children == prefix + PageButtons(i, currentPage, search)
    {
      assert PageButtons(i + 1, currentPage, search) == PageButtons(i, currentPage, search) + [PageButton(i, currentPage, search)];
      children := children + [Button(IntToString(i + 1), i, search, i == currentPage)];
      i := i + 1;
    }
    if currentPage < totalPages - 1 {
      children := children + [Button(Next, currentPage + 1, search, false)];
    }
    assert children == prefix + PageButtons(totalPages, currentPage, search)
      + (if currentPage < totalPages - 1 then [Button(Next, currentPage + 1, search, false)] else []);
    container := Some(children);
  }

  /** For a current page among several: previous appears exactly when it is
      not the first page and loads the page before; then one button per
      page, labelled from 1, with only the current page active; next
      appears exactly when it is not the last page and loads the page
      after. */
  lemma {:induction false} ButtonsShape(totalPages: int, currentPage: int, search: string)
    requires 0 <= currentPage < totalPages && totalPages > 1
    ensures var bar := Buttons(totalPages, currentPage, search);
      var off := if currentPage > 0 then 1 else 0;
      && |bar| == totalPages + off + (if currentPage < totalPages - 1 then 1 else 0)
      && (currentPage > 0 ==> bar[0] == Button(Previous, currentPage - 1, search, false))
      && (forall j :: off <= j < off + totalPages ==> bar[j] == Button(IntToString(j - off + 1), j - off, search, j - off == currentPage))
      && (currentPage < totalPages - 1 ==> bar[|bar| - 1] == Button(Next, currentPage + 1, search, false))
      && (forall j :: 0 <= j < |bar| && bar[j].active ==> bar[j].page == currentPage)
  {
    var bar := Buttons(totalPages, currentPage, search);
    var off := if currentPage > 0 then 1 else 0;
    var pages := PageButtons(totalPages, currentPage, search);
    var prev: seq<Button> := if currentPage > 0 then [Button(Previous, currentPage - 1, search, false)] else [];
    var next: seq<Button> := if currentPage < totalPages - 1 then [Button(Next, currentPage + 1, search, false)] else [];
    assert bar == prev + pages + next;
    forall j | off <= j < off + totalPages ensures bar[j] == pages[j - off] {
    }
    forall j | 0 <= j < |bar| && bar[j].active ensures bar[j].page == currentPage {
    }
  }

  /** The prev and next buttons are the only ones that are not page
      buttons: the list has between `totalPages` and `totalPages + 2`
      buttons, and none when there is at most one page. */
  lemma FewPages(totalPages: int, currentPage: int, search: string)
    ensures totalPages <= 1 ==> Buttons(totalPages, currentPage, search) == []
    ensures totalPages > 1 ==> totalPages <= |Buttons(totalPages, currentPage, search)| <= totalPages + 2
  {
  }
}
