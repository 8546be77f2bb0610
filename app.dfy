/**
 * The entry point of every run: the page key is defaulted to the search page
 * when absent, and the handler of the current page runs.
 */
module App {
  import opened Wrappers
  import opened SessionState
  import BookSearch
  import Page1

  datatype Handler = SearchHandler | ReviewHandler | AboutHandler | NoHandler

  /** The page selector: each of the three page names runs its own handler, any other value none. */
  function Dispatch(page: string): (h: Handler)
    ensures h == SearchHandler <==> page == "book_search"
    ensures h == ReviewHandler <==> page == "page1"
    ensures h == AboutHandler <==> page == "page2"
  {
    if page == "book_search" then SearchHandler
    else if page == "page1" then ReviewHandler
    else if page == "page2" then AboutHandler
    else NoHandler
  }

  /** The page a run starts on: the stored page, or the search page in a fresh session. */
  function InitialPage(page: Option<string>): (p: string)
    ensures page.Some? ==> p == page.value
    ensures page.None? ==> Dispatch(p) == SearchHandler
  {
    page.GetOr("book_search")
  }

  /** What the user did in this run, for whichever page is active. */
  datatype UserInput = UserInput(search: BookSearch.SearchInput, review: Page1.ReviewAction)

  /**
   * One run of the app. `corpus` and `index` are the loaded corpus and the
   * nearest-neighbour index; `naver` is the book-metadata service. The about
   * page's handler is not part of this model, so on that page (and on an
   * unknown page) only the page default is written.
   */
  method RunPage(s: Session, corpus: BookSearch.Corpus, index: (string, nat) -> seq<nat>,
              naver: string -> Option<BookInfo>, ui: UserInput)
    returns (h: Handler)
    requires s.Valid()
    requires corpus.Loaded? && Dispatch(InitialPage(s.page)) == SearchHandler && BookSearch.SearchStarts(ui.search, s.searching) ==>
      BookSearch.HitsInRange(index(ui.search.story, BookSearch.TopK), |corpus.books|, BookSearch.TopK)
    modifies s
    ensures s.Valid()
    ensures h == Dispatch(InitialPage(old(s.page)))
    ensures h == AboutHandler || h == NoHandler ==>
      && s.page == Some(InitialPage(old(s.page)))
      && s.userStory == old(s.userStory) && s.booksNotFound == old(s.booksNotFound)
      && s.bookIndex == old(s.bookIndex) && s.booksDisplayed == old(s.booksDisplayed)
      && s.feedbackText == old(s.feedbackText) && s.feedbackSaved == old(s.feedbackSaved)
      && s.searching == old(s.searching) && s.isSearched == old(s.isSearched)
    // neither handler touches the feedback text; a search keeps the displayed list, a review keeps the candidates
    ensures s.feedbackText == old(s.feedbackText)
    ensures h == SearchHandler ==> s.booksDisplayed == old(s.booksDisplayed)
    ensures h == ReviewHandler ==> s.booksNotFound == old(s.booksNotFound) && s.userStory == old(s.userStory)
  {
    if s.page.None? {
      s.page := Some("book_search");
    }
    h := Dispatch(s.page.value);
    match h {
      case SearchHandler =>
        var _ := BookSearch.RunSearchBooks(s, corpus, index, ui.search);
      case ReviewHandler =>
        var _ := Page1.Run1(s, naver, ui.review);
      case AboutHandler =>
      case NoHandler =>
    }
  }
}
