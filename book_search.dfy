/**
 * The search page: retrieval of ranked candidates for a plot summary and the
 * handler of the search form, which installs them in the session.
 */
module BookSearch {
  import opened Wrappers
  import opened Text
  import opened SessionState

  /** One book of the corpus file, as far as the search uses it. */
  datatype CorpusEntry = CorpusEntry(title: string, summary: string)

  /** What loading the corpus file gives: its books, or one of the two failures the count guards against. */
  datatype Corpus = Loaded(books: seq<CorpusEntry>) | FileNotFound | JsonDecodeError

  /** The number of candidates every search asks the index for. */
  const TopK: nat := 5

  /** The nearest-neighbour index answers with at least `k` ids, the first `k` of them ids of the corpus. */
  predicate HitsInRange(hits: seq<nat>, corpusSize: nat, k: nat)
  {
    k <= |hits| && forall i :: 0 <= i < k ==> hits[i] < corpusSize
  }

  /** The list of titles, in corpus order. */
  function Titles(books: seq<CorpusEntry>): (r: seq<string>)
    ensures |r| == |books| && forall i :: 0 <= i < |books| ==> r[i] == books[i].title
  {
    seq(|books|, i requires 0 <= i < |books| => books[i].title)
  }

  /** The list of summaries, in corpus order: position `i` belongs to the same book as title `i`. */
  function Summaries(books: seq<CorpusEntry>): (r: seq<string>)
    ensures |r| == |books| && forall i :: 0 <= i < |books| ==> r[i] == books[i].summary
  {
    seq(|books|, i requires 0 <= i < |books| => books[i].summary)
  }

  /**
   * The candidates for `story`: `index` stands for embedding the story,
   * normalising it and asking the index for its `topK` nearest ids, best
   * first. Exactly `topK` candidates come back, in the index's rank order, and
   * each one's title and summary come from the same corpus entry.
   */
  function FindSimilarBooks(books: seq<CorpusEntry>, index: (string, nat) -> seq<nat>, story: string, topK: nat): (r: seq<Candidate>)
    requires HitsInRange(index(story, topK), |books|, topK)
    ensures |r| == topK
    ensures forall i :: 0 <= i < topK ==>
      var book := books[index(story, topK)[i]];
      r[i] == Candidate(book.title, book.summary)
  {
    var hits := index(story, topK);
    var titles, summaries := Titles(books), Summaries(books);
    seq(topK, i requires 0 <= i < topK => Candidate(titles[hits[i]], summaries[hits[i]]))
  }

  /** The number of books shown on the search page: the corpus size, or 0 when the file is missing or not valid JSON. */
  function GetBooksCount(corpus: Corpus): (n: nat)
    ensures corpus.Loaded? ==> n == |corpus.books|
    ensures corpus.FileNotFound? || corpus.JsonDecodeError? ==> n == 0
  {
    match corpus
    case Loaded(books) => |books|
    case FileNotFound => 0
    case JsonDecodeError => 0
  }

  /** Every search of the search handler yields a non-empty list, so its "no books found" branch is never taken. */
  lemma {:induction false} SearchNeverEmpty(books: seq<CorpusEntry>, index: (string, nat) -> seq<nat>, story: string)
    requires HitsInRange(index(story, TopK), |books|, TopK)
    ensures |FindSimilarBooks(books, index, story, TopK)| > 0
  {
  }

  /** What the user did on the search page in this run. */
  datatype SearchInput = SearchInput(aboutClicked: bool, story: string, searchClicked: bool)

  datatype SearchResult =
    | NotSearched       // no click, or a click while a search is in flight
    | BlankStory        // warning: the story is empty or only whitespace
    | Found             // candidates installed, moving to the review page
    | NoResults         // warning: the search returned no candidates
    | CorpusUnavailable // loading the corpus raised; the run ends with the exception

  datatype SearchOutcome =
    | AboutRequested    // the "development story" button: page becomes "page2" and the run restarts
    | Shown(bookCount: nat, result: SearchResult)

  /** The search button is acted on: it was clicked, no search is in flight, and the story has non-space text. */
  predicate SearchStarts(ui: SearchInput, searching: Option<bool>)
  {
    !ui.aboutClicked && ui.searchClicked && !searching.GetOr(false) && Strip(ui.story) != []
  }

  /**
   * One run of the search page. The about button ends the run at once.
   * Otherwise the cursor and the candidates are initialised when absent, the
   * story is recorded, and a click is acted on only when no search is in
   * flight and the story is not blank; the busy flag is set for the search
   * and cleared after it, unless loading the corpus raises.
   */
  method RunSearchBooks(s: Session, corpus: Corpus, index: (string, nat) -> seq<nat>, ui: SearchInput)
    returns (out: SearchOutcome)
    requires s.Valid()
    requires corpus.Loaded? && SearchStarts(ui, s.searching) ==> HitsInRange(index(ui.story, TopK), |corpus.books|, TopK)
    modifies s
    ensures s.Valid()
    // the about button: only the page changes
    ensures ui.aboutClicked ==>
      && out == AboutRequested
      && s.page == Some("page2")
      && s.userStory == old(s.userStory) && s.booksNotFound == old(s.booksNotFound)
      && s.bookIndex == old(s.bookIndex) && s.searching == old(s.searching)
      && s.isSearched == old(s.isSearched)
    ensures !ui.aboutClicked ==>
      var started := SearchStarts(ui, old(s.searching));
      && out.Shown? && out.bookCount == GetBooksCount(corpus)
      && (out.result == NotSearched <==> !(ui.searchClicked && !old(s.searching).GetOr(false)))
      && (out.result == BlankStory <==> ui.searchClicked && !old(s.searching).GetOr(false) && Strip(ui.story) == [])
      && (out.result == CorpusUnavailable <==> started && !corpus.Loaded?)
      && (out.result == Found <==> started && corpus.Loaded? && TopK > 0)
      && (out.result == NoResults <==> started && corpus.Loaded? && TopK == 0)
      && s.userStory == Some(ui.story)
      && s.booksNotFound == (if out.result == Found then Some(FindSimilarBooks(corpus.books, index, ui.story, TopK))
                             else Some(old(s.booksNotFound).GetOr([])))
      && s.bookIndex == (if out.result == Found then Some(0) else Some(old(s.bookIndex).GetOr(0)))
      && s.isSearched == (if out.result == Found then Some(true) else old(s.isSearched))
      && s.page == (if out.result == Found then Some("page1") else old(s.page))
      && s.searching == Some(if started then !corpus.Loaded? else old(s.searching).GetOr(false))
    // a new search never touches what was displayed nor the feedback keys
    ensures s.booksDisplayed == old(s.booksDisplayed)
    ensures s.feedbackText == old(s.feedbackText) && s.feedbackSaved == old(s.feedbackSaved)
  {
    if ui.aboutClicked {
      s.page := Some("page2");
      return AboutRequested;
    }
    var bookCount := GetBooksCount(corpus);
    InitSearchKeys(s, ui.story);
    var result := HandleSearchClick(s, corpus, index, ui);
    out := Shown(bookCount, result);
  }

  /** The keys the search page reads: the cursor, the candidates and the busy flag get defaults when absent; the story is always overwritten. */
  method InitSearchKeys(s: Session, story: string)
    requires s.Valid()
    modifies s`bookIndex, s`booksNotFound, s`userStory, s`searching
    ensures s.Valid()
    ensures s.bookIndex == Some(old(s.bookIndex).GetOr(0))
    ensures s.booksNotFound == Some(old(s.booksNotFound).GetOr([]))
    ensures s.userStory == Some(story)
    ensures s.searching == Some(old(s.searching).GetOr(false))
  {
    if s.bookIndex.None? {
      s.bookIndex := Some(0);
    }
    if s.booksNotFound.None? {
      s.booksNotFound := Some([]);
    }
    s.userStory := Some(story);
    if s.searching.None? {
      s.searching := Some(false);
    }
  }

  /** The search button's branch of the search page, once the keys it reads are initialised. */
  method HandleSearchClick(s: Session, corpus: Corpus, index: (string, nat) -> seq<nat>, ui: SearchInput)
    returns (result: SearchResult)
    requires s.Valid() && !ui.aboutClicked
    requires s.userStory == Some(ui.story) && s.searching.Some? && s.bookIndex.Some? && s.booksNotFound.Some?
    requires corpus.Loaded? && SearchStarts(ui, s.searching) ==> HitsInRange(index(ui.story, TopK), |corpus.books|, TopK)
    modifies s`booksNotFound, s`bookIndex, s`isSearched, s`page, s`searching
    ensures s.Valid()
    ensures var started := SearchStarts(ui, old(s.searching));
      && (result == NotSearched <==> !(ui.searchClicked && !old(s.searching).value))
      && (result == BlankStory <==> ui.searchClicked && !old(s.searching).value && Strip(ui.story) == [])
      && (result == CorpusUnavailable <==> started && !corpus.Loaded?)
      && (result == Found <==> started && corpus.Loaded? && TopK > 0)
      && (result == NoResults <==> started && corpus.Loaded? && TopK == 0)
      && s.booksNotFound == (if result == Found then Some(FindSimilarBooks(corpus.books, index, ui.story, TopK))
                             else old(s.booksNotFound))
      && s.bookIndex == (if result == Found then Some(0) else old(s.bookIndex))
      && s.isSearched == (if result == Found then Some(true) else old(s.isSearched))
      && s.page == (if result == Found then Some("page1") else old(s.page))
      && s.searching == Some(if started then !corpus.Loaded? else old(s.searching).value)
  {
    if !(ui.searchClicked && !s.searching.value) {
      return NotSearched;
    }
    if Strip(ui.story) == [] {
      return BlankStory;
    }
    s.searching := Some(true);
    if !corpus.Loaded? {
      return CorpusUnavailable;
    }
    var results := FindSimilarBooks(corpus.books, index, ui.story, TopK);
    if |results| > 0 {
      s.booksNotFound := Some(results);
      s.bookIndex := Some(0);
      s.isSearched := Some(true);
      s.page := Some("page1");
      result := Found;
    } else {
      result := NoResults;
    }
    s.searching := Some(false);
  }
}
