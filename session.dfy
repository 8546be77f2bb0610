/**
 * The keys of Streamlit's per-user `st.session_state` dictionary that the
 * three handlers share, lifted into one object. A key that has never been
 * written is `None`; the handlers initialise several keys only when absent.
 */
module SessionState {
  import opened Wrappers

  /** A search result: one corpus entry's title and summary. */
  datatype Candidate = Candidate(title: string, summary: string)

  /** The five fields the book-metadata service returns for the first match of a title. */
  datatype BookInfo = BookInfo(title: string, author: string, publisher: string, image: string, description: string)

  /** No element occurs twice. */
  predicate NoDuplicates<T(==)>(s: seq<T>)
  {
    forall i, j :: 0 <= i < j < |s| ==> s[i] != s[j]
  }

  class Session {
    var page: Option<string>
    var userStory: Option<string>
    var booksNotFound: Option<seq<Candidate>>   // the ranked candidates of the last search
    var bookIndex: Option<nat>                  // the cursor into booksNotFound
    var booksDisplayed: Option<seq<BookInfo>>   // every distinct enrichment shown this round
    var feedbackText: Option<string>            // written by the feedback form's text area
    var feedbackSaved: Option<bool>
    var searching: Option<bool>                 // busy flag of the search button
    var isSearched: Option<bool>

    /**
     * What every handler keeps: the cursor is 0 or points into the
     * candidates; a non-empty candidate list always comes with a recorded
     * story (not necessarily the one that produced it: a later run of the
     * search page overwrites the story without searching), which is what the
     * escalation link needs; the displayed list holds no entry twice.
     */
    predicate Valid()
      reads this
    {
      && (bookIndex.Some? && bookIndex.value != 0 ==>
            booksNotFound.Some? && bookIndex.value < |booksNotFound.value|)
      && (booksNotFound.Some? && |booksNotFound.value| > 0 ==> userStory.Some?)
      && (booksDisplayed.Some? ==> NoDuplicates(booksDisplayed.value))
    }

    /** Whenever there are candidates, the cursor (once set) is a valid index into them. */
    predicate CursorInRange()
      reads this
    {
      booksNotFound.Some? && |booksNotFound.value| > 0 && bookIndex.Some? ==>
        bookIndex.value < |booksNotFound.value|
    }

    /** A fresh session: no key has been written. */
    constructor ()
      ensures Valid()
      ensures page == None && userStory == None && booksNotFound == None && bookIndex == None
      ensures booksDisplayed == None && feedbackText == None && feedbackSaved == None
      ensures searching == None && isSearched == None
    {
      page, userStory, booksNotFound, bookIndex := None, None, None, None;
      booksDisplayed, feedbackText, feedbackSaved := None, None, None;
      searching, isSearched := None, None;
    }
  }

}
