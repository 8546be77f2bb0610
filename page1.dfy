/**
 * The review page: the candidate under the cursor is enriched and shown with
 * every distinct enrichment of the round, the user confirms or rejects it,
 * and after the last rejection a web-search link and a feedback form are
 * offered; the feedback is appended to a local file and mirrored to a shared
 * remote file.
 */
module Page1 {
  import opened Wrappers
  import opened Text
  import opened UrlQuote
  import opened SessionState

  const SearchUrlPrefix: string := "https://www.google.com/search?q="

  /** The fixed Korean suffix meaning "the novel whose plot is ...". */
  const EscalationSuffix: string :=
    "\U{B77C}\U{B294} \U{C904}\U{AC70}\U{B9AC}\U{C758} \U{C18C}\U{C124}\U{C740}"

  /** The story recorded when the session has none. */
  const NoStory: string := "No Story Provided"

  /** The separator line that ends every feedback record: forty hyphens. */
  const Separator: string := "----------------------------------------"

  lemma SeparatorIsFortyHyphens()
    ensures Separator == Repeat('-', 40)
  {
  }

  // ------------------------------------------------------------ rendering

  /** The displayed list after showing `info`: appended only when it is not already there. */
  function AppendIfAbsent(displayed: seq<BookInfo>, info: BookInfo): (r: seq<BookInfo>)
    ensures displayed <= r && |r| <= |displayed| + 1
    ensures info in r
    ensures info in displayed ==> r == displayed
    ensures forall x :: x in r ==> x in displayed || x == info
    ensures NoDuplicates(displayed) ==> NoDuplicates(r)
  {
    if info in displayed then displayed else displayed + [info]
  }

  /** Showing the same enrichment again changes nothing: re-rendering is idempotent. */
  lemma AppendIfAbsentIdempotent(displayed: seq<BookInfo>, info: BookInfo)
    ensures AppendIfAbsent(AppendIfAbsent(displayed, info), info) == AppendIfAbsent(displayed, info)
  {
  }

  /** The displayed list after one render: a missing enrichment ("no information found") leaves it as it was. */
  function Render(displayed: seq<BookInfo>, info: Option<BookInfo>): (r: seq<BookInfo>)
    ensures displayed <= r
    ensures info.None? ==> r == displayed
    ensures info.Some? ==> r == AppendIfAbsent(displayed, info.value)
  {
    match info
    case None => displayed
    case Some(b) => AppendIfAbsent(displayed, b)
  }

  // ----------------------------------------------------------- escalation

  /** The text searched for on exhaustion: the story with line feeds made spaces, then the fixed suffix. */
  function EscalationQuery(story: string): (r: string)
    ensures '\n' !in r
    ensures |r| == |story| + |EscalationSuffix| && r[|story|..] == EscalationSuffix
    ensures forall k :: 0 <= k < |story| ==> r[k] == if story[k] == '\n' then ' ' else story[k]
  {
    ReplaceNewlines(story) + EscalationSuffix
  }

  /**
   * The web-search link offered on exhaustion. After the fixed prefix comes
   * only what `quote` can produce, and percent-decoding then UTF-8 decoding
   * it gives back exactly the escalation query.
   */
  function GoogleLink(story: string): (r: string)
    ensures |SearchUrlPrefix| <= |r| && r[..|SearchUrlPrefix|] == SearchUrlPrefix
    ensures forall c :: c in r[|SearchUrlPrefix|..] ==> IsQuoteOutput(c)
    ensures PercentDecode(r[|SearchUrlPrefix|..]) == Some(Utf8Encode(EscalationQuery(story)))
    ensures Utf8Decode(Utf8Encode(EscalationQuery(story))) == Some(EscalationQuery(story))
  {
    var q := EscalationQuery(story);
    PercentEncodeAlphabet(Utf8Encode(q));
    QuoteRoundTrip(q);
    var r := SearchUrlPrefix + Quote(q);
    assert r[|SearchUrlPrefix|..] == Quote(q);
    r
  }

  // ------------------------------------------------------------- feedback

  /** The three-line record appended for one feedback. */
  function FeedbackRecord(story: string, feedback: string): (r: string)
    ensures |r| == |story| + |feedback| + 60 && r[|r| - 1] == '\n'
  {
    "Story: " + story + "\n" + "Feedback: " + feedback + "\n" + Separator + "\n"
  }

  /** Three lines without line feeds, each terminated, read back as those three lines. */
  lemma LinesOfThree(a: string, b: string, c: string)
    requires '\n' !in a && '\n' !in b && '\n' !in c
    ensures Lines(a + "\n" + (b + "\n" + (c + "\n" + []))) == [a, b, c]
  {
    var t3: string := c + "\n" + [];
    var t2: string := b + "\n" + t3;
    LinesOfTerminatedLine(c, []);
    LinesOfTerminatedLine(b, t3);
    LinesOfTerminatedLine(a, t2);
  }

  /** When neither the story nor the feedback spans several lines, the record is exactly three lines: story, feedback, separator. */
  lemma FeedbackRecordLines(story: string, feedback: string)
    requires '\n' !in story && '\n' !in feedback
    ensures Lines(FeedbackRecord(story, feedback)) == ["Story: " + story, "Feedback: " + feedback, Separator]
  {
    var a, b := "Story: " + story, "Feedback: " + feedback;
    assert '\n' !in a && '\n' !in b;
    assert FeedbackRecord(story, feedback) == a + "\n" + (b + "\n" + (Separator + "\n" + []));
    LinesOfThree(a, b, Separator);
  }

  /** Appending a record to a log whose last line is complete keeps the old lines and adds the record's lines after them. */
  lemma AppendRecordLines(log: string, story: string, feedback: string)
    requires log == [] || log[|log| - 1] == '\n'
    ensures Lines(log + FeedbackRecord(story, feedback)) == Lines(log) + Lines(FeedbackRecord(story, feedback))
    ensures (log + FeedbackRecord(story, feedback))[|log + FeedbackRecord(story, feedback)| - 1] == '\n'
  {
    LinesAppend(log, FeedbackRecord(story, feedback));
  }

  /** The local temporary file and the shared remote file (None while it does not exist) that feedback is written to. */
  class FeedbackFiles {
    var local: string
    var remote: Option<string>

    constructor (local: string, remote: Option<string>)
      ensures this.local == local && this.remote == remote
    {
      this.local, this.remote := local, remote;
    }

    /** Appends `record` to the local file. */
    method AppendLocal(record: string)
      modifies this
      ensures local == old(local) + record && remote == old(remote)
    {
      local := local + record;
    }

    /**
     * Brings the remote file up to date after `record` was appended locally:
     * an existing remote file is downloaded over the local one, `record`
     * appended and the result uploaded; otherwise the remote file is created
     * from the local one. Either way both files end up equal.
     */
    method MirrorToRemote(record: string)
      modifies this
      ensures old(remote).Some? ==> remote == Some(old(remote).value + record)
      ensures old(remote).None? ==> remote == Some(old(local))
      ensures local == remote.value
    {
      match remote {
        case Some(content) =>
          local := content + record;
          remote := Some(local);
        case None =>
          remote := Some(local);
      }
    }
  }

  datatype SaveOutcome = EmptyFeedback | Saved | DriveUnavailable

  /**
   * The feedback form's callback. Blank feedback is refused with nothing
   * changed. Otherwise the record of the story and the stripped feedback is
   * appended to the local file; when the drive is available the remote file
   * is downloaded over the local one (if it exists), the record appended and
   * the result uploaded, and the round is reset to the search page.
   */
  method SaveFeedback(s: Session, files: FeedbackFiles, driveAvailable: bool) returns (out: SaveOutcome)
    requires s.Valid()
    modifies s, files
    ensures s.Valid()
    ensures var feedback := Strip(old(s.feedbackText).GetOr(""));
      var record := FeedbackRecord(old(s.userStory).GetOr(NoStory), feedback);
      && (out == EmptyFeedback <==> feedback == [])
      && (out == Saved <==> feedback != [] && driveAvailable)
      && (out == EmptyFeedback ==> files.local == old(files.local) && files.remote == old(files.remote))
      && (out == DriveUnavailable ==> files.local == old(files.local) + record && files.remote == old(files.remote))
      && (out == Saved ==>
            && files.remote == Some(old(files.remote).GetOr(old(files.local)) + record)
            && files.local == files.remote.value)
    // the session changes only on a successful save, and then only these keys
    ensures out != Saved ==> unchanged(s)
    ensures out == Saved ==>
      && s.feedbackSaved == Some(true) && s.feedbackText == Some("")
      && s.bookIndex == Some(0) && s.booksDisplayed == Some([]) && s.page == Some("book_search")
      && s.userStory == old(s.userStory) && s.booksNotFound == old(s.booksNotFound)
      && s.searching == old(s.searching) && s.isSearched == old(s.isSearched)
  {
    var feedback := Strip(s.feedbackText.GetOr(""));
    if feedback == [] {
      return EmptyFeedback;
    }
    var record := FeedbackRecord(s.userStory.GetOr(NoStory), feedback);
    files.AppendLocal(record);
    if !driveAvailable {
      return DriveUnavailable;
    }
    files.MirrorToRemote(record);
    s.feedbackSaved := Some(true);
    s.feedbackText := Some("");
    s.bookIndex := Some(0);
    s.booksDisplayed := Some([]);
    s.page := Some("book_search");
    out := Saved;
  }

  // ---------------------------------------------------------- the handler

  /** Which of the page's two buttons was clicked in this run, if any. */
  datatype ReviewAction = NoClick | Confirm | Reject

  datatype ReviewOutcome =
    | NoCandidates                                       // error: nothing to review
    | Reviewing(book: Candidate, info: Option<BookInfo>) // the page is shown, no button
    | Confirmed(book: Candidate)                         // success: back to the search page
    | Advanced(next: nat)                                // rejected: the cursor moved on
    | Exhausted(link: string)                            // the last candidate rejected

  /**
   * One run of the review page. `naver` stands for the book-metadata service
   * (the first match for a title, or None). The cursor and the displayed list
   * get defaults when absent; with no candidates the page reports an error.
   * Otherwise the current candidate's enrichment is shown, and the clicked
   * button is handled: confirm resets the round and returns to the search
   * page; reject advances the cursor or, on the last candidate, produces the
   * escalation link and makes sure the saved flag exists.
   */
  method Run1(s: Session, naver: string -> Option<BookInfo>, action: ReviewAction) returns (out: ReviewOutcome)
    requires s.Valid()
    modifies s
    ensures s.Valid() && s.CursorInRange()
    ensures s.booksNotFound == old(s.booksNotFound) && s.userStory == old(s.userStory)
    ensures s.feedbackText == old(s.feedbackText) && s.searching == old(s.searching) && s.isSearched == old(s.isSearched)
    // no candidates: an error, and only the defaults are written
    ensures old(s.booksNotFound).None? || |old(s.booksNotFound).value| == 0 ==>
      && out == NoCandidates
      && s.bookIndex == Some(old(s.bookIndex).GetOr(0))
      && s.booksDisplayed == Some(old(s.booksDisplayed).GetOr([]))
      && s.page == old(s.page) && s.feedbackSaved == old(s.feedbackSaved)
    ensures old(s.booksNotFound).Some? && |old(s.booksNotFound).value| > 0 ==>
      var candidates := old(s.booksNotFound).value;
      var i := old(s.bookIndex).GetOr(0);
      i < |candidates| &&
      var book := candidates[i];
      var shown := Render(old(s.booksDisplayed).GetOr([]), naver(book.title));
      && (action == NoClick ==>
            out == Reviewing(book, naver(book.title)) && s.bookIndex == Some(i) && s.booksDisplayed == Some(shown)
            && s.page == old(s.page) && s.feedbackSaved == old(s.feedbackSaved))
      && (action == Confirm ==>
            out == Confirmed(book) && s.bookIndex == Some(0) && s.booksDisplayed == Some([])
            && s.page == Some("book_search") && s.feedbackSaved == old(s.feedbackSaved))
      && (action == Reject && i < |candidates| - 1 ==>
            out == Advanced(i + 1) && s.bookIndex == Some(i + 1) && s.booksDisplayed == Some(shown)
            && s.page == old(s.page) && s.feedbackSaved == old(s.feedbackSaved))
      && (action == Reject && i == |candidates| - 1 ==>
            out == Exhausted(GoogleLink(old(s.userStory).value)) && s.bookIndex == Some(i)
            && s.booksDisplayed == Some(shown)
            && s.page == old(s.page) && s.feedbackSaved == Some(old(s.feedbackSaved).GetOr(false)))
  {
    InitReviewKeys(s);
    if s.booksNotFound.None? || |s.booksNotFound.value| == 0 {
      return NoCandidates;
    }
    var book := s.booksNotFound.value[s.bookIndex.value];
    var info := naver(book.title);
    s.booksDisplayed := Some(Render(s.booksDisplayed.value, info));
    out := HandleReviewAction(s, book, info, action);
  }

  /** The keys the review page reads: the cursor and the displayed list get defaults when absent. */
  method InitReviewKeys(s: Session)
    requires s.Valid()
    modifies s`bookIndex, s`booksDisplayed
    ensures s.Valid()
    ensures s.bookIndex == Some(old(s.bookIndex).GetOr(0))
    ensures s.booksDisplayed == Some(old(s.booksDisplayed).GetOr([]))
  {
    if s.bookIndex.None? {
      s.bookIndex := Some(0);
    }
    if s.booksDisplayed.None? {
      s.booksDisplayed := Some([]);
    }
  }

  /** The buttons of the review page, after the current candidate has been shown. */
  method HandleReviewAction(s: Session, book: Candidate, info: Option<BookInfo>, action: ReviewAction)
    returns (out: ReviewOutcome)
    requires s.Valid() && s.booksNotFound.Some? && |s.booksNotFound.value| > 0 && s.bookIndex.Some?
    requires s.booksDisplayed.Some?
    modifies s`bookIndex, s`booksDisplayed, s`page, s`feedbackSaved
    ensures s.Valid()
    ensures var candidates, i := s.booksNotFound.value, old(s.bookIndex).value;
      && (action == NoClick ==>
            out == Reviewing(book, info) && s.bookIndex == Some(i) && s.booksDisplayed == old(s.booksDisplayed)
            && s.page == old(s.page) && s.feedbackSaved == old(s.feedbackSaved))
      && (action == Confirm ==>
            out == Confirmed(book) && s.bookIndex == Some(0) && s.booksDisplayed == Some([])
            && s.page == Some("book_search") && s.feedbackSaved == old(s.feedbackSaved))
      && (action == Reject && i < |candidates| - 1 ==>
            out == Advanced(i + 1) && s.bookIndex == Some(i + 1) && s.booksDisplayed == old(s.booksDisplayed)
            && s.page == old(s.page) && s.feedbackSaved == old(s.feedbackSaved))
      && (action == Reject && i == |candidates| - 1 ==>
            out == Exhausted(GoogleLink(s.userStory.value)) && s.bookIndex == Some(i)
            && s.booksDisplayed == old(s.booksDisplayed)
            && s.page == old(s.page) && s.feedbackSaved == Some(old(s.feedbackSaved).GetOr(false)))
  {
    var i := s.bookIndex.value;
    match action {
      case NoClick =>
        out := Reviewing(book, info);
      case Confirm =>
        s.bookIndex := Some(0);
        s.booksDisplayed := Some([]);
        s.page := Some("book_search");
        out := Confirmed(book);
      case Reject =>
        out := RejectCandidate(s);
    }
  }

  /** The reject button: the next candidate, or on the last one the web-search link and the feedback form. */
  method RejectCandidate(s: Session) returns (out: ReviewOutcome)
    requires s.Valid() && s.booksNotFound.Some? && |s.booksNotFound.value| > 0 && s.bookIndex.Some?
    modifies s`bookIndex, s`feedbackSaved
    ensures s.Valid()
    ensures var candidates, i := s.booksNotFound.value, old(s.bookIndex).value;
      && (i < |candidates| - 1 ==>
            out == Advanced(i + 1) && s.bookIndex == Some(i + 1) && s.feedbackSaved == old(s.feedbackSaved))
      && (i == |candidates| - 1 ==>
            out == Exhausted(GoogleLink(s.userStory.value)) && s.bookIndex == Some(i)
            && s.feedbackSaved == Some(old(s.feedbackSaved).GetOr(false)))
  {
    var i := s.bookIndex.value;
    if i < |s.booksNotFound.value| - 1 {
      s.bookIndex := Some(i + 1);
      out := Advanced(i + 1);
    } else {
      if s.feedbackSaved.None? {
        s.feedbackSaved := Some(false);
      }
      assert s.Valid();
      out := Exhausted(GoogleLink(s.userStory.value));
    }
  }
}
