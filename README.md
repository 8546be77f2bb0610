# A verified model of the "which novel is this?" session controller

The application helps a user find a novel's title from a half-remembered plot.
The user types a story, and a nearest-neighbour search over a corpus of summaries
returns five ranked candidates. The user then reviews them one at a time. Each
candidate is enriched with metadata from a book-data service. The user confirms
it or rejects it. After the last candidate is rejected, the app offers a
web-search link and a feedback form, and the feedback is appended to a shared log.

The state of one user's session lives in Streamlit's `st.session_state`
dictionary, shared by three handlers. This model lifts that dictionary into the
class `SessionState.Session`. It has one field per key: `page`, `userStory`,
`booksNotFound` (the candidates), `bookIndex` (the cursor), `booksDisplayed`,
`feedbackText`, `feedbackSaved`, `searching` and `isSearched`. Each field is an
`Option`, and `None` means the key has never been written. This matters
because several handlers write a default only when a key is absent.

`Session.Valid()` is the invariant every handler keeps:
- the cursor is 0 or a valid index into the candidates;
- a non-empty candidate list always comes with a recorded story, which the
  escalation link needs. It need not be the story that produced the list: a
  later run of the search page without a click overwrites `user_story` and
  keeps the old candidates;
- the displayed list never holds an entry twice.

From `Valid()` follows `0 <= book_index < len(books_not_found)` whenever there
are candidates (`Session.CursorInRange`).

Modules:
- `Wrappers`: `Option`.
- `Text`: Python's `str.strip()`, `replace("\n", " ")`, `"-" * n`, and a line
  splitter used to state what appending a record does to a log file.
- `UrlQuote`: Python's `urllib.parse.quote` with its default `safe="/"`.
  It is UTF-8 (RFC 3629) followed by percent-encoding (section 2.1 of RFC 3986).
  Bytes outside the unreserved set of section 2.3 of RFC 3986, other than `/`,
  become `%XX` with upper-case hex digits. Each encoding has a decoder, and a
  round-trip lemma is proved for it.
- `SessionState`: the session object, the candidate and metadata records, and
  the invariant.
- `BookSearch`: the retrieval join, the book count, and the search page handler.
- `Page1`: rendering, confirm/reject, the escalation link, the feedback record
  and the feedback save.
- `App`: page initialisation and dispatch.

The foreign services become parameters:
- `index: (string, nat) -> seq<nat>` stands for embedding, normalisation and the
  FAISS search. It is a function of the story, so equal stories get equal
  candidates.
- `naver: string -> Option<BookInfo>` stands for the metadata lookup.
- `driveAvailable: bool` stands for Google Drive authentication.
- `FeedbackFiles` holds the local temporary file and the remote file
  (`None` while the remote file does not exist).

What the code does that a reader might not expect; the model follows the code:
- There is no enrichment cache. `naver` is consulted on every render. Only the
  append into `booksDisplayed` is made idempotent (`Page1.AppendIfAbsent`).
- The cursor never reaches `len(candidates)`. Exhaustion is "reject while the
  cursor is on the last candidate". The cursor then stays where it is.
- A new search does not clear `booksDisplayed`. Only confirm and a successful
  feedback save reset it.
- With no candidates, `run_1` reports an error. It still writes the defaults of
  `book_index` and `books_displayed` first, when they are absent.
- `find_similar_books` always returns `top_k = 5` candidates, so the "no books
  found" warning of the search handler can never be reached
  (`BookSearch.SearchNeverEmpty`). The branch is modelled anyway.
- If loading the corpus raises during a search, the busy flag `searching` stays
  set, because the reset after the search is never reached. Every later click is
  then ignored (`BookSearch.RunSearchBooks`, result `CorpusUnavailable`).
- Saving feedback when the remote file does not exist uploads the whole local
  file. The new remote log is the old local file plus the record, not just the
  record. When the remote file exists, it is downloaded over the local file.

## Model

| member | source | states |
|---|---|---|
| BookSearch.Titles | ui/book_search.py:27 | the titles of the corpus, one per book, in corpus order |
| BookSearch.Summaries | ui/book_search.py:28 | the summaries of the corpus, one per book, in the same order as the titles |
| BookSearch.FindSimilarBooks | ui/book_search.py:24-42 | exactly `top_k` candidates; candidate `i` is the title and summary of the same corpus entry, the one the index ranked `i`-th |
| BookSearch.GetBooksCount | ui/book_search.py:45-52 | the number of loaded books, and 0 when the corpus file is missing or is not valid JSON |
| BookSearch.SearchNeverEmpty | ui/book_search.py:113-121 | a search with `top_k = 5` never yields an empty list, so the "no books found" branch is dead |
| BookSearch.InitSearchKeys | ui/book_search.py:90-101 | cursor, candidates and busy flag get 0, `[]`, false only when absent; the story is always overwritten |
| BookSearch.HandleSearchClick | ui/book_search.py:103-124 | no search while busy or without a click; a blank story only warns; a search installs the results, resets the cursor, marks searched and moves to `page1`; the busy flag is cleared after a completed search and stays set if loading the corpus raises; the index must answer in range only when a search actually runs |
| BookSearch.RunSearchBooks | ui/book_search.py:55-124 | the about button only sets `page2`; otherwise the shown count is `GetBooksCount`, each branch happens exactly under its condition, the new value of every key is given, `Valid()` is kept, and the displayed list and feedback keys are untouched; any corpus, an empty one included, is accepted on a run that does not search |
| Text.LeadingSpaces | ui/page1.py:74 | the length of the whitespace run `s` starts with: all of it whitespace, the next character not |
| Text.TrailingSpaces | ui/page1.py:74 | the length of the whitespace run `s` ends with: all of it whitespace, the character before it not |
| Text.Strip | ui/page1.py:74 | `strip()` is no longer than its input and neither starts nor ends with whitespace |
| Text.StripIsTrimmedSlice | ui/page1.py:74 | `strip()` gives a contiguous slice of the input with only whitespace cut on either side |
| Text.StripEmptyIffAllSpace | ui/book_search.py:104 | `not s.strip()` holds exactly when every character of `s` is whitespace (both directions) |
| Text.StripIdempotent | ui/page1.py:74 | stripping an already stripped text changes nothing |
| Text.ReplaceNewlines | ui/page1.py:192 | same length; every line feed becomes a space and every other character is kept; no line feed remains |
| Text.Repeat | ui/page1.py:87 | `c * n` has length `n` and consists only of `c` |
| Text.LineEnd | ui/page1.py:85-87 | the first line feed of the text, or its length, with no line feed before it |
| Text.LinesOfTerminatedLine | ui/page1.py:85-87 | a terminated line without line feeds is one line, followed by the lines of what comes after |
| Text.LinesAppend | ui/page1.py:101-104 | appending to a file whose last line is terminated keeps its lines and adds the new text's lines after them |
| UrlQuote.EncodeChar | ui/page1.py:193 | one to four UTF-8 bytes per character; one byte, equal to the code, exactly for ASCII; only bytes of 0x80 and above otherwise |
| UrlQuote.Utf8Encode | ui/page1.py:193 | between one and four bytes per character |
| UrlQuote.DecodeHeadOfEncodeChar | ui/page1.py:193 | decoding the bytes of one character, whatever follows them, gives that character and consumes exactly its bytes |
| UrlQuote.Utf8RoundTrip | ui/page1.py:193 | UTF-8 decoding inverts UTF-8 encoding |
| UrlQuote.Utf8OfAscii | ui/page1.py:193 | an ASCII text encodes to its own character codes, one byte each |
| UrlQuote.HexDigit | ui/page1.py:193 | every digit `quote` writes is an upper-case hexadecimal digit |
| UrlQuote.HexValueOfDigit | ui/page1.py:193 | reading back a written hex digit gives its value |
| UrlQuote.QuoteByte | ui/page1.py:193 | an octet whose character is unreserved or `/` is kept as exactly that character, and only such an octet; every other octet becomes `%` and two upper-case hex digits whose values are its high and low nibble |
| UrlQuote.DecodeQuoteByte | ui/page1.py:193 | percent-decoding the encoding of one octet, followed by anything, yields that octet and then decodes the rest |
| UrlQuote.PercentEncode | ui/page1.py:193 | one to three characters per octet |
| UrlQuote.PercentEncodeKeepsSafe | ui/page1.py:193 | octets that are all unreserved characters or `/` come out unchanged, as those characters |
| UrlQuote.PercentRoundTrip | ui/page1.py:193 | percent-decoding inverts percent-encoding |
| UrlQuote.PercentEncodeAlphabet | ui/page1.py:193 | the encoded text uses only unreserved characters, `/`, `%` and upper-case hex digits |
| UrlQuote.Quote | ui/page1.py:193 | `quote(s)` uses only unreserved characters, `/`, `%` and upper-case hex digits, and percent-decodes to the UTF-8 bytes of `s` |
| UrlQuote.QuoteOfSafeText | ui/page1.py:193 | a text made only of letters, digits, `-._~` and `/` is its own quoting |
| UrlQuote.QuoteRoundTrip | ui/page1.py:193 | percent-decoding and then UTF-8 decoding the output of `quote` gives back the text |
| Page1.AppendIfAbsent | ui/page1.py:147-150 | the old list is a prefix of the new one; the enrichment is in it; nothing is added when it was already there, at most one entry otherwise; a list without duplicates stays without duplicates |
| Page1.AppendIfAbsentIdempotent | ui/page1.py:147-150 | rendering the same enrichment twice is the same as rendering it once |
| Page1.Render | ui/page1.py:145-167 | the displayed list only grows; a missing enrichment leaves it unchanged; a found one goes through `AppendIfAbsent` |
| Page1.EscalationQuery | ui/page1.py:192 | the searched text has no line feed, keeps the story's length with line feeds made spaces, and ends with the fixed suffix |
| Page1.GoogleLink | ui/page1.py:192-194 | the link starts with the search URL; the rest uses only `quote`'s output characters and decodes back to exactly the escalation query |
| Page1.FeedbackRecord | ui/page1.py:85-87 | the record's length is the story's plus the feedback's plus 60, and it ends with a line feed |
| Page1.FeedbackRecordLines | ui/page1.py:85-87 | for a single-line story and feedback, the record is exactly the three lines `Story: …`, `Feedback: …` and forty hyphens |
| Page1.LinesOfThree | ui/page1.py:85-87 | three terminated lines without line feeds read back as those three lines |
| Page1.AppendRecordLines | ui/page1.py:101-104 | appending a record to a log whose last line is complete keeps the log's lines and adds the record's lines; the result again ends with a line feed |
| Page1.SeparatorIsFortyHyphens | ui/page1.py:87 | the separator line is `"-" * 40` |
| Page1.FeedbackFiles.AppendLocal | ui/page1.py:84-87 | the local file gains the record at its end; the remote file is untouched |
| Page1.FeedbackFiles.MirrorToRemote | ui/page1.py:93-115 | an existing remote file becomes its old content plus the record; a missing one is created from the local file; both files end up equal |
| Page1.SaveFeedback | ui/page1.py:72-124 | blank or whitespace-only feedback changes nothing and writes nothing; otherwise the record of the story (default `No Story Provided`) and the stripped feedback is appended locally; only with a drive is the remote log extended and the round reset (`feedback_saved` true, `feedback_text` empty, cursor 0, displayed list empty, page `book_search`) |
| Page1.InitReviewKeys | ui/page1.py:130-134 | the cursor and the displayed list get 0 and `[]` only when absent |
| Page1.HandleReviewAction | ui/page1.py:169-203 | confirm resets cursor and displayed list and returns to `book_search`; reject before the last candidate advances the cursor by exactly one; reject on the last one keeps the cursor, returns the escalation link and defaults `feedback_saved` to false; `Valid()` is kept |
| Page1.RejectCandidate | ui/page1.py:187-198 | before the last candidate the cursor advances by exactly one; on the last one the cursor stays, the escalation link is returned and `feedback_saved` defaults to false; `Valid()` is kept |
| Page1.Run1 | ui/page1.py:127-203 | with no candidates, an error and only the defaults written; otherwise the current candidate is enriched and shown, the clicked button is handled as above, and the cursor is within the candidates afterwards; the candidates, story, feedback text and busy flag never change |
| App.Dispatch | app.py:17-26 | `book_search`, `page1` and `page2` each select their own handler, and every other value selects none |
| App.InitialPage | app.py:14-15 | an existing page is kept; an absent one becomes the search page |
| App.RunPage | app.py:12-26 | the page is defaulted only when absent; the handler run is the one `Dispatch` selects; on the about page or an unknown page nothing else changes; `Valid()` is kept; the index is constrained only on a search-page run that searches |

## Left out

- Page rendering is not modelled: columns, images, HTML, balloons, spinner, `time.sleep` and `st.rerun`. Only the rerun's effect of ending the run is kept.
- The embedding model, `faiss.normalize_L2` and `faiss_index.search` are not modelled. They use floating point inside a foreign library. They are the `index` oracle, whose ids are required to be in range on the runs that search. FAISS's `-1` labels and Python's negative indexing are not modelled.
- The metadata call and its key loading (`get_book_info_from_naver`, `get_naver_api_keys`) are not modelled. They become the `naver` oracle. HTTP status handling, the JSON shape and transport failures belong to the foreign service.
- Google Drive is not modelled: `authenticate_gdrive`, its credentials, the file listing, download and upload. It becomes `driveAvailable` plus the remote file's presence and content. A missing `gdrive` secret, which raises on the folder lookup, falls under "drive unavailable": no reset happens in either case.
- The success message and the Drive folder link that `save_feedback` shows are not modelled. They are presentation.
- The about page's handler `run_2` is in ui/page2.py, which is not part of this model. `App.RunPage` runs nothing for that page.
- The corpus and the log files are in-memory values; file I/O and JSON parsing are not modelled. A corpus that fails to load is modelled only through `BookSearch.Corpus`.
- Streamlit's widget plumbing is not modelled. The feedback text area writes `st.session_state["feedback_text"]`; callers set `Session.feedbackText`. The form's submit callback is the separate call `Page1.SaveFeedback`.
- The lost-update race on the shared remote log and the one-hour resource cache are not modelled. They are concurrency and process-lifetime concerns.
- Python raises when UTF-8-encoding a lone surrogate; this is not modelled, because Dafny characters are Unicode scalar values and cannot hold one.
- App.RunPage: for the search and review pages it states only a few facts (the invariant, the page, the keys that handler never touches). The full effect of each handler is the contract of `BookSearch.RunSearchBooks` or `Page1.Run1`.
