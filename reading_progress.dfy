/**
 * The reading-progress form: the percentage of a page count, the current and
 * suggested page, and the submit flow that records progress and, at 100%,
 * hands over to the final review before completing the book.
 */
module ReadingProgress {
  import opened Optional
  import opened Domain
  import opened JsMath
  import opened JsText
  import opened AppReducer

  /**
   * `calculatePercentage(pages)`: 0 without a truthy page count or for a
   * non-positive page number, else the capped rounded percentage.
   */
  function CalculatePercentage(book: Book, pages: int): (r: int)
    ensures r <= 100
    ensures !TruthyNumber(book.totalPages) || pages <= 0 ==> r == 0
  {
    if !TruthyNumber(book.totalPages) || pages <= 0 then 0
    else Percent(pages, book.totalPages.value)
  }

  /**
   * For a book with a positive page count the percentage lies in [0, 100],
   * grows with the page number and is 100 exactly from 99.5% of the pages on.
   */
  lemma CalculatePercentageRange(book: Book, pages: int)
    requires book.totalPages.Some? && book.totalPages.value > 0
    ensures 0 <= CalculatePercentage(book, pages) <= 100
    ensures CalculatePercentage(book, pages) == 100 <==> pages > 0 && 200 * pages >= 199 * book.totalPages.value
  {
    if pages > 0 {
      PercentInRange(pages, book.totalPages.value);
      PercentFullIff(pages, book.totalPages.value);
    }
  }

  /** A percentage of 100 or more needs a book with a truthy page count and a positive page number. */
  lemma FullNeedsPages(book: Book, pages: int)
    requires CalculatePercentage(book, pages) >= 100
    ensures TruthyNumber(book.totalPages) && pages > 0
  {
  }

  /** `getCurrentPages()`: the latest record's page, 0 without records. */
  function GetCurrentPages(book: Book): int {
    if book.readingHistory == [] then 0
    else book.readingHistory[|book.readingHistory| - 1].pagesRead
  }

  /** `suggestedPages`: one page past the current page, and at least 1. */
  function SuggestedPages(book: Book): (r: int)
    ensures r >= 1 && r > GetCurrentPages(book)
  {
    Max(GetCurrentPages(book) + 1, 1)
  }

  /**
   * After ADD_READING_RECORD, the book's current page and the form's
   * current page are both the recorded page.
   */
  lemma RecordSetsCurrentPages(s: AppState, i: nat, input: RecordInput, recordId: Id, now: Timestamp)
    requires i < |s.currentBooks|
    ensures var b := Reduce(s, AddReadingRecord(s.currentBooks[i].id, input, recordId, now)).currentBooks[i];
      GetCurrentPages(b) == input.pagesRead && b.currentPage == input.pagesRead
  {
    AddRecordOnlyMatching(s, s.currentBooks[i].id, input, recordId, now);
  }

  /** `parseInt(formData.pagesRead) || 0` */
  function PagesEntered(text: string): int {
    var parsed := ParseInt(text);
    if parsed.Some? then parsed.value else 0
  }

  /** The record the form submits for a positive page count. */
  function SubmittedRecord(book: Book, pages: int, notes: string): (r: RecordInput)
    ensures r.pagesRead == pages && r.notes == Trim(notes)
    ensures r.percentage == CalculatePercentage(book, pages)
    ensures 0 < r.percentage <= 100 ==> TruthyNumber(book.totalPages)
  {
    RecordInput(pages, Trim(notes), CalculatePercentage(book, pages))
  }

  /** The `ReadingProgress` component for one book, dispatching into the application store. */
  class ProgressForm {
    const book: Book
    const store: Store
    var pagesRead: string
    var notes: string
    var isSubmitting: bool
    var showCompletion: bool
    /** How many times the parent's `onComplete` has been called. */
    var completions: nat

    constructor(book: Book, store: Store)
      ensures this.book == book && this.store == store
      ensures pagesRead == "" && notes == "" && !isSubmitting && !showCompletion && completions == 0
    {
      this.book := book;
      this.store := store;
      pagesRead := "";
      notes := "";
      isSubmitting := false;
      showCompletion := false;
      completions := 0;
    }

    /**
     * `handleSubmit`: nothing happens unless the entered page count is a
     * positive number; otherwise the record with trimmed notes and its
     * percentage is added to the book, then either the review screen opens
     * (at 100%) or the form closes through `onComplete`.
     */
    method HandleSubmit(recordId: Id, now: Timestamp)
      modifies this, store
      ensures PagesEntered(old(pagesRead)) <= 0 ==>
                unchanged(this) && store.state == old(store.state)
      ensures PagesEntered(old(pagesRead)) > 0 ==>
                var pages := PagesEntered(old(pagesRead));
                var record := SubmittedRecord(book, pages, old(notes));
                && store.state == Reduce(old(store.state), AddReadingRecord(book.id, record, recordId, now))
                && (record.percentage >= 100 ==>
                      showCompletion && isSubmitting && completions == old(completions))
                && (record.percentage < 100 ==>
                      showCompletion == old(showCompletion) && !isSubmitting
                      && completions == old(completions) + 1)
      ensures pagesRead == old(pagesRead) && notes == old(notes)
    {
      var pages := PagesEntered(pagesRead);
      if pages <= 0 {
        return;
      }
      isSubmitting := true;
      var percentage := CalculatePercentage(book, pages);
      var record := RecordInput(pages, Trim(notes), percentage);
      store.Dispatch(AddReadingRecord(book.id, record, recordId, now));
      if percentage >= 100 {
        showCompletion := true;
      } else {
        isSubmitting := false;
        completions := completions + 1;
      }
    }

    /**
     * `handleBookCompletion(finalReview)`: completes the book with the review,
     * ends the submission and calls `onComplete`.
     */
    method HandleBookCompletion(finalReview: string, now: Timestamp)
      modifies this, store
      ensures store.state == Reduce(old(store.state), CompleteBook(book.id, Some(finalReview), now))
      ensures !isSubmitting && completions == old(completions) + 1
      ensures showCompletion == old(showCompletion) && pagesRead == old(pagesRead) && notes == old(notes)
    {
      store.Dispatch(CompleteBook(book.id, Some(finalReview), now));
      isSubmitting := false;
      completions := completions + 1;
    }
  }
}
