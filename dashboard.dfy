/**
 * The dashboard's figures: the selected book's progress, today's progress,
 * the reading streak, the cards of the other current books and the two
 * "latest first" lists.
 */
module Dashboard {
  import opened Optional
  import opened Domain
  import opened Lists
  import opened JsMath
  import opened History
  import opened Sorting
  import AppReducer

  /**
   * `Math.min(Math.round(latest.pagesRead / totalPages * 100), 100)` for a
   * book with a truthy page count and at least one record, else 0: the
   * formula of `getTotalProgress` and of each other-book card.
   */
  function BookProgress(b: Book): (r: int)
    ensures r <= 100
    ensures !TruthyNumber(b.totalPages) || b.readingHistory == [] ==> r == 0
  {
    if !TruthyNumber(b.totalPages) || b.readingHistory == [] then 0
    else Percent(b.readingHistory[|b.readingHistory| - 1].pagesRead, b.totalPages.value)
  }

  /** `getTotalProgress()`: 0 without a selected book, else that book's progress. */
  function TotalProgress(selected: Option<Book>): (r: int)
    ensures r <= 100
    ensures selected.None? ==> r == 0
  {
    match selected
    case None => 0
    case Some(b) => BookProgress(b)
  }

  /** With a positive page count and a non-negative latest page, the progress is in [0, 100]. */
  lemma TotalProgressInRange(b: Book)
    requires b.totalPages.Some? && b.totalPages.value > 0
    requires b.readingHistory != [] ==> b.readingHistory[|b.readingHistory| - 1].pagesRead >= 0
    ensures 0 <= TotalProgress(Some(b)) <= 100
  {
    if b.readingHistory != [] {
      PercentInRange(b.readingHistory[|b.readingHistory| - 1].pagesRead, b.totalPages.value);
    }
  }

  function OnDay(day: int): Entry -> bool {
    (e: Entry) => Day(e.record.date) == day
  }

  /**
   * `getTodayProgress()`: the percentage of the first history entry dated
   * today, or 0 when there is none; it is not a maximum.
   */
  function TodayProgress(history: seq<Entry>, today: int): (r: int)
    ensures (forall k :: 0 <= k < |history| ==> Day(history[k].record.date) != today) ==> r == 0
    ensures (exists k :: 0 <= k < |history| && Day(history[k].record.date) == today) ==>
              exists k :: 0 <= k < |history| && Day(history[k].record.date) == today
                && r == history[k].record.percentage
                && forall j :: 0 <= j < k ==> Day(history[j].record.date) != today
  {
    match Find(history, OnDay(today))
    case None => 0
    case Some(e) =>
      var k := IndexWhere(history, OnDay(today));
      assert history[k] == e;
      e.record.percentage
  }

  /** In a date-sorted history, the first entry of a day is dated no later than any other entry of that day. */
  lemma FirstOfDayIsEarliest(h: seq<Entry>, today: int)
    requires SortedBy(h, EntryDate())
    requires exists k :: 0 <= k < |h| && Day(h[k].record.date) == today
    ensures exists k :: 0 <= k < |h| && Day(h[k].record.date) == today
              && TodayProgress(h, today) == h[k].record.percentage
              && forall j :: 0 <= j < |h| && Day(h[j].record.date) == today ==> h[k].record.date <= h[j].record.date
  {
    var k := IndexWhere(h, OnDay(today));
    assert Find(h, OnDay(today)) == Some(h[k]);
    forall j | 0 <= j < |h| && Day(h[j].record.date) == today
      ensures h[k].record.date <= h[j].record.date
    {
      assert k <= j;
      if k < j {
        assert EntryDate()(h[k]) <= EntryDate()(h[j]);
      }
    }
  }

  /** On the sorted history, today's progress is that of the earliest record of the day. */
  lemma TodayIsEarliest(s: AppState, today: int)
    requires exists k :: 0 <= k < |AllReadingHistory(s)| && Day(AllReadingHistory(s)[k].record.date) == today
    ensures var h := AllReadingHistory(s);
      exists k :: 0 <= k < |h| && Day(h[k].record.date) == today
        && TodayProgress(h, today) == h[k].record.percentage
        && forall j :: 0 <= j < |h| && Day(h[j].record.date) == today ==> h[k].record.date <= h[j].record.date
  {
    FirstOfDayIsEarliest(AllReadingHistory(s), today);
  }

  // ----------------------------------------------------------------- streak

  /** Some entry of the history is dated on day d (`allReadingHistory.some(...)`). */
  predicate ReadOn(history: seq<Entry>, d: int) {
    exists k :: 0 <= k < |history| && Day(history[k].record.date) == d
  }

  /** The number of consecutive read days today - i, today - i - 1, ... with i < 30. */
  function RunFrom(history: seq<Entry>, today: int, i: nat): nat
    decreases 30 - i
  {
    if i >= 30 || !ReadOn(history, today - i) then 0 else 1 + RunFrom(history, today, i + 1)
  }

  /** The streak: today counts when read, and a missing today does not break the run before it. */
  function Streak(history: seq<Entry>, today: int): nat {
    (if ReadOn(history, today) then 1 else 0) + RunFrom(history, today, 1)
  }

  /** `getReadingStreak()` */
  method GetReadingStreak(history: seq<Entry>, today: int) returns (streak: nat)
    ensures streak == Streak(history, today)
    ensures history == [] ==> streak == 0
  {
    if |history| == 0 {
      return 0;
    }
    streak := 0;
    var i := 0;
    while i < 30
      invariant 0 <= i <= 30
      invariant i == 0 ==> streak == 0
      invariant i > 0 ==> streak + RunFrom(history, today, i) == Streak(history, today)
    {
      var hasRecord := exists k :: 0 <= k < |history| && Day(history[k].record.date) == today - i;
      if hasRecord {
        streak := streak + 1;
      } else if i > 0 {
        break;
      }
      i := i + 1;
    }
  }

  lemma {:induction false} RunFromBound(history: seq<Entry>, today: int, i: nat)
    ensures i <= 30 ==> RunFrom(history, today, i) <= 30 - i
    decreases 30 - i
  {
    if i < 30 && ReadOn(history, today - i) {
      RunFromBound(history, today, i + 1);
    }
  }

  /**
   * The run from day i counts exactly the consecutive read days from today - i
   * and stops at a day without records or at the 30-day horizon.
   */
  lemma {:induction false} RunFromMeans(history: seq<Entry>, today: int, i: nat)
    ensures forall d :: today - i - RunFrom(history, today, i) < d <= today - i ==> ReadOn(history, d)
    ensures i + RunFrom(history, today, i) < 30 ==> !ReadOn(history, today - (i + RunFrom(history, today, i)))
    decreases 30 - i
  {
    if i < 30 && ReadOn(history, today - i) {
      RunFromMeans(history, today, i + 1);
    }
  }

  /**
   * The streak never exceeds 30; it is 0 without history; a miss today does
   * not stop the count of the days before it.
   */
  lemma StreakBounds(history: seq<Entry>, today: int)
    ensures Streak(history, today) <= 30
    ensures history == [] ==> Streak(history, today) == 0
    ensures !ReadOn(history, today) ==> Streak(history, today) == RunFrom(history, today, 1)
  {
    RunFromBound(history, today, 1);
  }

  // ------------------------------------------------------------ other books

  datatype BookCard = BookCard(book: Book, progress: int)

  /** `book.id !== selectedBook?.id`: with no selected book every book passes. */
  function NotSelected(selected: Option<Book>): Book -> bool {
    (b: Book) => selected.None? || b.id != selected.value.id
  }

  /** Not the book with the selected id: with no selected id every book passes. */
  function NotSelectedId(sel: Option<Id>): Book -> bool {
    (b: Book) => sel.None? || b.id != sel.value
  }

  function Cards(books: seq<Book>): (r: seq<BookCard>)
    ensures |r| == |books|
    ensures forall i :: 0 <= i < |r| ==> r[i] == BookCard(books[i], BookProgress(books[i]))
  {
    seq(|books|, i requires 0 <= i < |books| => BookCard(books[i], BookProgress(books[i])))
  }

  /** The "other books" cards, shown only when there is more than one current book. */
  function OtherBookCards(s: AppState): (r: seq<BookCard>)
    ensures |s.currentBooks| <= 1 ==> r == []
  {
    if |s.currentBooks| > 1 then Cards(Filter(s.currentBooks, NotSelected(AppReducer.GetSelectedBook(s))))
    else []
  }

  /**
   * The cards cover every current book except the selected one, each with
   * the same capped progress as the selected book's figure; they keep the
   * order of the current books.
   */
  lemma OtherBooksExceptSelected(s: AppState)
    requires |s.currentBooks| > 1
    ensures var r := OtherBookCards(s);
      var sel := s.selectedBookId;
      && (forall i :: 0 <= i < |r| ==>
            r[i].book in s.currentBooks && (sel.Some? ==> r[i].book.id != sel.value)
            && r[i].progress == TotalProgress(Some(r[i].book)) && r[i].progress <= 100)
      && (forall j :: 0 <= j < |s.currentBooks| && (sel.None? || s.currentBooks[j].id != sel.value) ==>
            exists i :: 0 <= i < |r| && r[i].book == s.currentBooks[j])
    ensures var r := OtherBookCards(s);
      var others := Filter(s.currentBooks, NotSelectedId(s.selectedBookId));
      |r| == |others| && forall i :: 0 <= i < |r| ==> r[i].book == others[i]
  {
    var selected := AppReducer.GetSelectedBook(s);
    var kept := Filter(s.currentBooks, NotSelected(selected));
    var r := OtherBookCards(s);
    forall j | 0 <= j < |s.currentBooks|
      ensures NotSelected(selected)(s.currentBooks[j]) == NotSelectedId(s.selectedBookId)(s.currentBooks[j])
    {
      if selected.None? && s.selectedBookId.Some? {
        assert !ContainsId(s.currentBooks, s.selectedBookId.value);
      }
    }
    FilterCongruent(s.currentBooks, NotSelected(selected), NotSelectedId(s.selectedBookId));
    forall j | 0 <= j < |s.currentBooks| && (s.selectedBookId.None? || s.currentBooks[j].id != s.selectedBookId.value)
      ensures exists i :: 0 <= i < |r| && r[i].book == s.currentBooks[j]
    {
      assert NotSelected(selected)(s.currentBooks[j]);
      assert s.currentBooks[j] in kept;
      var i :| 0 <= i < |kept| && kept[i] == s.currentBooks[j];
      assert r[i].book == kept[i];
    }
  }

  // ------------------------------------------------------------ latest first

  /** `completedBooks.slice(-6).reverse()` */
  function CompletedShown(s: AppState): seq<Book> {
    LastReversed(s.completedBooks, 6)
  }

  /** `allReadingHistory.slice(-3).reverse()` */
  function RecentActivity(history: seq<Entry>): seq<Entry> {
    LastReversed(history, 3)
  }

  /** At most the six most recently completed books are shown, newest first. */
  lemma CompletedShownNewestFirst(s: AppState)
    ensures |CompletedShown(s)| <= 6
    ensures forall j :: 0 <= j < |CompletedShown(s)| ==>
              CompletedShown(s)[j] == s.completedBooks[|s.completedBooks| - 1 - j]
  {
  }

  /** A book completed just now heads the completed list, stamped with the completion time. */
  lemma JustCompletedShownFirst(s: AppState, id: Id, review: Option<string>, now: Timestamp)
    requires ContainsId(s.currentBooks, id)
    ensures var s' := AppReducer.Reduce(s, AppReducer.CompleteBook(id, review, now));
      CompletedShown(s')[0].id == id && CompletedShown(s')[0].completedDate == Some(now)
  {
    AppReducer.CompleteMovesBook(s, id, review, now);
    var s' := AppReducer.Reduce(s, AppReducer.CompleteBook(id, review, now));
    var done := s'.completedBooks;
    assert |done| == |s.completedBooks| + 1;
    assert CompletedShown(s')[0] == done[|done| - 1];
  }

  /** At most the three latest history entries are listed, the latest first. */
  lemma RecentActivityLatestFirst(history: seq<Entry>)
    ensures |RecentActivity(history)| == Min(|history|, 3)
    ensures forall j :: 0 <= j < |RecentActivity(history)| ==>
              RecentActivity(history)[j] == history[|history| - 1 - j]
  {
  }
}
