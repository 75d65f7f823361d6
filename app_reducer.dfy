/**
 * The application reducer: every action maps the whole state to a new state,
 * changing only the fields the action is about. `Date.now()` ids and
 * `new Date()` instants arrive inside the actions as parameters.
 */
module AppReducer {
  import opened Optional
  import opened Domain
  import opened Lists

  /** The form fields of `addBook`; None stands for an absent or null field. */
  datatype NewBook = NewBook(
    title: string,
    author: Option<string>,
    totalPages: Option<int>,
    targetDate: Option<string>)

  /** The keys of an `updateBook` patch; None means the key is not in the patch. */
  datatype BookUpdate = BookUpdate(
    title: Option<string>,
    author: Option<Option<string>>,
    totalPages: Option<Option<int>>,
    targetDate: Option<Option<string>>,
    currentPage: Option<int>)

  /** The record passed to `addReadingRecord`. */
  datatype RecordInput = RecordInput(pagesRead: int, notes: string, percentage: int)

  /** The item passed to `addToWishlist`. */
  datatype NewWish = NewWish(title: string, details: Option<string>, amazonLink: Option<string>)

  /** The keys of an `updateWishlistItem` patch. */
  datatype WishUpdate = WishUpdate(
    title: Option<string>,
    details: Option<string>,
    amazonLink: Option<string>,
    isCompleted: Option<bool>)

  /**
   * A persisted snapshot: one Option per key (None: the key is absent), plus
   * the keys of the legacy single-book format.
   */
  datatype Snapshot = Snapshot(
    user: Option<Option<LocalUser>>,
    currentBooks: Option<seq<Book>>,
    selectedBookId: Option<Option<Id>>,
    completedBooks: Option<seq<Book>>,
    bookWishlist: Option<seq<WishlistItem>>,
    currentTab: Option<string>,
    isTimerRunning: Option<bool>,
    timerSeconds: Option<int>,
    timerMode: Option<Option<TimerMode>>,
    timerDuration: Option<int>,
    selectedCompletedBook: Option<Option<Book>>,
    showAddBookModal: Option<bool>,
    legacyBook: Option<Book>,
    legacyHistory: Option<seq<Record>>)

  datatype Action =
    | SetUser(user: Option<LocalUser>)
    | AddBook(book: NewBook, id: Id, now: Timestamp)
    | UpdateBook(id: Id, updates: BookUpdate)
    | RemoveBook(id: Id)
    | SelectBook(selected: Option<Id>)
    | AddReadingRecord(id: Id, record: RecordInput, recordId: Id, now: Timestamp)
    | CompleteBook(id: Id, finalReview: Option<string>, now: Timestamp)
    | SetCurrentTab(tab: string)
    | StartTimer(mode: TimerMode, duration: int)
    | StopTimer
    | UpdateTimer(seconds: int)
    | AddToWishlist(wish: NewWish, id: Id, now: Timestamp)
    | UpdateWishlistItem(id: Id, patch: WishUpdate)
    | RemoveFromWishlist(id: Id)
    | SetSelectedCompletedBook(completed: Option<Book>)
    | SetShowAddBookModal(show: bool)
    | LoadData(snapshot: Snapshot)
    | Unknown

  /** `x || null` for a text field. */
  function TextOrNull(o: Option<string>): Option<string> {
    if TruthyText(o) then o else None
  }

  /** `x || null` for a number field. */
  function NumberOrNull(o: Option<int>): Option<int> {
    if TruthyNumber(o) then o else None
  }

  /** `x || ''` */
  function TextOrEmpty(o: Option<string>): string {
    if o.Some? then o.value else ""
  }

  function ApplyBookUpdate(b: Book, u: BookUpdate): Book {
    b.(title := u.title.GetOr(b.title),
       author := u.author.GetOr(b.author),
       totalPages := u.totalPages.GetOr(b.totalPages),
       targetDate := u.targetDate.GetOr(b.targetDate),
       currentPage := u.currentPage.GetOr(b.currentPage))
  }

  function ApplyWishUpdate(w: WishlistItem, u: WishUpdate): WishlistItem {
    w.(title := u.title.GetOr(w.title),
       details := u.details.GetOr(w.details),
       amazonLink := u.amazonLink.GetOr(w.amazonLink),
       isCompleted := u.isCompleted.GetOr(w.isCompleted))
  }

  function WishNotId(id: Id): WishlistItem -> bool {
    (w: WishlistItem) => w.id != id
  }

  /** `books.map(b => b.id === id ? f(b) : b)` with f = applying the patch. */
  function UpdateMatching(books: seq<Book>, id: Id, u: BookUpdate): seq<Book> {
    seq(|books|, i requires 0 <= i < |books| =>
      if books[i].id == id then ApplyBookUpdate(books[i], u) else books[i])
  }

  /** The record ADD_READING_RECORD builds. */
  function NewRecord(a: Action): Record
    requires a.AddReadingRecord?
  {
    Record(a.recordId, a.now, a.record.pagesRead, a.record.notes, a.record.percentage)
  }

  function AppendRecord(books: seq<Book>, id: Id, rec: Record): seq<Book> {
    seq(|books|, i requires 0 <= i < |books| =>
      if books[i].id == id
      then books[i].(currentPage := rec.pagesRead, readingHistory := books[i].readingHistory + [rec])
      else books[i])
  }

  function UpdateWishes(items: seq<WishlistItem>, id: Id, u: WishUpdate): seq<WishlistItem> {
    seq(|items|, i requires 0 <= i < |items| =>
      if items[i].id == id then ApplyWishUpdate(items[i], u) else items[i])
  }

  /** The selection after the books with `id` left the list `remaining`. */
  function Reselect(selected: Option<Id>, id: Id, remaining: seq<Book>): Option<Id> {
    if selected == Some(id) then (if |remaining| > 0 then Some(remaining[0].id) else None)
    else selected
  }

  /** The legacy `currentBook` migration and the defaults LOAD_DATA applies to a snapshot. */
  function Normalize(p: Snapshot): Snapshot {
    var migrated :=
      if p.legacyBook.Some? && p.currentBooks.None? then
        var legacy := p.legacyBook.value;
        p.(currentBooks := Some([legacy.(readingHistory := p.legacyHistory.GetOr([]))]),
           selectedBookId := Some(Some(legacy.id)),
           legacyBook := None,
           legacyHistory := None)
      else p;
    var books := migrated.currentBooks.GetOr([]);
    var selectedTruthy := migrated.selectedBookId.Some? && TruthyNumber(migrated.selectedBookId.value);
    migrated.(currentBooks := Some(books),
              selectedBookId := if !selectedTruthy && |books| > 0 then Some(Some(books[0].id))
                                else migrated.selectedBookId)
  }

  /** `{ ...state, ...snapshot }`: keys present in the snapshot win. */
  function Merge(s: AppState, p: Snapshot): AppState {
    AppState(
      p.user.GetOr(s.user),
      p.currentBooks.GetOr(s.currentBooks),
      p.selectedBookId.GetOr(s.selectedBookId),
      p.completedBooks.GetOr(s.completedBooks),
      p.bookWishlist.GetOr(s.bookWishlist),
      p.currentTab.GetOr(s.currentTab),
      p.isTimerRunning.GetOr(s.isTimerRunning),
      p.timerSeconds.GetOr(s.timerSeconds),
      p.timerMode.GetOr(s.timerMode),
      p.timerDuration.GetOr(s.timerDuration),
      p.selectedCompletedBook.GetOr(s.selectedCompletedBook),
      p.showAddBookModal.GetOr(s.showAddBookModal))
  }

  /** `appReducer(state, action)` */
  function Reduce(s: AppState, a: Action): AppState {
    match a
    case SetUser(u) => s.(user := u)
    case AddBook(nb, id, now) =>
      var book := Book(id, nb.title, TextOrNull(nb.author), NumberOrNull(nb.totalPages),
                       TextOrNull(nb.targetDate), now, 0, [], None, None);
      s.(currentBooks := s.currentBooks + [book], selectedBookId := Some(id))
    case UpdateBook(id, u) => s.(currentBooks := UpdateMatching(s.currentBooks, id, u))
    case RemoveBook(id) =>
      var remaining := Filter(s.currentBooks, NotId(id));
      s.(currentBooks := remaining, selectedBookId := Reselect(s.selectedBookId, id, remaining))
    case SelectBook(sel) => s.(selectedBookId := sel)
    case AddReadingRecord(id, _, _, _) =>
      s.(currentBooks := AppendRecord(s.currentBooks, id, NewRecord(a)))
    case CompleteBook(id, review, now) =>
      var found := Find(s.currentBooks, HasId(id));
      if found.None? then s
      else
        var remaining := Filter(s.currentBooks, NotId(id));
        s.(completedBooks := s.completedBooks + [found.value.(completedDate := Some(now), finalReview := review)],
           currentBooks := remaining,
           selectedBookId := Reselect(s.selectedBookId, id, remaining))
    case SetCurrentTab(tab) => s.(currentTab := tab)
    case StartTimer(mode, duration) =>
      s.(isTimerRunning := true, timerMode := Some(mode), timerDuration := duration,
         timerSeconds := if mode == Countdown then duration else 0)
    case StopTimer =>
      s.(isTimerRunning := false, timerMode := None, timerDuration := 0, timerSeconds := 0)
    case UpdateTimer(seconds) => s.(timerSeconds := seconds)
    case AddToWishlist(w, id, now) =>
      var item := WishlistItem(id, w.title, TextOrEmpty(w.details), TextOrEmpty(w.amazonLink), false, now);
      s.(bookWishlist := s.bookWishlist + [item])
    case UpdateWishlistItem(id, u) => s.(bookWishlist := UpdateWishes(s.bookWishlist, id, u))
    case RemoveFromWishlist(id) => s.(bookWishlist := Filter(s.bookWishlist, WishNotId(id)))
    case SetSelectedCompletedBook(b) => s.(selectedCompletedBook := b)
    case SetShowAddBookModal(show) => s.(showAddBookModal := show)
    case LoadData(p) => Merge(s, Normalize(p))
    case Unknown => s
  }

  /**
   * `getSelectedBook()`: the current book whose id is the selected id, or
   * None (null) when nothing is selected or no book has that id.
   */
  function GetSelectedBook(s: AppState): (r: Option<Book>)
    ensures r.None? <==> s.selectedBookId.None? || !ContainsId(s.currentBooks, s.selectedBookId.value)
    ensures r.Some? ==> r.value in s.currentBooks && Some(r.value.id) == s.selectedBookId
  {
    match s.selectedBookId
    case None => None
    case Some(id) =>
      var r := Find(s.currentBooks, HasId(id));
      if r.Some? then
        assert exists i :: 0 <= i < |s.currentBooks| && s.currentBooks[i] == r.value by {
          var k := IndexWhere(s.currentBooks, HasId(id));
          assert s.currentBooks[k] == r.value;
        }
        r
      else
        r
  }

  /** The selection is null or the id of a current book. */
  predicate SelectionValid(s: AppState) {
    s.selectedBookId.None? || ContainsId(s.currentBooks, s.selectedBookId.value)
  }

  // ------------------------------------------------------------------ books

  /** ADD_BOOK appends exactly one fresh book and selects it; nothing else changes. */
  lemma AddBookAppends(s: AppState, nb: NewBook, id: Id, now: Timestamp)
    ensures var r := Reduce(s, AddBook(nb, id, now));
      && |r.currentBooks| == |s.currentBooks| + 1
      && r.currentBooks[..|s.currentBooks|] == s.currentBooks
      && r.currentBooks[|s.currentBooks|]
         == Book(id, nb.title,
                 if nb.author == Some("") then None else nb.author,
                 if nb.totalPages == Some(0) then None else nb.totalPages,
                 if nb.targetDate == Some("") then None else nb.targetDate,
                 now, 0, [], None, None)
      && r.selectedBookId == Some(id)
      && r.(currentBooks := s.currentBooks, selectedBookId := s.selectedBookId) == s
  {
    var r := Reduce(s, AddBook(nb, id, now));
    assert r.currentBooks[..|s.currentBooks|] == s.currentBooks;
  }

  /**
   * UPDATE_BOOK rewrites only the books whose id matches, with the patched
   * keys; the list keeps its length and every other field of the state.
   */
  lemma UpdateBookOnlyMatching(s: AppState, id: Id, u: BookUpdate)
    ensures var r := Reduce(s, UpdateBook(id, u));
      && |r.currentBooks| == |s.currentBooks|
      && (forall i :: 0 <= i < |s.currentBooks| && s.currentBooks[i].id != id ==>
            r.currentBooks[i] == s.currentBooks[i])
      && (forall i :: 0 <= i < |s.currentBooks| && s.currentBooks[i].id == id ==>
            var b, b' := s.currentBooks[i], r.currentBooks[i];
            && b'.id == id && b'.readingHistory == b.readingHistory && b'.startedAt == b.startedAt
            && b'.completedDate == b.completedDate && b'.finalReview == b.finalReview
            && (u.title.Some? ==> b'.title == u.title.value) && (u.title.None? ==> b'.title == b.title)
            && (u.author.Some? ==> b'.author == u.author.value) && (u.author.None? ==> b'.author == b.author)
            && (u.totalPages.Some? ==> b'.totalPages == u.totalPages.value)
            && (u.totalPages.None? ==> b'.totalPages == b.totalPages)
            && (u.targetDate.Some? ==> b'.targetDate == u.targetDate.value)
            && (u.targetDate.None? ==> b'.targetDate == b.targetDate)
            && (u.currentPage.Some? ==> b'.currentPage == u.currentPage.value)
            && (u.currentPage.None? ==> b'.currentPage == b.currentPage))
      && r.(currentBooks := s.currentBooks) == s
  {
  }

  /**
   * ADD_READING_RECORD appends the new record last to every book with the id
   * and sets its current page; other books and all other state are unchanged.
   */
  lemma AddRecordOnlyMatching(s: AppState, id: Id, input: RecordInput, recordId: Id, now: Timestamp)
    ensures var r := Reduce(s, AddReadingRecord(id, input, recordId, now));
      && |r.currentBooks| == |s.currentBooks|
      && (forall i :: 0 <= i < |s.currentBooks| && s.currentBooks[i].id != id ==>
            r.currentBooks[i] == s.currentBooks[i])
      && (forall i :: 0 <= i < |s.currentBooks| && s.currentBooks[i].id == id ==>
            && |r.currentBooks[i].readingHistory| == |s.currentBooks[i].readingHistory| + 1
            && r.currentBooks[i].readingHistory[..|s.currentBooks[i].readingHistory|]
               == s.currentBooks[i].readingHistory
            && r.currentBooks[i].readingHistory[|s.currentBooks[i].readingHistory|]
               == Record(recordId, now, input.pagesRead, input.notes, input.percentage)
            && r.currentBooks[i].currentPage == input.pagesRead
            && r.currentBooks[i].(currentPage := s.currentBooks[i].currentPage,
                                  readingHistory := s.currentBooks[i].readingHistory)
               == s.currentBooks[i])
      && r.(currentBooks := s.currentBooks) == s
  {
    var r := Reduce(s, AddReadingRecord(id, input, recordId, now));
    forall i | 0 <= i < |s.currentBooks| && s.currentBooks[i].id == id
      ensures r.currentBooks[i].readingHistory[..|s.currentBooks[i].readingHistory|]
              == s.currentBooks[i].readingHistory
    {
      var h := s.currentBooks[i].readingHistory;
      assert r.currentBooks[i].readingHistory == h + [NewRecord(AddReadingRecord(id, input, recordId, now))];
    }
  }

  /**
   * REMOVE_BOOK leaves exactly the books with another id, in order. A removed
   * selection moves to the first remaining book (or null); any other
   * selection stays.
   */
  lemma RemoveBookFilters(s: AppState, id: Id)
    ensures var r := Reduce(s, RemoveBook(id));
      && r.currentBooks == Filter(s.currentBooks, NotId(id))
      && (forall i :: 0 <= i < |r.currentBooks| ==> r.currentBooks[i].id != id)
      && (forall i :: 0 <= i < |s.currentBooks| && s.currentBooks[i].id != id ==>
            s.currentBooks[i] in r.currentBooks)
      && (s.selectedBookId == Some(id) && r.currentBooks == [] ==> r.selectedBookId == None)
      && (s.selectedBookId == Some(id) && r.currentBooks != [] ==>
            r.selectedBookId == Some(r.currentBooks[0].id)
            && r.currentBooks[0] == s.currentBooks[IndexWhere(s.currentBooks, NotId(id))])
      && (s.selectedBookId != Some(id) ==> r.selectedBookId == s.selectedBookId)
      && r.(currentBooks := s.currentBooks, selectedBookId := s.selectedBookId) == s
  {
    var remaining := Filter(s.currentBooks, NotId(id));
    if remaining != [] {
      FilterHead(s.currentBooks, NotId(id));
    }
  }

  /** COMPLETE_BOOK for an id that no current book has leaves the state as it was. */
  lemma CompleteMissingIsNoOp(s: AppState, id: Id, review: Option<string>, now: Timestamp)
    requires !ContainsId(s.currentBooks, id)
    ensures Reduce(s, CompleteBook(id, review, now)) == s
  {
    assert Find(s.currentBooks, HasId(id)).None?;
  }

  /**
   * COMPLETE_BOOK for a current book moves it (the first with the id) to the
   * end of `completedBooks`, stamped with the date and review, removes every
   * book with the id from `currentBooks` and repairs the selection as
   * REMOVE_BOOK does.
   */
  lemma CompleteMovesBook(s: AppState, id: Id, review: Option<string>, now: Timestamp)
    requires ContainsId(s.currentBooks, id)
    ensures var r := Reduce(s, CompleteBook(id, review, now));
      var b := s.currentBooks[IndexWhere(s.currentBooks, HasId(id))];
      && b.id == id
      && r.completedBooks == s.completedBooks + [b.(completedDate := Some(now), finalReview := review)]
      && r.currentBooks == Filter(s.currentBooks, NotId(id))
      && r.selectedBookId == Reduce(s, RemoveBook(id)).selectedBookId
      && r.(currentBooks := s.currentBooks, completedBooks := s.completedBooks,
            selectedBookId := s.selectedBookId) == s
  {
    var k := IndexWhere(s.currentBooks, HasId(id));
    assert k < |s.currentBooks|;
    assert Find(s.currentBooks, HasId(id)) == Some(s.currentBooks[k]);
  }

  /** With unique ids, completing a current book keeps the total number of books. */
  lemma CompleteKeepsCount(s: AppState, id: Id, review: Option<string>, now: Timestamp)
    requires ContainsId(s.currentBooks, id) && UniqueIds(s.currentBooks)
    ensures var r := Reduce(s, CompleteBook(id, review, now));
      |r.currentBooks| + |r.completedBooks| == |s.currentBooks| + |s.completedBooks|
  {
    var k := IndexWhere(s.currentBooks, HasId(id));
    CompleteMovesBook(s, id, review, now);
    FilterDropsOne(s.currentBooks, NotId(id), k);
  }

  // ------------------------------------------------------------------ timer

  /**
   * START_TIMER runs the timer in the given mode; the seconds start at the
   * duration for a countdown and at 0 for the stopwatch.
   */
  lemma StartTimerSets(s: AppState, mode: TimerMode, duration: int)
    ensures var r := Reduce(s, StartTimer(mode, duration));
      && r.isTimerRunning && r.timerMode == Some(mode) && r.timerDuration == duration
      && r.timerSeconds == (if mode == Countdown then duration else 0)
      && r.(isTimerRunning := s.isTimerRunning, timerMode := s.timerMode,
            timerDuration := s.timerDuration, timerSeconds := s.timerSeconds) == s
  {
  }

  /** STOP_TIMER resets the four timer fields to false/null/0/0 and nothing else. */
  lemma StopTimerResets(s: AppState)
    ensures var r := Reduce(s, StopTimer);
      && !r.isTimerRunning && r.timerMode.None? && r.timerDuration == 0 && r.timerSeconds == 0
      && r.(isTimerRunning := s.isTimerRunning, timerMode := s.timerMode,
            timerDuration := s.timerDuration, timerSeconds := s.timerSeconds) == s
  {
  }

  /** UPDATE_TIMER changes only the seconds. */
  lemma UpdateTimerOnlySeconds(s: AppState, seconds: int)
    ensures Reduce(s, UpdateTimer(seconds)).timerSeconds == seconds
    ensures Reduce(s, UpdateTimer(seconds)).(timerSeconds := s.timerSeconds) == s
  {
  }

  /** SET_SHOW_ADD_BOOK_MODAL changes only the modal flag. */
  lemma ModalFlagOnly(s: AppState, show: bool)
    ensures Reduce(s, SetShowAddBookModal(show)).showAddBookModal == show
    ensures Reduce(s, SetShowAddBookModal(show)).(showAddBookModal := s.showAddBookModal) == s
  {
  }

  // --------------------------------------------------------------- wishlist

  /** ADD_TO_WISHLIST appends one open item with '' for missing details and link. */
  lemma AddToWishlistAppends(s: AppState, w: NewWish, id: Id, now: Timestamp)
    ensures var r := Reduce(s, AddToWishlist(w, id, now));
      && |r.bookWishlist| == |s.bookWishlist| + 1
      && r.bookWishlist[..|s.bookWishlist|] == s.bookWishlist
      && r.bookWishlist[|s.bookWishlist|] == WishlistItem(id, w.title,
           if w.details.None? then "" else w.details.value,
           if w.amazonLink.None? then "" else w.amazonLink.value, false, now)
      && r.(bookWishlist := s.bookWishlist) == s
  {
    var r := Reduce(s, AddToWishlist(w, id, now));
    assert r.bookWishlist[..|s.bookWishlist|] == s.bookWishlist;
  }

  /** UPDATE_WISHLIST_ITEM patches only the items with the id. */
  lemma UpdateWishOnlyMatching(s: AppState, id: Id, u: WishUpdate)
    ensures var r := Reduce(s, UpdateWishlistItem(id, u));
      && |r.bookWishlist| == |s.bookWishlist|
      && (forall i :: 0 <= i < |s.bookWishlist| && s.bookWishlist[i].id != id ==>
            r.bookWishlist[i] == s.bookWishlist[i])
      && (forall i :: 0 <= i < |s.bookWishlist| && s.bookWishlist[i].id == id ==>
            && r.bookWishlist[i].id == id
            && r.bookWishlist[i].createdAt == s.bookWishlist[i].createdAt
            && (u.isCompleted.Some? ==> r.bookWishlist[i].isCompleted == u.isCompleted.value)
            && (u.isCompleted.None? ==> r.bookWishlist[i].isCompleted == s.bookWishlist[i].isCompleted)
            && (u.title.Some? ==> r.bookWishlist[i].title == u.title.value)
            && (u.title.None? ==> r.bookWishlist[i].title == s.bookWishlist[i].title)
            && (u.details.Some? ==> r.bookWishlist[i].details == u.details.value)
            && (u.details.None? ==> r.bookWishlist[i].details == s.bookWishlist[i].details)
            && (u.amazonLink.Some? ==> r.bookWishlist[i].amazonLink == u.amazonLink.value)
            && (u.amazonLink.None? ==> r.bookWishlist[i].amazonLink == s.bookWishlist[i].amazonLink))
      && r.(bookWishlist := s.bookWishlist) == s
  {
  }

  /** REMOVE_FROM_WISHLIST drops exactly the items with the id. */
  lemma RemoveWishFilters(s: AppState, id: Id)
    ensures var r := Reduce(s, RemoveFromWishlist(id));
      && r.bookWishlist == Filter(s.bookWishlist, WishNotId(id))
      && (forall i :: 0 <= i < |r.bookWishlist| ==> r.bookWishlist[i].id != id)
      && (forall i :: 0 <= i < |s.bookWishlist| && s.bookWishlist[i].id != id ==>
            s.bookWishlist[i] in r.bookWishlist)
      && r.(bookWishlist := s.bookWishlist) == s
  {
  }

  // -------------------------------------------------------------- load data

  /**
   * LOAD_DATA with a legacy `currentBook` and no `currentBooks` installs a
   * one-book list carrying the legacy history (or none) and selects it.
   */
  lemma LoadLegacyMigrates(s: AppState, p: Snapshot)
    requires p.legacyBook.Some? && p.currentBooks.None?
    ensures var r := Reduce(s, LoadData(p));
      && r.currentBooks == [p.legacyBook.value.(readingHistory := p.legacyHistory.GetOr([]))]
      && r.selectedBookId == Some(p.legacyBook.value.id)
      && r.completedBooks == p.completedBooks.GetOr(s.completedBooks)
  {
  }

  /**
   * LOAD_DATA without either book list leaves no current books; a loaded
   * list with a falsy (absent, null or 0) selection selects its first book,
   * and otherwise (an empty or absent list, or a truthy id) the snapshot's
   * selection wins when present and the state's stays when absent; every other key present in the snapshot wins and every absent key keeps
   * the state's value.
   */
  lemma LoadDataDefaults(s: AppState, p: Snapshot)
    ensures var r := Reduce(s, LoadData(p));
      && (p.currentBooks.None? && p.legacyBook.None? ==> r.currentBooks == [])
      && (p.currentBooks.Some? ==> r.currentBooks == p.currentBooks.value)
      && (p.currentBooks.Some? && |p.currentBooks.value| > 0
          && !(p.selectedBookId.Some? && TruthyNumber(p.selectedBookId.value)) ==>
            r.selectedBookId == Some(p.currentBooks.value[0].id))
      && (p.currentBooks.Some? && p.selectedBookId.Some? && TruthyNumber(p.selectedBookId.value) ==>
            r.selectedBookId == p.selectedBookId.value)
      && (p.selectedBookId.None? && r.currentBooks == [] ==> r.selectedBookId == s.selectedBookId)
      && ((p.currentBooks.Some? || p.legacyBook.None?) ==>
            r.selectedBookId
            == if p.currentBooks.GetOr([]) != [] && !(p.selectedBookId.Some? && TruthyNumber(p.selectedBookId.value))
               then Some(p.currentBooks.value[0].id)
               else p.selectedBookId.GetOr(s.selectedBookId))
      && r.user == p.user.GetOr(s.user)
      && r.completedBooks == p.completedBooks.GetOr(s.completedBooks)
      && r.bookWishlist == p.bookWishlist.GetOr(s.bookWishlist)
      && r.currentTab == p.currentTab.GetOr(s.currentTab)
      && r.isTimerRunning == p.isTimerRunning.GetOr(s.isTimerRunning)
      && r.timerSeconds == p.timerSeconds.GetOr(s.timerSeconds)
      && r.timerMode == p.timerMode.GetOr(s.timerMode)
      && r.timerDuration == p.timerDuration.GetOr(s.timerDuration)
      && r.selectedCompletedBook == p.selectedCompletedBook.GetOr(s.selectedCompletedBook)
      && r.showAddBookModal == p.showAddBookModal.GetOr(s.showAddBookModal)
  {
  }

  // ------------------------------------------------------------- invariants

  /** Removing books by id keeps a valid selection valid, repairing it when it was removed. */
  lemma ReselectValid(s: AppState, id: Id)
    requires SelectionValid(s)
    ensures var remaining := Filter(s.currentBooks, NotId(id));
      SelectionValid(s.(currentBooks := remaining,
                        selectedBookId := Reselect(s.selectedBookId, id, remaining)))
  {
    var remaining := Filter(s.currentBooks, NotId(id));
    if s.selectedBookId.Some? && s.selectedBookId.value != id {
      var sel := s.selectedBookId.value;
      var i :| 0 <= i < |s.currentBooks| && s.currentBooks[i].id == sel;
      assert NotId(id)(s.currentBooks[i]);
      var j :| 0 <= j < |remaining| && remaining[j] == s.currentBooks[i];
    } else if remaining != [] {
      assert remaining[0].id == remaining[0].id;
    }
  }

  /** The actions that touch neither the current books nor the selection. */
  predicate KeepsBooks(a: Action) {
    !(a.AddBook? || a.UpdateBook? || a.RemoveBook? || a.SelectBook? || a.AddReadingRecord?
      || a.CompleteBook? || a.LoadData?)
  }

  lemma KeepsBooksKeepsSelection(s: AppState, a: Action)
    requires KeepsBooks(a)
    ensures Reduce(s, a).currentBooks == s.currentBooks && Reduce(s, a).selectedBookId == s.selectedBookId
  {
  }

  /**
   * Every action except SELECT_BOOK and LOAD_DATA (which install a selection
   * given from outside) keeps the selection null or naming a current book.
   */
  lemma SelectionStaysValid(s: AppState, a: Action)
    requires SelectionValid(s)
    requires !a.SelectBook? && !a.LoadData?
    ensures SelectionValid(Reduce(s, a))
  {
    var r := Reduce(s, a);
    if a.AddBook? {
      AddBookAppends(s, a.book, a.id, a.now);
      assert r.currentBooks[|s.currentBooks|].id == a.id;
    } else if a.RemoveBook? {
      ReselectValid(s, a.id);
    } else if a.CompleteBook? {
      if Find(s.currentBooks, HasId(a.id)).Some? {
        ReselectValid(s, a.id);
      }
    } else if a.UpdateBook? || a.AddReadingRecord? {
      assert |r.currentBooks| == |s.currentBooks| && r.selectedBookId == s.selectedBookId;
      if s.selectedBookId.Some? {
        var i :| 0 <= i < |s.currentBooks| && s.currentBooks[i].id == s.selectedBookId.value;
        if a.UpdateBook? {
          UpdateBookOnlyMatching(s, a.id, a.updates);
        } else {
          AddRecordOnlyMatching(s, a.id, a.record, a.recordId, a.now);
        }
        assert r.currentBooks[i].id == s.selectedBookId.value;
      }
    } else {
      KeepsBooksKeepsSelection(s, a);
    }
  }

  /** A valid selection always finds its book. */
  lemma ValidSelectionFindsBook(s: AppState)
    requires SelectionValid(s) && s.selectedBookId.Some?
    ensures GetSelectedBook(s).Some? && GetSelectedBook(s).value.id == s.selectedBookId.value
  {
  }

  /** Filtering keeps ids unique. */
  lemma {:induction false} FilterUnique(books: seq<Book>, p: Book -> bool)
    requires UniqueIds(books)
    ensures UniqueIds(Filter(books, p))
  {
    if books != [] {
      var tail := books[1..];
      assert UniqueIds(tail) by {
        forall i, j | 0 <= i < |tail| && 0 <= j < |tail| && tail[i].id == tail[j].id ensures i == j {
          assert books[i + 1].id == books[j + 1].id;
        }
      }
      FilterUnique(tail, p);
      if p(books[0]) {
        var f := Filter(tail, p);
        var r := [books[0]] + f;
        forall i | 0 <= i < |f| ensures f[i].id != books[0].id {
          var k :| 0 <= k < |tail| && tail[k] == f[i];
          assert books[k + 1] == f[i];
        }
        forall i, j | 0 <= i < |r| && 0 <= j < |r| && r[i].id == r[j].id ensures i == j {
          if i > 0 && j > 0 {
            assert f[i - 1].id == f[j - 1].id;
          }
        }
      }
    }
  }

  /**
   * Book ids stay unique under every action except LOAD_DATA, provided
   * ADD_BOOK's `Date.now()` id is not already in use.
   */
  lemma IdsStayUnique(s: AppState, a: Action)
    requires UniqueIds(s.currentBooks)
    requires a.AddBook? ==> !ContainsId(s.currentBooks, a.id)
    requires !a.LoadData?
    ensures UniqueIds(Reduce(s, a).currentBooks)
  {
    var r := Reduce(s, a).currentBooks;
    if a.AddBook? {
      AddBookAppends(s, a.book, a.id, a.now);
      assert forall k :: 0 <= k < |s.currentBooks| ==> r[k] == s.currentBooks[k] && r[k].id != a.id;
      assert r[|s.currentBooks|].id == a.id;
    } else if a.RemoveBook? || a.CompleteBook? {
      FilterUnique(s.currentBooks, NotId(a.id));
      if a.CompleteBook? && !ContainsId(s.currentBooks, a.id) {
        CompleteMissingIsNoOp(s, a.id, a.finalReview, a.now);
      } else if a.CompleteBook? {
        CompleteMovesBook(s, a.id, a.finalReview, a.now);
      }
    } else if a.UpdateBook? || a.AddReadingRecord? {
      if a.UpdateBook? {
        UpdateBookOnlyMatching(s, a.id, a.updates);
      } else {
        AddRecordOnlyMatching(s, a.id, a.record, a.recordId, a.now);
      }
      forall i, j | 0 <= i < |r| && 0 <= j < |r| && r[i].id == r[j].id ensures i == j {
        assert s.currentBooks[i].id == r[i].id && s.currentBooks[j].id == r[j].id;
      }
    } else if !a.SelectBook? {
      KeepsBooksKeepsSelection(s, a);
    }
  }

  /** The `useReducer` cell of `AppProvider`: one state, replaced by each dispatch. */
  class Store {
    var state: AppState

    constructor()
      ensures state == InitialState
    {
      state := InitialState;
    }

    /** `dispatch(action)` */
    method Dispatch(a: Action)
      modifies this
      ensures state == Reduce(old(state), a)
    {
      state := Reduce(state, a);
    }
  }
}
