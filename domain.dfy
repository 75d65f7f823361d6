/**
 * The application's data: books with their reading records, wishlist items,
 * the timer fields and the UI selection, all held in one state value that the
 * reducer replaces on every action.
 *
 * Time: a Timestamp is a local wall-clock instant in milliseconds (what
 * `new Date()` yields, shifted to local time); two instants fall on the same
 * calendar day (`toDateString()` equal) exactly when `Day` maps them to the
 * same integer. Ids are `Date.now()` values.
 */
module Domain {
  import opened Optional

  type Id = int
  type Timestamp = int

  const MsPerDay: int := 86400000

  /** The calendar day of an instant, as a day number. */
  function Day(t: Timestamp): int {
    t / MsPerDay
  }

  /** One reading-progress entry of a book. `notes` is "" when none was written. */
  datatype Record = Record(
    id: Id,
    date: Timestamp,
    pagesRead: int,
    notes: string,
    percentage: int)

  /**
   * A book. `totalPages` None stands for null and for NaN; `completedDate` and
   * `finalReview` are None (absent) until the book is completed.
   */
  datatype Book = Book(
    id: Id,
    title: string,
    author: Option<string>,
    totalPages: Option<int>,
    targetDate: Option<string>,
    startedAt: Timestamp,
    currentPage: int,
    readingHistory: seq<Record>,
    completedDate: Option<Timestamp>,
    finalReview: Option<string>)

  datatype WishlistItem = WishlistItem(
    id: Id,
    title: string,
    details: string,
    amazonLink: string,
    isCompleted: bool,
    createdAt: Timestamp)

  /** The locally registered reader (`{ name, registeredAt }`). */
  datatype LocalUser = LocalUser(name: string, registeredAt: Timestamp)

  /** `'timer'` (a countdown) or `'stopwatch'`; the state holds None (null) when stopped. */
  datatype TimerMode = Countdown | Stopwatch

  datatype AppState = AppState(
    user: Option<LocalUser>,
    currentBooks: seq<Book>,
    selectedBookId: Option<Id>,
    completedBooks: seq<Book>,
    bookWishlist: seq<WishlistItem>,
    currentTab: string,
    isTimerRunning: bool,
    timerSeconds: int,
    timerMode: Option<TimerMode>,
    timerDuration: int,
    selectedCompletedBook: Option<Book>,
    showAddBookModal: bool)

  const InitialState: AppState := AppState(
    None, [], None, [], [], "dashboard", false, 0, None, 0, None, false)

  /** JavaScript truthiness of an optional string: present and non-empty. */
  predicate TruthyText(o: Option<string>) {
    o.Some? && o.value != ""
  }

  /** JavaScript truthiness of an optional number: present (not NaN) and non-zero. */
  predicate TruthyNumber(o: Option<int>) {
    o.Some? && o.value != 0
  }

  function HasId(id: Id): Book -> bool {
    (b: Book) => b.id == id
  }

  function NotId(id: Id): Book -> bool {
    (b: Book) => b.id != id
  }

  /** No two books share an id. */
  predicate UniqueIds(books: seq<Book>) {
    forall i, j :: 0 <= i < |books| && 0 <= j < |books| && books[i].id == books[j].id ==> i == j
  }

  /** Some book in the list has this id. */
  predicate ContainsId(books: seq<Book>, id: Id) {
    exists i :: 0 <= i < |books| && books[i].id == id
  }
}
