/**
 * `AppContent`: which screen the application shows for a state. The checks
 * run in a fixed order, so an earlier condition hides every later one.
 */
module AppRouting {
  import opened Optional
  import opened Domain
  import opened AppReducer
  import BookRegistration
  import JsText

  /** The main screens reached through the tab bar. */
  datatype Tab = DashboardTab | CalendarTab | TimerTab | WishlistTab

  datatype Screen =
    | UserRegistrationScreen
    | CompletedBookDetailScreen
    | BookRegistrationScreen(isModal: bool)
    | MainScreen(tab: Tab)

  /** `renderCurrentTab()`: the four known tab ids, the dashboard for anything else. */
  function TabFor(currentTab: string): Tab {
    if currentTab == "calendar" then CalendarTab
    else if currentTab == "timer" then TimerTab
    else if currentTab == "wishlist" then WishlistTab
    else DashboardTab
  }

  /** `AppContent()` */
  function AppContent(s: AppState): Screen {
    if s.user.None? then UserRegistrationScreen
    else if s.selectedCompletedBook.Some? then CompletedBookDetailScreen
    else if s.showAddBookModal then BookRegistrationScreen(true)
    else if |s.currentBooks| == 0 then BookRegistrationScreen(false)
    else MainScreen(TabFor(s.currentTab))
  }

  /**
   * Each screen is shown exactly under its own condition and the failure of
   * every earlier one: no user first, then a selected completed book, then
   * the add-book modal, then an empty book list, then the tabs.
   */
  lemma ScreenPriority(s: AppState)
    ensures AppContent(s) == UserRegistrationScreen <==> s.user.None?
    ensures AppContent(s) == CompletedBookDetailScreen <==> s.user.Some? && s.selectedCompletedBook.Some?
    ensures AppContent(s) == BookRegistrationScreen(true) <==>
              s.user.Some? && s.selectedCompletedBook.None? && s.showAddBookModal
    ensures AppContent(s) == BookRegistrationScreen(false) <==>
              s.user.Some? && s.selectedCompletedBook.None? && !s.showAddBookModal && s.currentBooks == []
    ensures AppContent(s).MainScreen? <==>
              s.user.Some? && s.selectedCompletedBook.None? && !s.showAddBookModal && s.currentBooks != []
  {
  }

  /** The tab ids select their screens; any other id shows the dashboard. */
  lemma TabFallsBackToDashboard(currentTab: string)
    ensures TabFor("dashboard") == DashboardTab && TabFor("calendar") == CalendarTab
    ensures TabFor("timer") == TimerTab && TabFor("wishlist") == WishlistTab
    ensures currentTab !in {"calendar", "timer", "wishlist"} ==> TabFor(currentTab) == DashboardTab
  {
  }

  /**
   * Registering a book from the modal (or from the first-book screen) leads
   * to the tabs, on the tab the reader was on.
   */
  lemma RegistrationOpensTabs(s: AppState, f: BookRegistration.BookForm, isModal: bool, id: Id, now: Timestamp)
    requires s.user.Some? && s.selectedCompletedBook.None?
    requires isModal || !s.showAddBookModal
    requires !JsText.IsBlank(f.title)
    ensures AppContent(BookRegistration.AfterRegistration(s, f, isModal, id, now)) == MainScreen(TabFor(s.currentTab))
  {
    BookRegistration.RegistrationAddsBook(s, f, isModal, id, now);
  }

  /** Completing the last current book (outside any modal) leads back to the first-book screen. */
  lemma CompletingLastBookAsksForAnother(s: AppState, review: Option<string>, now: Timestamp)
    requires s.user.Some? && s.selectedCompletedBook.None? && !s.showAddBookModal
    requires |s.currentBooks| == 1
    ensures AppContent(Reduce(s, CompleteBook(s.currentBooks[0].id, review, now))) == BookRegistrationScreen(false)
  {
    var id := s.currentBooks[0].id;
    assert UniqueIds(s.currentBooks);
    CompleteMovesBook(s, id, review, now);
  }

  /** Leaving the completed-book page returns to the screen the rest of the state calls for. */
  lemma BackFromDetail(s: AppState)
    requires s.user.Some?
    ensures AppContent(Reduce(s, SetSelectedCompletedBook(None)))
            == AppContent(s.(selectedCompletedBook := None))
    ensures AppContent(Reduce(s, SetSelectedCompletedBook(None))) != CompletedBookDetailScreen
  {
  }
}
