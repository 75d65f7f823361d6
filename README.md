# yomu: a model of the reading tracker's client core

yomu (読む) is a reading tracker. A signed-in reader can:
- register the books they are reading and record progress (pages read and a note);
- time reading sessions with a countdown or a stopwatch;
- see their progress on a dashboard and a monthly calendar;
- finish a book with a final review and browse finished books as a timeline of notes;
- keep a wishlist of books to read later;
- browse video recommendations.

This Dafny project models the client's state and logic:
- The application store: `appReducer`, `getSelectedBook` and `getAllReadingHistory`.
- The authentication reducer, with the state outcomes of `signup`, `login`, `verifyToken` and `logout`.
- The screen chosen by `App`.
- The handlers and derived figures of each screen: book registration, reading progress, timer, dashboard, calendar, wishlist, review and completed-book timelines, and video cards.

The model is organised as follows:
- The pure parts (the reducers, the derived figures, the formatting functions) are Dafny functions. Lemmas state what they guarantee.
- The store is a class `Store` whose `Dispatch` replaces the state by the reducer's result.
- Each screen with local state is a class with that state as fields. Its handlers are methods that change those fields and the store. Their `ensures` state the new state in terms of the reducer.

JavaScript semantics are written out where the code relies on them:
- falsy `''`, `0` and `null` in `||` and `!x`;
- `Math.round`;
- `%`, which truncates toward zero;
- `parseInt`, with `NaN` as `None`;
- `String.prototype.trim`;
- `padStart`;
- `Array.prototype.sort`, which is stable.

Ids (`Date.now()`), the current time, server responses and the reader's confirmation are parameters.

The modules are:
- `Optional`, `Lists`, `Sorting`, `JsText` and `JsMath`: the language helpers.
- `Domain`: the entities.
- `AppReducer`: the store.
- `History`: the merged reading history.
- `Auth`: authentication.
- `AppRouting`: the screen choice.
- `Timeline`: the note timeline shared by the two review screens.
- One module per screen.

## Model

The reducers and view functions (`AppReducer.Reduce`, `Auth.AuthReduce`, `AppRouting.AppContent`, `Timer.FormatTime`, `Video.FormatDuration`, `Calendar.GetReadingDataForDate`, `ReadingProgress.GetCurrentPages`, `BookRegistration.IsFirstBook` and the like) carry no contract of their own. Their behaviour is specified by the rows citing the same lines:
- `Reduce`: the `AppReducer` lemmas, one per action.
- `AuthReduce`: the `Auth` lemmas.
- `AppContent`: `AppRouting.ScreenPriority` and the routing lemmas after it.
- `FormatTime`: `Timer.FormatTimeReadsBack`.
- `FormatDuration`: the `Video` lemmas.
- `GetReadingDataForDate`: `Calendar.NoRecordsDay` to `Calendar.DayPercentInRange`.
- `GetCurrentPages`: `ReadingProgress.RecordSetsCurrentPages`.
- `IsFirstBook`: `BookRegistration.RegistrationAddsBook`.

| member | source | states |
|---|---|---|
| `AppReducer.GetSelectedBook` | src/contexts/AppContext.jsx:239-241 | No book when nothing is selected or no current book has the selected id. Otherwise a current book carrying the selected id. |
| `AppReducer.AddBookAppends` | src/contexts/AppContext.jsx:49-64 | ADD_BOOK appends exactly one book. The book has the given id, the normalised fields, page 0, an empty history and no completion. It becomes the selected book. Nothing else changes. |
| `AppReducer.UpdateBookOnlyMatching` | src/contexts/AppContext.jsx:66-74 | UPDATE_BOOK overwrites only the patched fields, and only of books with the id. Id, history, start and completion are kept. Other books and the rest of the state are unchanged. |
| `AppReducer.AddRecordOnlyMatching` | src/contexts/AppContext.jsx:89-110 | ADD_READING_RECORD appends one record to each book with the id, keeping the earlier records. It sets that book's current page to the recorded page. Nothing else changes. |
| `AppReducer.RemoveBookFilters` | src/contexts/AppContext.jsx:76-84 | REMOVE_BOOK drops exactly the books with the id and keeps the others in order. If the removed book was selected, the selection moves to the first remaining book, or to null when none remains. |
| `AppReducer.CompleteMissingIsNoOp` | src/contexts/AppContext.jsx:112-133 | COMPLETE_BOOK for an id that no current book has leaves the state unchanged. |
| `AppReducer.CompleteMovesBook` | src/contexts/AppContext.jsx:112-133 | COMPLETE_BOOK moves the first book with the id to the end of the completed books, stamped with the completion time and the review. The current books lose it, and the selection follows the REMOVE_BOOK rule. |
| `AppReducer.CompleteKeepsCount` | src/contexts/AppContext.jsx:112-133 | With unique ids, completing a current book moves exactly one book, so the number of current plus completed books is kept. |
| `AppReducer.StartTimerSets` | src/contexts/AppContext.jsx:138-146 | START_TIMER runs the timer with the given mode and duration. A countdown starts at its duration and a stopwatch at 0. Nothing else changes. |
| `AppReducer.StopTimerResets` | src/contexts/AppContext.jsx:147-155 | STOP_TIMER stops the timer and clears the mode, duration and seconds. Nothing else changes. |
| `AppReducer.UpdateTimerOnlySeconds` | src/contexts/AppContext.jsx:156-157 | UPDATE_TIMER sets the seconds and nothing else. |
| `AppReducer.ModalFlagOnly` | src/contexts/AppContext.jsx:192-193 | SET_SHOW_ADD_BOOK_MODAL sets the modal flag and nothing else. |
| `AppReducer.AddToWishlistAppends` | src/contexts/AppContext.jsx:159-171 | ADD_TO_WISHLIST appends one open item with the id and time. Missing details or link become ''. Nothing else changes. |
| `AppReducer.UpdateWishOnlyMatching` | src/contexts/AppContext.jsx:173-181 | UPDATE_WISHLIST_ITEM patches only items with the id. It keeps their id and creation time. Their flag, title, details and link take the patched value where the patch has one and keep the old value otherwise. Nothing else changes. |
| `AppReducer.RemoveWishFilters` | src/contexts/AppContext.jsx:183-187 | REMOVE_FROM_WISHLIST keeps, in order, exactly the items without the id (the order-preserving filter). No item with the id remains, every other item is kept, and nothing else changes. |
| `AppReducer.LoadLegacyMigrates` | src/contexts/AppContext.jsx:195-216 | A snapshot with only the legacy single book loads it, with its legacy history, as the only current book, and selects it. |
| `AppReducer.LoadDataDefaults` | src/contexts/AppContext.jsx:195-216 | LOAD_DATA gives every field the snapshot's value when the snapshot has that key, and keeps the state's value otherwise. This covers the user, the completed books, the wishlist, the tab, the four timer fields, the selected completed book and the modal flag, so a reload restores a running timer and an open modal. Without books the list is empty. Without a truthy selected id, a non-empty loaded list selects its first book. Otherwise the selection is the snapshot's when it has the key (a saved null after finishing every book stays null), and the state's when it does not. |
| `AppReducer.ReselectValid` | src/contexts/AppContext.jsx:76-84 | The selection chosen after a removal is null or the id of a remaining book. |
| `AppReducer.SelectionStaysValid` | src/contexts/AppContext.jsx:44-221 | Every action except SELECT_BOOK and LOAD_DATA keeps the selection null or pointing at a current book. |
| `AppReducer.ValidSelectionFindsBook` | src/contexts/AppContext.jsx:239-241 | With a valid selection, `getSelectedBook` finds the book with the selected id. |
| `AppReducer.FilterUnique` | src/contexts/AppContext.jsx:76-84 | Filtering a list of books with distinct ids keeps the ids distinct. |
| `AppReducer.IdsStayUnique` | src/contexts/AppContext.jsx:44-221 | With fresh ids for new books, no action except LOAD_DATA creates two current books with the same id. |
| `AppReducer.Store.constructor` | src/contexts/AppContext.jsx:7-20 | The store starts in the initial state. |
| `AppReducer.Store.Dispatch` | src/contexts/AppContext.jsx:224 | A dispatch replaces the state by the reducer's result. |
| `History.AllReadingHistory` | src/contexts/AppContext.jsx:243-272 | The merged history is in ascending date order and is a permutation of the current books' tagged records followed by the completed books'. |
| `History.PushTagged` | src/contexts/AppContext.jsx:248-268 | Each `forEach` block appends the tagged records of its books, book after book. |
| `History.GetAllReadingHistory` | src/contexts/AppContext.jsx:243-272 | The loop-and-sort computes exactly the sorted merged history. |
| `History.TagAllCount` | src/contexts/AppContext.jsx:246-268 | There is one tagged entry per record. |
| `History.TagAllContains` | src/contexts/AppContext.jsx:246-268 | Every record of every book is among the tagged entries, tagged with its book. |
| `History.TagAllSource` | src/contexts/AppContext.jsx:246-268 | Every tagged entry comes from a record of one of the books and carries the given flag. |
| `History.HistoryCount` | src/contexts/AppContext.jsx:243-272 | The history has exactly as many entries as there are records over current and completed books. |
| `History.HistoryContains` | src/contexts/AppContext.jsx:243-272 | Every record of a current book is in the history tagged not completed. Every record of a completed book is there tagged completed. |
| `History.MergedSource` | src/contexts/AppContext.jsx:248-268 | Before sorting, every entry is a tagged record of a current book (tagged not completed) or of a completed book (tagged completed). |
| `History.HistorySource` | src/contexts/AppContext.jsx:243-272 | Conversely, an entry tagged not completed comes from a current book and one tagged completed from a completed book. |
| `History.AddedRecordAppears` | src/contexts/AppContext.jsx:89-110 | A record added to a current book appears in the history afterwards. |
| `Sorting.SortIsStable` | src/contexts/AppContext.jsx:271 | Sorting by date is stable: entries with equal dates keep their relative order. |
| `Auth.SetLoadingKeepsSession` | src/contexts/AuthContext.jsx:14-15 | SET_LOADING sets the flag and clears the error, keeping user and token. |
| `Auth.SetUserSignsIn` | src/contexts/AuthContext.jsx:16-23 | SET_USER yields exactly the signed-in state: that user, that token, not loading, no error. |
| `Auth.SetErrorKeepsSession` | src/contexts/AuthContext.jsx:24-25 | SET_ERROR records the message and ends loading, keeping the session. |
| `Auth.LogoutKeepsLoading` | src/contexts/AuthContext.jsx:26-29 | LOGOUT clears user, token and error but keeps the loading flag. An unknown action changes nothing. |
| `Auth.OnlySetUserSignsIn` | src/contexts/AuthContext.jsx:12-31 | From a signed-out state, only SET_USER can sign in, and it signs in the user it carries. |
| `Auth.AuthProvider.constructor` | src/contexts/AuthContext.jsx:5-10 | The provider starts in the initial state, with whatever token storage holds. |
| `Auth.AuthProvider.Signup` | src/contexts/AuthContext.jsx:71-98 | Succeeds exactly when the server returns a token. Success stores the token and signs in the submitted name and email. Failure leaves storage alone, ends loading and records the server's message or the fixed fallback. |
| `Auth.AuthProvider.Logout` | src/contexts/AuthContext.jsx:140-143 | The stored token is removed and LOGOUT is applied. |
| `Auth.ErrorOr` | src/contexts/AuthContext.jsx:86 | The error shown is the server's message when that is truthy, else the fallback. It is never empty when the fallback is not. |
| `Auth.AuthProvider.Login` | src/contexts/AuthContext.jsx:100-138 | A login succeeds exactly when accepted. A rejection ends loading with the server's message or the login fallback and leaves storage alone. An accepted login stores the token. When `/api/me` answers, its user is signed in; when it does not, nothing is dispatched, so the state stays loading with no user and no error. |
| `Auth.AuthProvider.VerifyToken` | src/contexts/AuthContext.jsx:47-69 | A valid stored token signs in the user `/api/me` returns, with no loading step first. A refused token is removed from storage, and the state stays as it was. |
| `AppRouting.ScreenPriority` | src/App.jsx:12-59 | The screen is the user registration exactly when there is no user. It is the completed-book detail exactly when a completed book is open. It is book registration (modal or first book) or the tabbed main screen exactly under the source's conditions, checked in that order. |
| `AppRouting.TabFallsBackToDashboard` | src/App.jsx:36-48 | The four tab names open their tabs, and any other tab name shows the dashboard. |
| `AppRouting.RegistrationOpensTabs` | src/App.jsx:26-48 | After a book is registered, the main screen shows the current tab. |
| `AppRouting.CompletingLastBookAsksForAnother` | src/App.jsx:31-33 | Completing the only current book leads to the book-registration screen. |
| `AppRouting.BackFromDetail` | src/App.jsx:21-23 | Closing the completed-book detail leaves that screen. |
| `BookRegistration.BuildBook` | src/components/BookRegistration.jsx:33-38 | The new book has the trimmed title. The author is the trimmed author, or null when that is empty. The page count is `parseInt` of the field when the field is non-empty (None for NaN), and null when it is empty. The target date is the field, or null when empty. |
| `BookRegistration.PagesFieldParses` | src/components/BookRegistration.jsx:36 | A page count typed as a numeral is stored as that number. |
| `BookRegistration.AddedBookIsClean` | src/components/BookRegistration.jsx:24-38 | A non-blank form adds one book whose title is non-empty and trimmed, and whose author is absent or non-empty and trimmed. |
| `BookRegistration.RegistrationAddsBook` | src/components/BookRegistration.jsx:24-57 | A registration appends one clean, empty, selected book and keeps the earlier books. It closes the modal only in modal mode and changes no other field of the state. After a first book it is the only one. |
| `BookRegistration.RegistrationForm.constructor` | src/components/BookRegistration.jsx:8-13 | The form starts empty and not submitting. |
| `BookRegistration.RegistrationForm.SetFields` | src/components/BookRegistration.jsx:15-22 | Typing replaces the fields. |
| `BookRegistration.RegistrationForm.HandleSubmit` | src/components/BookRegistration.jsx:24-48 | A blank title changes nothing. Otherwise the store is the registration's result and submission has ended. |
| `BookRegistration.RegistrationForm.HandleCancel` | src/components/BookRegistration.jsx:50-54 | Cancel closes the modal in modal mode and does nothing otherwise. |
| `ReadingProgress.CalculatePercentage` | src/components/ReadingProgress.jsx:24-27 | The percentage never exceeds 100. It is 0 without a truthy page count or for a non-positive page. |
| `ReadingProgress.CalculatePercentageRange` | src/components/ReadingProgress.jsx:24-27 | For a positive page count the percentage is in [0, 100]. It is 100 exactly from 99.5% of the pages on. |
| `ReadingProgress.FullNeedsPages` | src/components/ReadingProgress.jsx:24-27 | Reaching 100% needs a truthy page count and a positive page. |
| `ReadingProgress.SuggestedPages` | src/components/ReadingProgress.jsx:82 | The suggested page is at least 1 and beyond the current page. |
| `ReadingProgress.RecordSetsCurrentPages` | src/components/ReadingProgress.jsx:29-33 | After a record, the book's current page and the form's current page are the recorded page. |
| `ReadingProgress.SubmittedRecord` | src/components/ReadingProgress.jsx:46-54 | The record carries the entered pages, the trimmed notes and the percentage `calculatePercentage` gives for the book and the pages. A positive percentage implies the book has a page count. |
| `ReadingProgress.ProgressForm.constructor` | src/components/ReadingProgress.jsx:9-14 | The form starts empty, not submitting, without the review screen. |
| `ReadingProgress.ProgressForm.HandleSubmit` | src/components/ReadingProgress.jsx:35-63 | A non-positive parsed page changes nothing. Otherwise the record is added. At 100% the review screen opens and submission stays pending. Below 100% the form completes. |
| `ReadingProgress.ProgressForm.HandleBookCompletion` | src/components/ReadingProgress.jsx:65-69 | Completes the book with the review, ends submission and calls the completion callback once. |
| `Timeline.NotedRecords` | src/components/CompletedBookDetail.jsx:21-30 | The timeline shows exactly the records with non-blank notes (as a multiset), in date order. |
| `Timeline.TimelineNodes` | src/components/CompletedBookDetail.jsx:21-30 | One node per noted record, numbered 0 to n-1, none editable or final. |
| `Timeline.NodesShowNotedRecords` | src/components/ReviewVisualization.jsx:12-21 | Every node shows a non-blank note taken from some record of the book. |
| `Timeline.NotedRecordsHaveNodes` | src/components/ReviewVisualization.jsx:12-21 | Every record with a note has a node. |
| `Timeline.NodesInDateOrder` | src/components/CompletedBookDetail.jsx:21-30 | Nodes appear in non-decreasing date order. |
| `Timeline.NavigateBounded` | src/components/CompletedBookDetail.jsx:86-91 | The index stays in range. It moves exactly when the target is in range, and the reverse move comes back. |
| `Timeline.ReviewText` | src/components/CompletedBookDetail.jsx:55 | The exported review is never empty. It is the review when that is truthy, else the placeholder. |
| `Timeline.ExportLayout` | src/components/CompletedBookDetail.jsx:44-58 | The export starts with the title line. An `=` rule follows, two longer than it. Then one block per node in order, the review heading with the review or placeholder, and the generation time last. |
| `CompletedBookDetail.DetailNodesShape` | src/components/CompletedBookDetail.jsx:33-42 | The detail's nodes are the note nodes plus one final node at 100%. The final node is dated at completion and shows the final review or ''. |
| `CompletedBookDetail.CompletedReviewShown` | src/contexts/AppContext.jsx:112-133 | A book completed with a review shows that review in its final node, dated at the completion. |
| `CompletedBookDetail.DetailView.constructor` | src/components/CompletedBookDetail.jsx:9 | The detail opens at the first node. |
| `CompletedBookDetail.DetailView.NavigateNode` | src/components/CompletedBookDetail.jsx:86-91 | Moves the current node by the navigation rule and keeps it in range. |
| `CompletedBookDetail.DetailView.JumpToNode` | src/components/CompletedBookDetail.jsx:71-83 | Clicking a node makes it the current node, which stays a node of the timeline. |
| `CompletedBookDetail.DetailView.HandleBack` | src/components/CompletedBookDetail.jsx:16-18 | Closes the detail. Nothing else in the store changes. |
| `ReviewVisualization.ReviewScreen.constructor` | src/components/ReviewVisualization.jsx:6-8 | The review screen starts with an empty review, not editing, at node 0. |
| `ReviewVisualization.ReviewScreen.ReviewNodesShape` | src/components/ReviewVisualization.jsx:24-33 | The nodes are the note nodes plus an editable final node at 100% holding the review being written. |
| `ReviewVisualization.ReviewScreen.EditReview` | src/components/ReviewVisualization.jsx:156-158 | The review is the typed text. The add-review button shows exactly when the text is empty and editing is off. |
| `ReviewVisualization.ReviewScreen.ToggleEditing` | src/components/ReviewVisualization.jsx:156-158 | Editing flips and the review is kept. |
| `ReviewVisualization.ReviewScreen.StartReview` | src/components/ReviewVisualization.jsx:133-189 | Starting the review turns editing on, so the add-review button disappears. The click is not stopped, so it reaches the enclosing final node's handler (line 136), which makes the final node current. The review text is kept. |
| `ReviewVisualization.ReviewScreen.NavigateNode` | src/components/ReviewVisualization.jsx:82-87 | Moves the current node by the navigation rule. The review and the editing flag are kept. |
| `ReviewVisualization.ReviewScreen.JumpToNode` | src/components/ReviewVisualization.jsx:67-79 | Clicking a node makes it the current node. The review and the editing flag are kept. |
| `ReviewVisualization.ReviewScreen.HandleSave` | src/components/ReviewVisualization.jsx:35-37 | Saving completes the book with the written review through the progress form. |
| `ReviewVisualization.SavedReviewCompletes` | src/components/ReadingProgress.jsx:65-78 | After the save, the book is the last completed book, carries the review and the completion time, and is no longer current. |
| `Timer.JsRem` | src/components/Timer.jsx:64 | The remainder takes the sign of the dividend, as JavaScript's `%` does. |
| `Timer.FormatTimeReadsBack` | src/components/Timer.jsx:62-66 | For a non-negative count the clock reads back. The seconds part is two digits and the minutes part at least two. Parsing them gives minutes and seconds that add up to the count. |
| `Timer.OptionsArePositive` | src/components/Timer.jsx:18-34 | Every countdown offered lasts between 5 and 180 minutes. |
| `Timer.TimerScreen.constructor` | src/components/Timer.jsx:10-13 | No duration, dialog, form or book is chosen at first. |
| `Timer.TimerScreen.Tick` | src/components/Timer.jsx:37-59 | A running countdown above 0 loses one second. At 0 it stops and shows the end options. A stopwatch gains one second. |
| `Timer.TimerScreen.StartTimer` | src/components/Timer.jsx:69-85 | Nothing happens without a duration. Otherwise the book defaults to the selected or first book. "No timer" opens the record form, the stopwatch starts at 0, and n minutes start an n*60-second countdown. |
| `Timer.TimerScreen.ToggleTimer` | src/components/Timer.jsx:88-98 | A running timer stops. A stopped timer with a mode resumes in that mode. Without a mode nothing happens. |
| `Timer.TimerScreen.ResetTimer` | src/components/Timer.jsx:101-106 | Stops the timer and clears the duration, the end options and the book. |
| `Timer.TimerScreen.HandleEndOption` | src/components/Timer.jsx:109-128 | Hides the end options. "More" and "finish" open the record form and "reset" resets. |
| `Timer.TimerScreen.HandleProgressComplete` | src/components/Timer.jsx:131-134 | Closes the record form and resets the timer. |
| `Timer.TimerScreen.HandleBookSelect` | src/components/Timer.jsx:137-141 | Reads the book with that id and selects it in the store. |
| `Timer.PauseThenToggleIsNoOp` | src/components/Timer.jsx:88-98 | After STOP_TIMER the timer is stopped and has no mode. By `Timer.TimerScreen.ToggleTimer`'s contract, that is the case in which a toggle leaves the store unchanged. |
| `Timer.CountdownTicks` | src/components/Timer.jsx:37-59 | A countdown of n minutes reaches 0 after exactly n*60 ticks, never going negative. |
| `Timer.CountdownAfterSeconds` | src/components/Timer.jsx:42-46 | k ticks lower the seconds by k and change nothing else. |
| `Dashboard.BookProgress` | src/components/Dashboard.jsx:207-213 | A card's progress is at most 100. It is 0 without a truthy page count or without records. |
| `Dashboard.TotalProgress` | src/components/Dashboard.jsx:15-19 | The progress is at most 100, and 0 without a selected book. |
| `Dashboard.TotalProgressInRange` | src/components/Dashboard.jsx:15-19 | With a positive page count the progress lies in [0, 100]. |
| `Dashboard.TodayProgress` | src/components/Dashboard.jsx:21-27 | 0 when nothing is dated today. Otherwise the percentage of the first entry dated today. |
| `Dashboard.FirstOfDayIsEarliest` | src/components/Dashboard.jsx:21-27 | In a date-sorted history, the entry `find` returns for a day is dated no later than any other entry of that day. |
| `Dashboard.TodayIsEarliest` | src/components/Dashboard.jsx:21-27 | On the sorted history, today's figure is that of the earliest record of the day. |
| `Dashboard.GetReadingStreak` | src/components/Dashboard.jsx:29-52 | The loop computes the streak: 0 without history, otherwise the run of consecutive read days. |
| `Dashboard.RunFromBound` | src/components/Dashboard.jsx:35 | The run never goes past the 30-day horizon. |
| `Dashboard.RunFromMeans` | src/components/Dashboard.jsx:35-48 | The run counts consecutive read days and stops at the first unread day or at the horizon. |
| `Dashboard.StreakBounds` | src/components/Dashboard.jsx:29-52 | The streak is at most 30 and 0 without history. An unread today does not break the run of the days before it. |
| `Dashboard.OtherBookCards` | src/components/Dashboard.jsx:204-213 | There are no other-book cards with one current book or none. |
| `Dashboard.OtherBooksExceptSelected` | src/components/Dashboard.jsx:204-213 | The cards cover exactly the current books other than the selected one, each with its capped progress. They come in the order of the current books: card i shows the i-th book of the order-preserving filter on the selected id. |
| `Dashboard.CompletedShownNewestFirst` | src/components/Dashboard.jsx:282 | At most six completed books are shown, the most recently completed first. |
| `Dashboard.JustCompletedShownFirst` | src/components/Dashboard.jsx:282 | A book completed just now heads the list, dated at the completion. |
| `Dashboard.RecentActivityLatestFirst` | src/components/Dashboard.jsx:317 | At most three entries are listed, the latest first. |
| `Calendar.NoRecordsDay` | src/components/Calendar.jsx:69-71 | A day without records shows no reading. A day with records shows reading. |
| `Calendar.DayRecords` | src/components/Calendar.jsx:61-95 | A day's data lists the day's records. |
| `Calendar.CompletedOverrides` | src/components/Calendar.jsx:74-93 | A day is completed exactly when a completed book's record falls on it, and then shows 100%. |
| `Calendar.HighestPercentage` | src/components/Calendar.jsx:77-83 | Without completions a day shows the highest of its records' percentages, one of them. |
| `Calendar.CompletedEntries` | src/components/Calendar.jsx:88-91 | The completed-book list has one reference per completed-book record of the day, in order. |
| `Calendar.DayPercentInRange` | src/components/Calendar.jsx:61-95 | With percentages in [0, 100], a day's percentage is in [0, 100]. |
| `Calendar.GenerateCalendarDays` | src/components/Calendar.jsx:18-58 | The grid is whole weeks covering the month. Cell k is the day weekday places there. Exactly the month's days are current. Every cell carries its day's data. |
| `Calendar.MonthCellCount` | src/components/Calendar.jsx:18-58 | The grid has exactly as many current-month cells as the month has days. |
| `Calendar.SumPercentageBounds` | src/components/Calendar.jsx:126-140 | The month's summed percentage lies between 0 and 100 per cell. |
| `Calendar.MonthAverageInRange` | src/components/Calendar.jsx:126-140 | The monthly average is in [0, 100], and 0 without reading days. |
| `JsMath.RoundMeanInRange` | src/components/Calendar.jsx:126-140 | The rounded mean of values in [0, hi] lies in [0, hi]. |
| `Calendar.CompletionsAtMostReadingDays` | src/components/Calendar.jsx:126-140 | There are never more completion days than reading days. |
| `Calendar.DayClick` | src/components/Calendar.jsx:111-116 | A click opens a completed book exactly when the day lists a single completed book and that book is found. |
| `BookList.SubmitAddsTrimmed` | src/components/BookList.jsx:35-56 | A submit without editing appends one open item with the trimmed fields and leaves the books alone. |
| `BookList.SubmitEditsTrimmed` | src/components/BookList.jsx:35-56 | A submit while editing rewrites only the edited item's three fields with the trimmed values. Its flag, id and creation time stay, and so do the other items. |
| `BookList.ToggleFlips` | src/components/BookList.jsx:68-75 | Toggling flips exactly the item's completion flag and nothing else. An unknown id changes nothing. |
| `BookList.PendingDonePartition` | src/components/BookList.jsx:83-84 | The pending and done lists split the wishlist: each item is in the list its flag says, and every item appears exactly once. |
| `BookList.NewItemListedLast` | src/components/BookList.jsx:83-84 | An open item appended to the wishlist is listed last among the pending ones, and the done list is unchanged. |
| `BookList.WishlistForm.constructor` | src/components/BookList.jsx:9-15 | The form starts empty and closed, editing nothing. |
| `BookList.WishlistForm.ResetForm` | src/components/BookList.jsx:25-33 | Clears the fields, closes the form and ends editing. |
| `BookList.WishlistForm.HandleSubmit` | src/components/BookList.jsx:35-56 | A blank title changes nothing. Otherwise the submit action is applied and the form is reset. |
| `BookList.WishlistForm.StartEdit` | src/components/BookList.jsx:58-66 | The form holds the item's fields, opens, and edits that item. |
| `BookList.WishlistForm.ToggleComplete` | src/components/BookList.jsx:68-75 | The store is the toggled state. |
| `BookList.WishlistForm.DeleteItem` | src/components/BookList.jsx:77-81 | The item is removed only when the reader confirms. |
| `Video.FindDesignator` | src/components/VideoRecommendations.jsx:105 | Finds the first `PT` of the text, or reports that there is none. |
| `Video.DurationRoundTrip` | src/components/VideoRecommendations.jsx:105-110 | Parsing an ISO 8601 duration written from hours, minutes and seconds gives them back. |
| `Video.NoDurationShowsZero` | src/components/VideoRecommendations.jsx:100-106 | An empty duration, or one without `PT`, shows `0:00`. |
| `Video.HoursFieldsReadBack` | src/components/VideoRecommendations.jsx:112-113 | With hours, the display is H:MM:SS whose fields parse back to the parts. |
| `Video.MinutesFieldsReadBack` | src/components/VideoRecommendations.jsx:115 | Without hours, the display is M:SS whose fields parse back to the parts. |
| `Video.ClockFieldsHaveNoColon` | src/components/VideoRecommendations.jsx:108-115 | No field contains the separator, so the display splits back into its fields. |
| `Video.PadShort` | src/components/VideoRecommendations.jsx:113 | A padded field is digits, exactly two of them below 100. |
| `Video.FormatDurationOfText` | src/components/VideoRecommendations.jsx:100-116 | A well-formed duration displays as its clock fields joined by colons. |
| `Video.ShapeVideosDefaults` | src/components/VideoRecommendations.jsx:42-53 | No video list gives no cards. Otherwise each video gives one card, in order, with its id and its watch URL. Each text field is the snippet's value when that is truthy. Otherwise it is its default: 'タイトルなし', 'チャンネル名なし' or ''. Each count is the statistic when present, else 0. |
| `Video.MissingDurationShowsZero` | src/components/VideoRecommendations.jsx:51 | A video without a duration displays `0:00`. |
| `JsText.TrimIdempotent` | src/components/BookRegistration.jsx:34 | Trimming a trimmed text changes nothing. |
| `JsText.ParseIntToString` | src/components/ReadingProgress.jsx:38 | `parseInt` of a number's decimal text gives the number back. |
| `JsMath.PercentFullIff` | src/components/ReadingProgress.jsx:26 | The rounded percentage is at least 100 exactly when the pages are at least 99.5% of the total. |

## Left out

- Server (`server/index.js`), network calls and local storage: responses are parameters, and storage is a field or out of the model. A request that throws (a network failure or a body that is not JSON) is not modelled. Its error text comes from the runtime. This covers `login`'s and `verifyToken`'s `catch` paths for such failures.
- Time zones and daylight saving: times are integer milliseconds and a day is `t / 86400000`. Locale date formatting is outside the model; export dates are passed in as text.
- Floating point: `Math.round(p / t * 100)` is computed on exact rationals. Results at float rounding boundaries and numbers beyond 2^53 are not modelled.
- String lengths count code points, not UTF-16 units. This affects the width of the `=` rule in the export.
- `setInterval` scheduling, `setTimeout` delays, scrolling, Blob downloads, SVG layout and colours are left out. A tick is one method call.
- `formatViewCount` and the video counts' text formatting: counts are taken as numbers or absent.
- `window.confirm` is a boolean parameter of `DeleteItem`.
- `AppReducer.UpdateBookOnlyMatching`: a patch can touch only the book's editable fields. The model cannot express a patch that overwrites other keys, as a JavaScript spread could.
- `AppReducer.LoadDataDefaults`: legacy keys left in storage are not modelled beyond the migration.
- `AppReducer.IdsStayUnique`: requires fresh ids for ADD_BOOK, which `Date.now()` gives in practice but the source does not check.
- `ReadingProgress.CalculatePercentageRange`: requires a positive page count. For negative page counts the source's percentage can be negative, and the lemma says nothing about it.
- `BookList.ToggleFlips`: requires distinct wishlist ids. With duplicates the source flips every item with the id to the negation of the first one's flag.
- `BookList.WishlistForm.StartEdit`: `item.details || ''` is the identity here, since stored details are always strings.
- `Timer.PauseThenToggleIsNoOp`: a lemma cannot call the `toggleTimer` method. It therefore states the state after a pause (stopped, no mode), and the no-op follows from `Timer.TimerScreen.ToggleTimer`'s contract for that state. There is no single statement of the whole two-step sequence.
- The authentication screen, the user registration form's validation and the tab bar's markup are screens without logic beyond the reducers above, and are not part of this model.
