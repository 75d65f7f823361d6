/**
 * The reading timer screen: the clock text, the one-second tick, and the
 * start, pause/resume, reset and end-of-countdown handlers. The running flag,
 * mode, duration and seconds live in the application store; the chosen
 * duration, the two screen flags and the book being read are the screen's own
 * state.
 */
module Timer {
  import opened Optional
  import opened Domain
  import opened JsText
  import opened AppReducer

  // ------------------------------------------------------------ formatTime

  /** JavaScript `a % b` for b > 0: the remainder takes the sign of a. */
  function JsRem(a: int, b: int): (r: int)
    requires b > 0
    ensures a >= 0 ==> 0 <= r < b && r == a % b
    ensures a < 0 ==> -b < r <= 0 && r == -((-a) % b)
  {
    if a >= 0 then a % b else -((-a) % b)
  }

  /** `Math.floor(seconds / 60).toString().padStart(2, '0')` */
  function MinutesText(seconds: int): string {
    PadStart(IntToString(seconds / 60), 2, '0')
  }

  /** `(seconds % 60).toString().padStart(2, '0')` */
  function SecondsText(seconds: int): string {
    PadStart(IntToString(JsRem(seconds, 60)), 2, '0')
  }

  /** `formatTime(seconds)`: minutes and seconds, each padded to two characters, around a colon. */
  function FormatTime(seconds: int): string {
    MinutesText(seconds) + ":" + SecondsText(seconds)
  }

  lemma NatToStringShort(n: nat)
    requires n < 100
    ensures |NatToString(n)| <= 2
  {
    if n >= 10 {
      assert NatToString(n / 10) == [DigitChar(n / 10)];
    }
  }

  /**
   * For a non-negative count the clock reads back: the seconds part is
   * exactly two characters, the minutes part at least two (it may run past
   * two digits), and parsing the parts gives back the minutes and seconds
   * that make up the count.
   */
  lemma FormatTimeReadsBack(seconds: nat)
    ensures |SecondsText(seconds)| == 2 && |MinutesText(seconds)| >= 2
    ensures ParseInt(MinutesText(seconds)) == Some(seconds / 60)
    ensures ParseInt(SecondsText(seconds)) == Some(seconds % 60)
    ensures 60 * (seconds / 60) + seconds % 60 == seconds
  {
    var q, r := seconds / 60, seconds % 60;
    assert IntToString(q) == NatToString(q);
    assert JsRem(seconds, 60) == r;
    assert IntToString(r) == NatToString(r);
    NatToStringShort(r);
    ParsePadded(q);
    ParsePadded(r);
  }

  // ---------------------------------------------------------------- choices

  /** A timer option: a countdown of some minutes, the stopwatch, or no timer. */
  datatype Duration = Minutes(minutes: int) | StopwatchChoice | NoTimer

  /** The options offered on the timer screen, in order. */
  const TimerOptions: seq<Duration> := [
    Minutes(5), Minutes(10), Minutes(15), Minutes(20), Minutes(25), Minutes(30),
    Minutes(45), Minutes(60), Minutes(75), Minutes(90), Minutes(120), Minutes(150),
    Minutes(180), StopwatchChoice, NoTimer]

  /** Every countdown offered lasts between 5 and 180 minutes. */
  lemma OptionsArePositive()
    ensures forall i :: 0 <= i < |TimerOptions| && TimerOptions[i].Minutes? ==>
              5 <= TimerOptions[i].minutes <= 180
  {
  }

  /** What the end-of-countdown dialog offers. */
  datatype EndOption = More | Reset | Finish | OtherOption

  /** The timer screen's own state, dispatching timer actions into the store. */
  class TimerScreen {
    const store: Store
    var selectedDuration: Option<Duration>
    var showProgressForm: bool
    var showEndOptions: bool
    var selectedBookForReading: Option<Book>

    constructor(store: Store)
      ensures this.store == store
      ensures selectedDuration.None? && !showProgressForm && !showEndOptions && selectedBookForReading.None?
    {
      this.store := store;
      selectedDuration := None;
      showProgressForm := false;
      showEndOptions := false;
      selectedBookForReading := None;
    }

    /**
     * One interval callback, which only runs while the timer runs with a
     * mode: a countdown above 0 goes down by one second, a countdown at 0
     * stops and shows the end options, a stopwatch goes up by one second.
     */
    method Tick()
      modifies this, store
      ensures var s := old(store.state);
        && (!s.isTimerRunning || s.timerMode.None? ==> store.state == s && unchanged(this))
        && (s.isTimerRunning && s.timerMode == Some(Countdown) && s.timerSeconds > 0 ==>
              store.state == Reduce(s, UpdateTimer(s.timerSeconds - 1)) && unchanged(this))
        && (s.isTimerRunning && s.timerMode == Some(Countdown) && s.timerSeconds <= 0 ==>
              store.state == Reduce(s, StopTimer) && showEndOptions
              && showProgressForm == old(showProgressForm) && selectedDuration == old(selectedDuration)
              && selectedBookForReading == old(selectedBookForReading))
        && (s.isTimerRunning && s.timerMode == Some(Stopwatch) ==>
              store.state == Reduce(s, UpdateTimer(s.timerSeconds + 1)) && unchanged(this))
    {
      var s := store.state;
      if s.isTimerRunning && s.timerMode.Some? {
        if s.timerMode == Some(Countdown) {
          if s.timerSeconds > 0 {
            store.Dispatch(UpdateTimer(s.timerSeconds - 1));
          } else {
            showEndOptions := true;
            store.Dispatch(StopTimer);
          }
        } else {
          store.Dispatch(UpdateTimer(s.timerSeconds + 1));
        }
      }
    }

    /**
     * `startTimer()`: nothing without a chosen duration. Otherwise the book
     * to read defaults to the selected book, else the first current book;
     * the stopwatch starts at 0, "no timer" opens the record form, and n
     * minutes start a countdown of n * 60 seconds.
     */
    method StartTimer()
      modifies this, store
      ensures old(selectedDuration).None? ==> unchanged(this) && store.state == old(store.state)
      ensures old(selectedDuration).Some? ==>
        var s := old(store.state);
        && (old(selectedBookForReading).None? ==>
              selectedBookForReading == (if GetSelectedBook(s).Some? then GetSelectedBook(s)
                                         else if |s.currentBooks| > 0 then Some(s.currentBooks[0]) else None))
        && (old(selectedBookForReading).Some? ==> selectedBookForReading == old(selectedBookForReading))
        && (old(selectedDuration) == Some(StopwatchChoice) ==>
              store.state == Reduce(s, AppReducer.StartTimer(Stopwatch, 0)))
        && (old(selectedDuration) == Some(NoTimer) ==> store.state == s && showProgressForm)
        && (old(selectedDuration).value.Minutes? ==>
              store.state == Reduce(s, AppReducer.StartTimer(Countdown, old(selectedDuration).value.minutes * 60)))
      ensures old(selectedDuration).Some? && old(selectedDuration) != Some(NoTimer) ==>
                showProgressForm == old(showProgressForm)
      ensures selectedDuration == old(selectedDuration) && showEndOptions == old(showEndOptions)
    {
      if selectedDuration.None? {
        return;
      }
      var s := store.state;
      if selectedBookForReading.None? {
        var selected := GetSelectedBook(s);
        selectedBookForReading := if selected.Some? then selected
                                  else if |s.currentBooks| > 0 then Some(s.currentBooks[0]) else None;
      }
      match selectedDuration.value
      case StopwatchChoice =>
        store.Dispatch(AppReducer.StartTimer(Stopwatch, 0));
      case NoTimer =>
        showProgressForm := true;
      case Minutes(m) =>
        store.Dispatch(AppReducer.StartTimer(Countdown, m * 60));
    }

    /**
     * `toggleTimer()`: a running timer stops; a stopped one resumes in its
     * mode with the seconds left (a stopwatch restarting at 0 by the
     * reducer's rule), and without a mode nothing happens.
     */
    method ToggleTimer()
      modifies store
      ensures var s := old(store.state);
        && (s.isTimerRunning ==> store.state == Reduce(s, StopTimer))
        && (!s.isTimerRunning && s.timerMode.None? ==> store.state == s)
        && (!s.isTimerRunning && s.timerMode.Some? ==>
              store.state == Reduce(s, AppReducer.StartTimer(s.timerMode.value, s.timerSeconds)))
    {
      var s := store.state;
      if s.isTimerRunning {
        store.Dispatch(StopTimer);
      } else if s.timerMode == Some(Countdown) {
        store.Dispatch(AppReducer.StartTimer(Countdown, s.timerSeconds));
      } else if s.timerMode == Some(Stopwatch) {
        store.Dispatch(AppReducer.StartTimer(Stopwatch, s.timerSeconds));
      }
    }

    /** `resetTimer()`: stops the timer and clears the duration, the end options and the book. */
    method ResetTimer()
      modifies this, store
      ensures store.state == Reduce(old(store.state), StopTimer)
      ensures selectedDuration.None? && !showEndOptions && selectedBookForReading.None?
      ensures showProgressForm == old(showProgressForm)
    {
      store.Dispatch(StopTimer);
      selectedDuration := None;
      showEndOptions := false;
      selectedBookForReading := None;
    }

    /**
     * `handleEndOption(option)`: hides the end options; "more" and "finish"
     * open the record form, "reset" resets the timer, anything else does
     * nothing more.
     */
    method HandleEndOption(option: EndOption)
      modifies this, store
      ensures !showEndOptions
      ensures option == More || option == Finish ==>
                showProgressForm && store.state == old(store.state)
                && selectedDuration == old(selectedDuration)
                && selectedBookForReading == old(selectedBookForReading)
      ensures option == Reset ==>
                store.state == Reduce(old(store.state), StopTimer) && selectedDuration.None?
                && selectedBookForReading.None? && showProgressForm == old(showProgressForm)
      ensures option == OtherOption ==>
                store.state == old(store.state) && showProgressForm == old(showProgressForm)
                && selectedDuration == old(selectedDuration)
                && selectedBookForReading == old(selectedBookForReading)
    {
      showEndOptions := false;
      match option
      case More => showProgressForm := true;
      case Reset => ResetTimer();
      case Finish => showProgressForm := true;
      case OtherOption =>
    }

    /** `handleProgressComplete()`: closes the record form and resets the timer. */
    method HandleProgressComplete()
      modifies this, store
      ensures !showProgressForm && !showEndOptions
      ensures selectedDuration.None? && selectedBookForReading.None?
      ensures store.state == Reduce(old(store.state), StopTimer)
    {
      showProgressForm := false;
      ResetTimer();
    }

    /** `handleBookSelect(bookId)`: reads the book with that id and selects it in the store. */
    method HandleBookSelect(bookId: Id)
      modifies this, store
      ensures selectedBookForReading == Lists.Find(old(store.state).currentBooks, HasId(bookId))
      ensures store.state == Reduce(old(store.state), SelectBook(Some(bookId)))
      ensures selectedDuration == old(selectedDuration) && showProgressForm == old(showProgressForm)
      ensures showEndOptions == old(showEndOptions)
    {
      selectedBookForReading := Lists.Find(store.state.currentBooks, HasId(bookId));
      store.Dispatch(SelectBook(Some(bookId)));
    }
  }

  /**
   * Pausing stops the timer and clears the mode: the state in which
   * `ToggleTimer` dispatches nothing, so the resume branches cannot follow a pause.
   */
  lemma PauseThenToggleIsNoOp(s: AppState)
    ensures var paused := Reduce(s, StopTimer);
      !paused.isTimerRunning && paused.timerMode.None?
  {
  }

  /**
   * A countdown tick keeps the seconds non-negative and lowers them by one;
   * started from n minutes the count reaches 0 after exactly n * 60 ticks.
   */
  lemma CountdownTicks(s: AppState, minutes: nat, k: nat)
    requires k <= minutes * 60
    ensures var started := Reduce(s, AppReducer.StartTimer(Countdown, minutes * 60));
      var ticked := CountdownAfter(started, k);
      ticked.timerSeconds == minutes * 60 - k && ticked.isTimerRunning
  {
    CountdownAfterSeconds(Reduce(s, AppReducer.StartTimer(Countdown, minutes * 60)), k);
  }

  /** The state after k countdown ticks while seconds remain (each an UPDATE_TIMER). */
  function CountdownAfter(s: AppState, k: nat): AppState
    decreases k
  {
    if k == 0 || s.timerSeconds <= 0 then s
    else CountdownAfter(Reduce(s, UpdateTimer(s.timerSeconds - 1)), k - 1)
  }

  lemma {:induction false} CountdownAfterSeconds(s: AppState, k: nat)
    requires k <= s.timerSeconds
    ensures CountdownAfter(s, k).timerSeconds == s.timerSeconds - k
    ensures CountdownAfter(s, k).(timerSeconds := s.timerSeconds) == s
    decreases k
  {
    if k > 0 {
      var next := Reduce(s, UpdateTimer(s.timerSeconds - 1));
      CountdownAfterSeconds(next, k - 1);
    }
  }
}
