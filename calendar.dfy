/**
 * The reading calendar: what one day shows (`getReadingDataForDate`), the
 * month grid (`generateCalendarDays`), the month statistics and the rule for
 * opening a completed book from a day.
 *
 * Days are day numbers (see `Domain.Day`); the weekday of the month's first
 * day (0 = Sunday) and the month's length are inputs.
 */
module Calendar {
  import opened Optional
  import opened Domain
  import opened Lists
  import opened JsMath
  import opened History

  /** `{ id, title }` of a completed book read that day. */
  datatype BookRef = BookRef(id: Id, title: string)

  datatype DayData = DayData(
    hasReading: bool,
    percentage: int,
    completedBooks: seq<BookRef>,
    records: seq<Entry>,
    isCompleted: bool)

  /** What a day without records shows (`isCompleted` is absent, hence falsy). */
  const NoReading: DayData := DayData(false, 0, [], [], false)

  function OnDay(day: int): Entry -> bool {
    (e: Entry) => Day(e.record.date) == day
  }

  function IsCompletedEntry(): Entry -> bool {
    (e: Entry) => e.isCompleted
  }

  function IsCurrentEntry(): Entry -> bool {
    (e: Entry) => !e.isCompleted
  }

  /** `Math.max(...es.map(e => e.record.percentage))` for a non-empty list. */
  function MaxPercentage(es: seq<Entry>): (m: int)
    requires es != []
    ensures forall i :: 0 <= i < |es| ==> es[i].record.percentage <= m
    ensures exists i :: 0 <= i < |es| && es[i].record.percentage == m
  {
    if |es| == 1 then es[0].record.percentage
    else
      var rest := MaxPercentage(es[1..]);
      assert forall i :: 1 <= i < |es| ==> es[i] == es[1..][i - 1];
      if es[0].record.percentage >= rest then es[0].record.percentage else rest
  }

  function Refs(es: seq<Entry>): (r: seq<BookRef>)
    ensures |r| == |es|
    ensures forall i :: 0 <= i < |r| ==> r[i] == BookRef(es[i].bookId, es[i].bookTitle)
  {
    seq(|es|, i requires 0 <= i < |es| => BookRef(es[i].bookId, es[i].bookTitle))
  }

  function CompletedOn(day: int): Entry -> bool {
    (e: Entry) => Day(e.record.date) == day && e.isCompleted
  }

  /**
   * `getReadingDataForDate(day)` over the merged history: a completed book
   * read that day overrides everything with 100%; otherwise the day shows the
   * highest percentage recorded that day.
   */
  function GetReadingDataForDate(history: seq<Entry>, day: int): DayData {
    var dayRecords := Filter(history, OnDay(day));
    if dayRecords == [] then
      NoReading
    else
      var completed := Filter(dayRecords, IsCompletedEntry());
      var current := Filter(dayRecords, IsCurrentEntry());
      var maxPercentage := if current != [] then MaxPercentage(current) else 0;
      DayData(true, if completed != [] then 100 else maxPercentage, Refs(completed),
              dayRecords, completed != [])
  }

  /** A day shows the empty reading data exactly when no record falls on it. */
  lemma NoRecordsDay(history: seq<Entry>, day: int)
    ensures GetReadingDataForDate(history, day) == NoReading
            <==> forall k :: 0 <= k < |history| ==> Day(history[k].record.date) != day
    ensures GetReadingDataForDate(history, day).hasReading
            <==> exists k :: 0 <= k < |history| && Day(history[k].record.date) == day
  {
    var dayRecords := Filter(history, OnDay(day));
    if dayRecords != [] {
      assert dayRecords[0] in history;
    }
  }

  /** `records` holds every record of the day, in history order, and nothing else. */
  lemma DayRecords(history: seq<Entry>, day: int)
    ensures var r := GetReadingDataForDate(history, day);
      && (forall j :: 0 <= j < |r.records| ==> Day(r.records[j].record.date) == day && r.records[j] in history)
      && (forall k :: 0 <= k < |history| && Day(history[k].record.date) == day ==> history[k] in r.records)
  {
  }

  /**
   * A completed book's record on the day makes the day completed at 100%,
   * and only then is the day completed.
   */
  lemma CompletedOverrides(history: seq<Entry>, day: int)
    ensures var r := GetReadingDataForDate(history, day);
      && (r.isCompleted <==>
            exists k :: 0 <= k < |history| && Day(history[k].record.date) == day && history[k].isCompleted)
      && (r.isCompleted ==> r.percentage == 100 && r.hasReading)
      && (r.isCompleted <==> r.completedBooks != [])
  {
    var dayRecords := Filter(history, OnDay(day));
    var completed := Filter(dayRecords, IsCompletedEntry());
    if completed != [] {
      assert completed[0] in dayRecords;
      assert completed[0] in history;
    }
    if exists k :: 0 <= k < |history| && Day(history[k].record.date) == day && history[k].isCompleted {
      var k :| 0 <= k < |history| && Day(history[k].record.date) == day && history[k].isCompleted;
      assert history[k] in dayRecords;
      var m :| 0 <= m < |dayRecords| && dayRecords[m] == history[k];
      assert history[k] in completed;
    }
  }

  /**
   * Without a completed book on the day, the day shows the highest of its
   * records' percentages: one of them, not their sum.
   */
  lemma HighestPercentage(history: seq<Entry>, day: int)
    requires exists k :: 0 <= k < |history| && Day(history[k].record.date) == day
    requires forall k :: 0 <= k < |history| && Day(history[k].record.date) == day ==> !history[k].isCompleted
    ensures var r := GetReadingDataForDate(history, day);
      && r.hasReading && !r.isCompleted
      && (forall k :: 0 <= k < |history| && Day(history[k].record.date) == day ==>
            history[k].record.percentage <= r.percentage)
      && exists k :: 0 <= k < |history| && Day(history[k].record.date) == day
           && history[k].record.percentage == r.percentage
  {
    var dayRecords := Filter(history, OnDay(day));
    var k0 :| 0 <= k0 < |history| && Day(history[k0].record.date) == day;
    assert history[k0] in dayRecords;
    FilterNone(dayRecords, IsCompletedEntry());
    FilterKeepsAll(dayRecords, IsCurrentEntry());
    var m := MaxPercentage(dayRecords);
    forall k | 0 <= k < |history| && Day(history[k].record.date) == day
      ensures history[k].record.percentage <= m
    {
      assert history[k] in dayRecords;
    }
    var i :| 0 <= i < |dayRecords| && dayRecords[i].record.percentage == m;
    assert dayRecords[i] in history;
  }

  /**
   * `completedBooks` has one `{ id, title }` per completed-book record of the
   * day, in history order, duplicates included.
   */
  lemma CompletedEntries(history: seq<Entry>, day: int)
    ensures var r := GetReadingDataForDate(history, day);
      var done := Filter(history, CompletedOn(day));
      && |r.completedBooks| == |done|
      && forall i :: 0 <= i < |done| ==> r.completedBooks[i] == BookRef(done[i].bookId, done[i].bookTitle)
  {
    FilterFilter(history, OnDay(day), IsCompletedEntry(), CompletedOn(day));
    if Filter(history, OnDay(day)) == [] {
      FilterNone(history, CompletedOn(day));
    }
  }

  /** With every recorded percentage in [0, 100], a day's percentage is too. */
  lemma DayPercentInRange(history: seq<Entry>, day: int)
    requires forall k :: 0 <= k < |history| ==> 0 <= history[k].record.percentage <= 100
    ensures 0 <= GetReadingDataForDate(history, day).percentage <= 100
  {
    var dayRecords := Filter(history, OnDay(day));
    var current := Filter(dayRecords, IsCurrentEntry());
    if current != [] {
      var i :| 0 <= i < |current| && current[i].record.percentage == MaxPercentage(current);
      assert current[i] in dayRecords;
      assert current[i] in history;
    }
  }

  // ------------------------------------------------------------------ grid

  datatype Cell = Cell(day: int, isCurrentMonth: bool, readingData: DayData)

  /** `Math.ceil(n / 7) * 7` */
  function WholeWeeks(n: nat): (r: nat)
    ensures r % 7 == 0 && n <= r < n + 7
  {
    (n + 6) / 7 * 7
  }

  /** Every cell carries the reading data of its own day. */
  predicate DataOfDay(cells: seq<Cell>, history: seq<Entry>) {
    forall k :: 0 <= k < |cells| ==> cells[k].readingData == GetReadingDataForDate(history, cells[k].day)
  }

  /** The first n cells are those of the grid. */
  predicate GridPrefix(cells: seq<Cell>, firstDay: int, weekday: nat, daysInMonth: nat) {
    forall k :: 0 <= k < |cells| ==>
      cells[k].day == firstDay - weekday + k && (cells[k].isCurrentMonth <==> weekday <= k < weekday + daysInMonth)
  }

  /**
   * `generateCalendarDays()`: `weekday` cells of the previous month, the
   * month's `daysInMonth` days, then next-month cells up to whole weeks;
   * cell k is the day `firstDay - weekday + k`.
   */
  method GenerateCalendarDays(history: seq<Entry>, firstDay: int, weekday: nat, daysInMonth: nat)
    returns (cells: seq<Cell>)
    requires weekday < 7
    ensures |cells| % 7 == 0 && weekday + daysInMonth <= |cells| < weekday + daysInMonth + 7
    ensures forall k :: 0 <= k < |cells| ==>
              && cells[k].day == firstDay - weekday + k
              && (cells[k].isCurrentMonth <==> weekday <= k < weekday + daysInMonth)
              && cells[k].readingData == GetReadingDataForDate(history, cells[k].day)
  {
    cells := [];
    var i: int := weekday - 1;
    while i >= 0
      invariant -1 <= i < weekday
      invariant |cells| == weekday - 1 - i
      invariant GridPrefix(cells, firstDay, weekday, daysInMonth) && DataOfDay(cells, history)
    {
      var d := firstDay - (i + 1);
      var cell := Cell(d, false, GetReadingDataForDate(history, d));
      assert d == firstDay - weekday + |cells| && !(weekday <= |cells| < weekday + daysInMonth);
      cells := cells + [cell];
      i := i - 1;
    }
    var date := 1;
    while date <= daysInMonth
      invariant 1 <= date <= daysInMonth + 1
      invariant |cells| == weekday + date - 1
      invariant GridPrefix(cells, firstDay, weekday, daysInMonth) && DataOfDay(cells, history)
    {
      var d := firstDay + date - 1;
      var cell := Cell(d, true, GetReadingDataForDate(history, d));
      assert d == firstDay - weekday + |cells| && weekday <= |cells| < weekday + daysInMonth;
      cells := cells + [cell];
      date := date + 1;
    }
    var totalCells := WholeWeeks(|cells|);
    var nextDate := 1;
    var j := |cells|;
    while j < totalCells
      invariant weekday + daysInMonth <= j <= totalCells
      invariant |cells| == j == weekday + daysInMonth + nextDate - 1
      invariant GridPrefix(cells, firstDay, weekday, daysInMonth) && DataOfDay(cells, history)
    {
      var d := firstDay + daysInMonth + nextDate - 1;
      var cell := Cell(d, false, GetReadingDataForDate(history, d));
      assert d == firstDay - weekday + |cells| && !(weekday <= |cells| < weekday + daysInMonth);
      cells := cells + [cell];
      nextDate := nextDate + 1;
      j := j + 1;
    }
  }

  function IsCurrentMonthCell(): Cell -> bool {
    (c: Cell) => c.isCurrentMonth
  }

  /** Exactly `daysInMonth` cells of a generated grid belong to the month. */
  lemma MonthCellCount(cells: seq<Cell>, weekday: nat, daysInMonth: nat)
    requires weekday + daysInMonth <= |cells|
    requires forall k :: 0 <= k < |cells| ==>
               (cells[k].isCurrentMonth <==> weekday <= k < weekday + daysInMonth)
    ensures |Filter(cells, IsCurrentMonthCell())| == daysInMonth
  {
    FilterRange(cells, IsCurrentMonthCell(), weekday, weekday + daysInMonth);
  }

  // ------------------------------------------------------------- statistics

  function ReadingDayOfMonth(): Cell -> bool {
    (c: Cell) => c.isCurrentMonth && c.readingData.hasReading
  }

  function CompletionDayOfMonth(): Cell -> bool {
    (c: Cell) => c.isCurrentMonth && |c.readingData.completedBooks| > 0
  }

  function SumPercentage(cells: seq<Cell>): int {
    if cells == [] then 0 else cells[0].readingData.percentage + SumPercentage(cells[1..])
  }

  /** `currentMonthReadingDays` */
  function ReadingDays(cells: seq<Cell>): nat {
    |Filter(cells, ReadingDayOfMonth())|
  }

  /** `thisMonthAverage`: the rounded mean percentage over the month's reading days, else 0. */
  function MonthAverage(cells: seq<Cell>): int {
    var days := Filter(cells, ReadingDayOfMonth());
    if |days| > 0 then Round(SumPercentage(days), |days|) else 0
  }

  /** `currentMonthCompletions`: the month's days with at least one completed book. */
  function Completions(cells: seq<Cell>): nat {
    |Filter(cells, CompletionDayOfMonth())|
  }

  lemma {:induction false} SumPercentageBounds(cells: seq<Cell>)
    requires forall k :: 0 <= k < |cells| ==> 0 <= cells[k].readingData.percentage <= 100
    ensures 0 <= SumPercentage(cells) <= 100 * |cells|
  {
    if cells != [] {
      SumPercentageBounds(cells[1..]);
    }
  }

  /**
   * The monthly average of day percentages in [0, 100] lies in [0, 100],
   * and is 0 without reading days.
   */
  lemma MonthAverageInRange(cells: seq<Cell>)
    requires forall k :: 0 <= k < |cells| ==> 0 <= cells[k].readingData.percentage <= 100
    ensures 0 <= MonthAverage(cells) <= 100
    ensures ReadingDays(cells) == 0 ==> MonthAverage(cells) == 0
  {
    var days := Filter(cells, ReadingDayOfMonth());
    if |days| > 0 {
      forall k | 0 <= k < |days| ensures 0 <= days[k].readingData.percentage <= 100 {
        var m :| 0 <= m < |cells| && cells[m] == days[k];
      }
      SumPercentageBounds(days);
      RoundMeanInRange(SumPercentage(days), |days|, 100);
    }
  }

  /** Every completion day of a generated grid is also a reading day. */
  lemma CompletionsAtMostReadingDays(history: seq<Entry>, cells: seq<Cell>)
    requires forall k :: 0 <= k < |cells| ==>
               cells[k].readingData == GetReadingDataForDate(history, cells[k].day)
    ensures Completions(cells) <= ReadingDays(cells)
  {
    FilterWeaker(cells, CompletionDayOfMonth(), ReadingDayOfMonth());
  }

  // ------------------------------------------------------------------ click

  /**
   * Clicking a day: the completed book to open (`setSelectedCompletedBook`),
   * only when the day lists exactly one completed-book entry and that book
   * is among the completed books; None means nothing happens.
   */
  function DayClick(data: DayData, completedBooks: seq<Book>): (r: Option<Book>)
    ensures r.Some? ==> |data.completedBooks| == 1 && r.value in completedBooks
                        && r.value.id == data.completedBooks[0].id
    ensures r.None? <==> |data.completedBooks| != 1
                         || !ContainsId(completedBooks, data.completedBooks[0].id)
  {
    if |data.completedBooks| == 1 then
      var r := Find(completedBooks, HasId(data.completedBooks[0].id));
      if r.Some? then
        assert r.value in completedBooks by {
          var k := IndexWhere(completedBooks, HasId(data.completedBooks[0].id));
          assert completedBooks[k] == r.value;
        }
        r
      else
        r
    else
      None
  }
}
