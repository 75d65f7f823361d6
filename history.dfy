/**
 * `getAllReadingHistory`: every reading record of every book, current books
 * first and completed books after, each tagged with its book and whether that
 * book is completed, then sorted by date (stably, so same-instant records keep
 * that order).
 */
module History {
  import opened Domain
  import opened Sorting
  import AppReducer

  /** A record of the merged history, tagged with its book. */
  datatype Entry = Entry(record: Record, bookId: Id, bookTitle: string, isCompleted: bool)

  function EntryDate(): Entry -> int {
    (e: Entry) => e.record.date
  }

  /** The tagged records of one book, in history order. */
  function TagBook(b: Book, completed: bool): (r: seq<Entry>)
    ensures |r| == |b.readingHistory|
    ensures forall j :: 0 <= j < |r| ==>
              r[j] == Entry(b.readingHistory[j], b.id, b.title, completed)
  {
    seq(|b.readingHistory|, j requires 0 <= j < |b.readingHistory| =>
      Entry(b.readingHistory[j], b.id, b.title, completed))
  }

  /** The tagged records of a list of books, book after book. */
  function TagAll(books: seq<Book>, completed: bool): seq<Entry> {
    if books == [] then []
    else TagAll(books[..|books| - 1], completed) + TagBook(books[|books| - 1], completed)
  }

  /** Number of reading records over a list of books. */
  function RecordCount(books: seq<Book>): nat {
    if books == [] then 0
    else RecordCount(books[..|books| - 1]) + |books[|books| - 1].readingHistory|
  }

  /** The history before sorting: current books' records, then completed books' records. */
  function Merged(s: AppState): seq<Entry> {
    TagAll(s.currentBooks, false) + TagAll(s.completedBooks, true)
  }

  /** The merged history in ascending date order. */
  function AllReadingHistory(s: AppState): (r: seq<Entry>)
    ensures SortedBy(r, EntryDate())
    ensures multiset(r) == multiset(Merged(s))
  {
    SortByKey(Merged(s), EntryDate())
  }

  /** The tagged records of the first i + 1 books extend those of the first i by book i's. */
  lemma TagAllStep(books: seq<Book>, completed: bool, i: nat)
    requires i < |books|
    ensures TagAll(books[..i + 1], completed) == TagAll(books[..i], completed) + TagBook(books[i], completed)
  {
    assert books[..i + 1][..i] == books[..i];
  }

  /** Pushes the tagged records of `books` onto `all`, as one of the two `forEach` blocks does. */
  method PushTagged(all: seq<Entry>, books: seq<Book>, completed: bool) returns (r: seq<Entry>)
    ensures r == all + TagAll(books, completed)
  {
    r := all;
    var i := 0;
    while i < |books|
      invariant 0 <= i <= |books|
      invariant r == all + TagAll(books[..i], completed)
    {
      var b := books[i];
      var tagged := TagBook(b, completed);
      ghost var before := r;
      var j := 0;
      while j < |b.readingHistory|
        invariant 0 <= j <= |b.readingHistory|
        invariant r == before + tagged[..j]
      {
        assert tagged[..j + 1] == tagged[..j] + [tagged[j]];
        r := r + [Entry(b.readingHistory[j], b.id, b.title, completed)];
        j := j + 1;
      }
      assert tagged[..j] == tagged;
      TagAllStep(books, completed, i);
      i := i + 1;
    }
    assert books[..i] == books;
  }

  /** `getAllReadingHistory()` */
  method GetAllReadingHistory(s: AppState) returns (r: seq<Entry>)
    ensures r == AllReadingHistory(s)
  {
    var all := PushTagged([], s.currentBooks, false);
    assert all == TagAll(s.currentBooks, false);
    all := PushTagged(all, s.completedBooks, true);
    assert all == Merged(s);
    r := SortByKey(all, EntryDate());
  }

  // ------------------------------------------------------------------ lemmas

  /** There is one tagged entry per record. */
  lemma {:induction false} TagAllCount(books: seq<Book>, completed: bool)
    ensures |TagAll(books, completed)| == RecordCount(books)
  {
    if books != [] {
      TagAllCount(books[..|books| - 1], completed);
    }
  }

  /** Every record of every book appears, tagged with that book. */
  lemma {:induction false} TagAllContains(books: seq<Book>, completed: bool, i: nat, j: nat)
    requires i < |books| && j < |books[i].readingHistory|
    ensures Entry(books[i].readingHistory[j], books[i].id, books[i].title, completed)
            in TagAll(books, completed)
  {
    var n := |books| - 1;
    if i < n {
      TagAllContains(books[..n], completed, i, j);
      assert books[..n][i] == books[i];
    } else {
      assert TagBook(books[n], completed)[j]
             == Entry(books[i].readingHistory[j], books[i].id, books[i].title, completed);
    }
  }

  /** Every tagged entry carries the flag and comes from a record of one of the books. */
  lemma {:induction false} TagAllSource(books: seq<Book>, completed: bool, k: nat)
    requires k < |TagAll(books, completed)|
    ensures var e := TagAll(books, completed)[k];
      && e.isCompleted == completed
      && exists i, j :: 0 <= i < |books| && 0 <= j < |books[i].readingHistory|
           && e == Entry(books[i].readingHistory[j], books[i].id, books[i].title, completed)
  {
    var n := |books| - 1;
    var front := TagAll(books[..n], completed);
    var e := TagAll(books, completed)[k];
    if k < |front| {
      TagAllSource(books[..n], completed, k);
      assert e == front[k];
      var i, j :| 0 <= i < n && 0 <= j < |books[..n][i].readingHistory|
                  && front[k] == Entry(books[..n][i].readingHistory[j], books[..n][i].id,
                                       books[..n][i].title, completed);
      assert books[..n][i] == books[i];
    } else {
      var j := k - |front|;
      assert e == TagBook(books[n], completed)[j];
    }
  }

  /**
   * The history has one entry per record of every current and every
   * completed book.
   */
  lemma HistoryCount(s: AppState)
    ensures |AllReadingHistory(s)| == RecordCount(s.currentBooks) + RecordCount(s.completedBooks)
  {
    var r := AllReadingHistory(s);
    assert |r| == |multiset(r)| == |multiset(Merged(s))| == |Merged(s)|;
    TagAllCount(s.currentBooks, false);
    TagAllCount(s.completedBooks, true);
  }

  /**
   * Every record of a current book is in the history tagged not completed,
   * and every record of a completed book tagged completed.
   */
  lemma HistoryContains(s: AppState, i: nat, j: nat, completed: bool)
    requires completed ==> i < |s.completedBooks| && j < |s.completedBooks[i].readingHistory|
    requires !completed ==> i < |s.currentBooks| && j < |s.currentBooks[i].readingHistory|
    ensures var b := if completed then s.completedBooks[i] else s.currentBooks[i];
      Entry(b.readingHistory[j], b.id, b.title, completed) in AllReadingHistory(s)
  {
    var b := if completed then s.completedBooks[i] else s.currentBooks[i];
    var e := Entry(b.readingHistory[j], b.id, b.title, completed);
    if completed {
      TagAllContains(s.completedBooks, true, i, j);
    } else {
      TagAllContains(s.currentBooks, false, i, j);
    }
    assert e in multiset(Merged(s));
    assert e in multiset(AllReadingHistory(s));
  }

  /** An entry of the merged history, before sorting, is a tagged record of a book of its own kind. */
  lemma MergedSource(s: AppState, m: nat)
    requires m < |Merged(s)|
    ensures var e := Merged(s)[m];
      var books := if e.isCompleted then s.completedBooks else s.currentBooks;
      exists i, j :: 0 <= i < |books| && 0 <= j < |books[i].readingHistory|
        && e == Entry(books[i].readingHistory[j], books[i].id, books[i].title, e.isCompleted)
  {
    var front := TagAll(s.currentBooks, false);
    var back := TagAll(s.completedBooks, true);
    if m < |front| {
      assert Merged(s)[m] == front[m];
      TagAllSource(s.currentBooks, false, m);
    } else {
      assert Merged(s)[m] == back[m - |front|];
      TagAllSource(s.completedBooks, true, m - |front|);
    }
  }

  /**
   * Conversely, an entry tagged not completed comes from a current book and
   * one tagged completed from a completed book.
   */
  lemma HistorySource(s: AppState, k: nat)
    requires k < |AllReadingHistory(s)|
    ensures var e := AllReadingHistory(s)[k];
      var books := if e.isCompleted then s.completedBooks else s.currentBooks;
      exists i, j :: 0 <= i < |books| && 0 <= j < |books[i].readingHistory|
        && e == Entry(books[i].readingHistory[j], books[i].id, books[i].title, e.isCompleted)
  {
    var h := AllReadingHistory(s);
    assert h[k] in multiset(h);
    assert h[k] in multiset(Merged(s));
    var m :| 0 <= m < |Merged(s)| && Merged(s)[m] == h[k];
    MergedSource(s, m);
  }

  /** A record added by ADD_READING_RECORD to a current book shows up in the history. */
  lemma AddedRecordAppears(s: AppState, id: Id, input: AppReducer.RecordInput, recordId: Id, now: Timestamp)
    requires ContainsId(s.currentBooks, id)
    ensures var s' := AppReducer.Reduce(s, AppReducer.AddReadingRecord(id, input, recordId, now));
      exists e :: e in AllReadingHistory(s') && e.bookId == id && !e.isCompleted
        && e.record == Record(recordId, now, input.pagesRead, input.notes, input.percentage)
  {
    var s' := AppReducer.Reduce(s, AppReducer.AddReadingRecord(id, input, recordId, now));
    var i :| 0 <= i < |s.currentBooks| && s.currentBooks[i].id == id;
    AppReducer.AddRecordOnlyMatching(s, id, input, recordId, now);
    var j := |s.currentBooks[i].readingHistory|;
    HistoryContains(s', i, j, false);
  }
}
