/**
 * The completed-book page: the timeline of a finished book closed by its
 * final review, navigation along it, the export, and the way back.
 */
module CompletedBookDetail {
  import opened Optional
  import opened Domain
  import opened Timeline
  import opened AppReducer

  /** `finalNode`: last, at 100%, dated on completion, showing the review or ''; not editable here. */
  function DetailFinalNode(book: Book): Node {
    Node(|TimelineNodes(book.readingHistory)|, book.completedDate, book.finalReview.GetOr(""), 100, false, true)
  }

  /** `allNodes` */
  function DetailNodes(book: Book): seq<Node> {
    AllNodes(TimelineNodes(book.readingHistory), DetailFinalNode(book))
  }

  /**
   * The nodes are numbered by position, only the last one is final, none is
   * editable, and the last one carries the completion date, 100% and the
   * review (or '' when there is none).
   */
  lemma DetailNodesShape(book: Book)
    ensures var all := DetailNodes(book);
      var last := all[|all| - 1];
      && |all| == |TimelineNodes(book.readingHistory)| + 1
      && (forall i :: 0 <= i < |all| ==> all[i].id == i && !all[i].isEditable && (all[i].isFinal <==> i == |all| - 1))
      && last.percentage == 100 && last.date == book.completedDate
      && (book.finalReview.Some? ==> last.content == book.finalReview.value)
      && (book.finalReview.None? ==> last.content == "")
  {
  }

  /**
   * A book completed with a review and then opened shows that review in its
   * final node, dated at the completion.
   */
  lemma CompletedReviewShown(s: AppState, id: Id, review: string, now: Timestamp)
    requires ContainsId(s.currentBooks, id)
    ensures var done := Reduce(s, CompleteBook(id, Some(review), now));
      var book := done.completedBooks[|done.completedBooks| - 1];
      var last := DetailNodes(book)[|DetailNodes(book)| - 1];
      && book.id == id
      && last.content == review && last.date == Some(now) && last.isFinal
  {
    CompleteMovesBook(s, id, Some(review), now);
    var done := Reduce(s, CompleteBook(id, Some(review), now));
    DetailNodesShape(done.completedBooks[|done.completedBooks| - 1]);
  }

  /** The export of a completed book: its note nodes (not the final node) and its review. */
  function DetailExport(book: Book, dateTexts: seq<string>, generated: string): string
    requires |dateTexts| == |TimelineNodes(book.readingHistory)|
  {
    ExportText(book.title, TimelineNodes(book.readingHistory), dateTexts, book.finalReview, generated)
  }

  /** The `CompletedBookDetail` component, shown for the selected completed book. */
  class DetailView {
    const store: Store
    const book: Book
    var currentNodeIndex: int

    /** Index of a node of this book's timeline. */
    predicate Valid()
      reads this
    {
      0 <= currentNodeIndex < |DetailNodes(book)|
    }

    constructor(store: Store, book: Book)
      ensures this.store == store && this.book == book
      ensures currentNodeIndex == 0 && Valid()
    {
      this.store := store;
      this.book := book;
      currentNodeIndex := 0;
    }

    /** `navigateNode(direction)`: the index stays on a node. */
    method NavigateNode(direction: int)
      modifies this
      ensures currentNodeIndex == Navigate(old(currentNodeIndex), direction, |DetailNodes(book)|)
      ensures old(Valid()) ==> Valid()
    {
      var newIndex := currentNodeIndex + direction;
      if newIndex >= 0 && newIndex < |DetailNodes(book)| {
        currentNodeIndex := newIndex;
      }
    }

    /** A click on node `index` (`scrollToNode(index)`) makes it the current node. */
    method JumpToNode(index: int)
      requires 0 <= index < |DetailNodes(book)|
      modifies this
      ensures currentNodeIndex == index && Valid()
    {
      currentNodeIndex := index;
    }

    /** `handleBack()`: deselects the completed book. */
    method HandleBack()
      modifies store
      ensures store.state == old(store.state).(selectedCompletedBook := None)
    {
      store.Dispatch(SetSelectedCompletedBook(None));
    }
  }
}
