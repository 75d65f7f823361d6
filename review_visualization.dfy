/**
 * The review screen shown when a book reaches 100%: the timeline of its
 * notes closed by an editable final node, navigation along it, and saving
 * the review, which completes the book.
 */
module ReviewVisualization {
  import opened Optional
  import opened Domain
  import opened Timeline
  import opened AppReducer
  import opened ReadingProgress

  /** The `ReviewVisualization` component; `onComplete` is the progress form's completion handler. */
  class ReviewScreen {
    const form: ProgressForm
    var finalReview: string
    var isEditing: bool
    var currentNodeIndex: int

    constructor(form: ProgressForm)
      ensures this.form == form
      ensures finalReview == "" && !isEditing && currentNodeIndex == 0
    {
      this.form := form;
      finalReview := "";
      isEditing := false;
      currentNodeIndex := 0;
    }

    /** `finalNode`: last, at 100%, dated now, showing the review being written, editable. */
    function FinalNode(now: Timestamp): Node
      reads this
    {
      Node(|TimelineNodes(form.book.readingHistory)|, Some(now), finalReview, 100, true, true)
    }

    /** `allNodes` */
    function ReviewNodes(now: Timestamp): seq<Node>
      reads this
    {
      AllNodes(TimelineNodes(form.book.readingHistory), FinalNode(now))
    }

    /** The "add review" button is offered while no review is written and the editor is closed. */
    predicate ShowsAddReview()
      reads this
    {
      finalReview == "" && !isEditing
    }

    /**
     * The last node is the only editable and the only final one, at 100%,
     * and shows exactly the review being written.
     */
    lemma ReviewNodesShape(now: Timestamp)
      ensures var all := ReviewNodes(now);
        && |all| == |TimelineNodes(form.book.readingHistory)| + 1
        && (forall i :: 0 <= i < |all| ==>
              all[i].id == i && (all[i].isEditable <==> i == |all| - 1) && (all[i].isFinal <==> i == |all| - 1))
        && all[|all| - 1].content == finalReview && all[|all| - 1].percentage == 100
    {
    }

    /** Typing into the review editor. */
    method EditReview(text: string)
      modifies this
      ensures finalReview == text && isEditing == old(isEditing) && currentNodeIndex == old(currentNodeIndex)
      ensures ShowsAddReview() <==> text == "" && !isEditing
    {
      finalReview := text;
    }

    /** The edit button on the final node opens or closes the editor. */
    method ToggleEditing()
      modifies this
      ensures isEditing == !old(isEditing) && finalReview == old(finalReview)
      ensures currentNodeIndex == old(currentNodeIndex)
    {
      isEditing := !isEditing;
    }

    /**
     * The "add review" button opens the editor, which hides the button. The
     * button sits inside the final node and does not stop the click, so the
     * node's own handler also runs and the final node becomes current.
     */
    method StartReview()
      modifies this
      ensures isEditing && finalReview == old(finalReview)
      ensures currentNodeIndex == |TimelineNodes(form.book.readingHistory)|
      ensures !ShowsAddReview()
    {
      isEditing := true;
      currentNodeIndex := |TimelineNodes(form.book.readingHistory)|;
    }

    /** `navigateNode(direction)` */
    method NavigateNode(direction: int)
      modifies this
      ensures currentNodeIndex
              == Navigate(old(currentNodeIndex), direction, |TimelineNodes(form.book.readingHistory)| + 1)
      ensures finalReview == old(finalReview) && isEditing == old(isEditing)
    {
      var count := |TimelineNodes(form.book.readingHistory)| + 1;
      var newIndex := currentNodeIndex + direction;
      if newIndex >= 0 && newIndex < count {
        currentNodeIndex := newIndex;
      }
    }

    /** A click on node `index` (`scrollToNode(index)`) makes it the current node. */
    method JumpToNode(index: int)
      requires 0 <= index < |TimelineNodes(form.book.readingHistory)| + 1
      modifies this
      ensures currentNodeIndex == index
      ensures finalReview == old(finalReview) && isEditing == old(isEditing)
    {
      currentNodeIndex := index;
    }

    /**
     * `handleSave()`: hands exactly the written review to the completion
     * handler, which completes the book with it.
     */
    method HandleSave(now: Timestamp)
      modifies form, form.store
      ensures form.store.state
              == Reduce(old(form.store.state), CompleteBook(form.book.id, Some(finalReview), now))
      ensures !form.isSubmitting && form.completions == old(form.completions) + 1
    {
      form.HandleBookCompletion(finalReview, now);
    }
  }

  /**
   * Saving completes the book: with the book among the current ones it
   * leaves them and the completed list ends with it, carrying the review.
   */
  lemma SavedReviewCompletes(s: AppState, id: Id, review: string, now: Timestamp)
    requires ContainsId(s.currentBooks, id)
    ensures var r := Reduce(s, CompleteBook(id, Some(review), now));
      && !ContainsId(r.currentBooks, id)
      && r.completedBooks[|r.completedBooks| - 1].id == id
      && r.completedBooks[|r.completedBooks| - 1].finalReview == Some(review)
  {
    CompleteMovesBook(s, id, Some(review), now);
  }
}
