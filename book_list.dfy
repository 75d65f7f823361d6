/**
 * The wishlist screen ("気になる本リスト"): the add/edit form with its
 * submit, edit and reset handlers, the completion toggle, deletion after
 * confirmation, and the split into pending and completed items.
 */
module BookList {
  import opened Optional
  import opened Domain
  import opened Lists
  import opened JsText
  import opened AppReducer

  /** The form's three text fields. */
  datatype WishForm = WishForm(title: string, details: string, amazonLink: string)

  const EmptyWishForm: WishForm := WishForm("", "", "")

  /** `if (editingId)`: an id is truthy when present and not 0. */
  predicate Editing(editingId: Option<Id>) {
    editingId.Some? && editingId.value != 0
  }

  /**
   * The action a non-blank submit dispatches: an update of the edited item
   * with the three trimmed fields, or a new item with them.
   */
  function SubmitAction(f: WishForm, editingId: Option<Id>, id: Id, now: Timestamp): (a: Action)
    ensures Editing(editingId) ==>
              a == UpdateWishlistItem(editingId.value,
                     WishUpdate(Some(Trim(f.title)), Some(Trim(f.details)), Some(Trim(f.amazonLink)), None))
    ensures !Editing(editingId) ==>
              a == AddToWishlist(NewWish(Trim(f.title), Some(Trim(f.details)), Some(Trim(f.amazonLink))), id, now)
  {
    if Editing(editingId) then
      UpdateWishlistItem(editingId.value,
        WishUpdate(Some(Trim(f.title)), Some(Trim(f.details)), Some(Trim(f.amazonLink)), None))
    else
      AddToWishlist(NewWish(Trim(f.title), Some(Trim(f.details)), Some(Trim(f.amazonLink))), id, now)
  }

  /** A submit without editing stores one new open item with the trimmed fields at the end of the list. */
  lemma SubmitAddsTrimmed(s: AppState, f: WishForm, editingId: Option<Id>, id: Id, now: Timestamp)
    requires !Editing(editingId)
    ensures var r := Reduce(s, SubmitAction(f, editingId, id, now));
      && r.bookWishlist
         == s.bookWishlist + [WishlistItem(id, Trim(f.title), Trim(f.details), Trim(f.amazonLink), false, now)]
      && r.currentBooks == s.currentBooks && r.completedBooks == s.completedBooks
  {
    var w := NewWish(Trim(f.title), Some(Trim(f.details)), Some(Trim(f.amazonLink)));
    AddToWishlistAppends(s, w, id, now);
  }

  /**
   * A submit while editing rewrites the three fields of the edited item with
   * the trimmed values and keeps its completion flag, its id and its creation
   * time; other items stay as they were.
   */
  lemma SubmitEditsTrimmed(s: AppState, f: WishForm, editingId: Option<Id>, id: Id, now: Timestamp)
    requires Editing(editingId)
    ensures var r := Reduce(s, SubmitAction(f, editingId, id, now));
      && |r.bookWishlist| == |s.bookWishlist|
      && (forall i :: 0 <= i < |s.bookWishlist| ==>
            r.bookWishlist[i]
            == if s.bookWishlist[i].id == editingId.value
               then s.bookWishlist[i].(title := Trim(f.title), details := Trim(f.details),
                                       amazonLink := Trim(f.amazonLink))
               else s.bookWishlist[i])
      && r.currentBooks == s.currentBooks && r.completedBooks == s.completedBooks
  {
  }

  function WishHasId(id: Id): WishlistItem -> bool {
    (w: WishlistItem) => w.id == id
  }

  /**
   * `toggleComplete(id)`: with an item of that id, an update that negates the
   * first such item's flag; without one, the state as it was.
   */
  function Toggled(s: AppState, id: Id): AppState {
    var found := Find(s.bookWishlist, WishHasId(id));
    if found.None? then s
    else Reduce(s, UpdateWishlistItem(id, WishUpdate(None, None, None, Some(!found.value.isCompleted))))
  }

  /** No two wishlist items share an id (ids are distinct `Date.now()` values). */
  predicate UniqueWishIds(items: seq<WishlistItem>) {
    forall i, j :: 0 <= i < |items| && 0 <= j < |items| && items[i].id == items[j].id ==> i == j
  }

  /**
   * Toggling flips the completion flag of the item with the id and changes
   * nothing else of it, leaves every other item alone, and does nothing when
   * no item has the id.
   */
  lemma ToggleFlips(s: AppState, id: Id)
    requires UniqueWishIds(s.bookWishlist)
    ensures (forall i :: 0 <= i < |s.bookWishlist| ==> s.bookWishlist[i].id != id) ==> Toggled(s, id) == s
    ensures var r := Toggled(s, id);
      && |r.bookWishlist| == |s.bookWishlist|
      && (forall i :: 0 <= i < |s.bookWishlist| ==>
            r.bookWishlist[i]
            == if s.bookWishlist[i].id == id
               then s.bookWishlist[i].(isCompleted := !s.bookWishlist[i].isCompleted)
               else s.bookWishlist[i])
      && r.(bookWishlist := s.bookWishlist) == s
  {
    var found := Find(s.bookWishlist, WishHasId(id));
    if found.Some? {
      var k := IndexWhere(s.bookWishlist, WishHasId(id));
      assert s.bookWishlist[k] == found.value;
      UpdateWishOnlyMatching(s, id, WishUpdate(None, None, None, Some(!found.value.isCompleted)));
    }
  }

  function IsDone(): WishlistItem -> bool {
    (w: WishlistItem) => w.isCompleted
  }

  function NotDone(): WishlistItem -> bool {
    (w: WishlistItem) => !w.isCompleted
  }

  /** `pendingBooks` */
  function Pending(items: seq<WishlistItem>): seq<WishlistItem> {
    Filter(items, NotDone())
  }

  /** `completedBooks` of the wishlist (not the finished current books). */
  function Done(items: seq<WishlistItem>): seq<WishlistItem> {
    Filter(items, IsDone())
  }

  /**
   * The two lists split the wishlist: every item is in exactly the list its
   * flag says, and together they hold every item once.
   */
  lemma PendingDonePartition(items: seq<WishlistItem>)
    ensures |Pending(items)| + |Done(items)| == |items|
    ensures multiset(Pending(items)) + multiset(Done(items)) == multiset(items)
    ensures forall i :: 0 <= i < |Pending(items)| ==> !Pending(items)[i].isCompleted
    ensures forall i :: 0 <= i < |Done(items)| ==> Done(items)[i].isCompleted
  {
    FilterSplit(items, NotDone(), IsDone());
  }

  /**
   * Both lists keep the wishlist's order: an open item added at the end (as
   * a submit without editing adds it) is listed last among the pending ones
   * and leaves the done list as it was.
   */
  lemma NewItemListedLast(items: seq<WishlistItem>, item: WishlistItem)
    requires !item.isCompleted
    ensures Pending(items + [item]) == Pending(items) + [item]
    ensures Done(items + [item]) == Done(items)
  {
    FilterAppend(items, [item], NotDone());
    FilterAppend(items, [item], IsDone());
    assert Filter([item], IsDone()) == [];
  }

  /** The `BookList` component's local state, over the application store. */
  class WishlistForm {
    const store: Store
    var form: WishForm
    var showAddForm: bool
    var editingId: Option<Id>

    constructor(store: Store)
      ensures this.store == store
      ensures form == EmptyWishForm && !showAddForm && editingId.None?
    {
      this.store := store;
      form := EmptyWishForm;
      showAddForm := false;
      editingId := None;
    }

    /** `resetForm()`: clears the fields, closes the form and ends editing. */
    method ResetForm()
      modifies this
      ensures form == EmptyWishForm && !showAddForm && editingId.None?
    {
      form := EmptyWishForm;
      showAddForm := false;
      editingId := None;
    }

    /**
     * `handleSubmit`: a blank title changes nothing; otherwise the update or
     * the new item is dispatched and the form is reset.
     */
    method HandleSubmit(id: Id, now: Timestamp)
      modifies this, store
      ensures IsBlank(old(form.title)) ==> unchanged(this) && store.state == old(store.state)
      ensures !IsBlank(old(form.title)) ==>
                && store.state == Reduce(old(store.state), SubmitAction(old(form), old(editingId), id, now))
                && form == EmptyWishForm && !showAddForm && editingId.None?
    {
      var f := form;
      if IsBlank(f.title) {
        return;
      }
      var a := SubmitAction(f, editingId, id, now);
      store.Dispatch(a);
      ResetForm();
    }

    /** `startEdit(item)`: the form holds the item's fields, opens, and edits that item. */
    method StartEdit(item: WishlistItem)
      modifies this
      ensures form == WishForm(item.title, item.details, item.amazonLink)
      ensures editingId == Some(item.id) && showAddForm
    {
      form := WishForm(item.title, item.details, item.amazonLink);
      editingId := Some(item.id);
      showAddForm := true;
    }

    /** `toggleComplete(id)` */
    method ToggleComplete(id: Id)
      modifies store
      ensures store.state == Toggled(old(store.state), id)
    {
      var found := Find(store.state.bookWishlist, WishHasId(id));
      if found.Some? {
        store.Dispatch(UpdateWishlistItem(id, WishUpdate(None, None, None, Some(!found.value.isCompleted))));
      }
    }

    /** `deleteItem(id)`: the item goes only when the reader confirms. */
    method DeleteItem(id: Id, confirmed: bool)
      modifies store
      ensures confirmed ==> store.state == Reduce(old(store.state), RemoveFromWishlist(id))
      ensures !confirmed ==> store.state == old(store.state)
    {
      if confirmed {
        store.Dispatch(RemoveFromWishlist(id));
      }
    }
  }
}
