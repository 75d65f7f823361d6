/**
 * The book-registration form: the book object built from the four text
 * fields, the blank-title guard of the submit handler, the modal that
 * closes after adding, and the "first book" greeting.
 */
module BookRegistration {
  import opened Optional
  import opened Domain
  import opened JsText
  import opened AppReducer

  /** The form's text fields, all '' initially. */
  datatype BookForm = BookForm(title: string, author: string, totalPages: string, targetDate: string)

  const EmptyBookForm: BookForm := BookForm("", "", "", "")

  /**
   * The object passed to `addBook`: trimmed title; trimmed author or null
   * when that is empty; `parseInt` of the page field (NaN as None) or null
   * when the field is empty; the target date or null when it is empty.
   */
  function BuildBook(f: BookForm): (r: NewBook)
    ensures r.title == Trim(f.title)
    ensures r.author.None? <==> Trim(f.author) == ""
    ensures r.author.Some? ==> r.author.value == Trim(f.author)
    ensures f.totalPages == "" ==> r.totalPages.None?
    ensures f.totalPages != "" ==> r.totalPages == ParseInt(f.totalPages)
    ensures r.targetDate.None? <==> f.targetDate == ""
    ensures r.targetDate.Some? ==> r.targetDate.value == f.targetDate
  {
    NewBook(
      Trim(f.title),
      if Trim(f.author) == "" then None else Some(Trim(f.author)),
      if f.totalPages != "" then ParseInt(f.totalPages) else None,
      if f.targetDate != "" then Some(f.targetDate) else None)
  }

  /** A page count typed as a numeral is stored as that number. */
  lemma PagesFieldParses(f: BookForm, n: int)
    requires f.totalPages == IntToString(n)
    ensures BuildBook(f).totalPages == Some(n)
  {
    ParseIntToString(n);
  }

  /** `isFirstBook`: the greeting for a reader without current books. */
  predicate IsFirstBook(s: AppState) {
    |s.currentBooks| == 0
  }

  /** The store after a successful submit: the book is added, then the modal (if this is one) closes. */
  function AfterRegistration(s: AppState, f: BookForm, isModal: bool, id: Id, now: Timestamp): AppState {
    var added := Reduce(s, AddBook(BuildBook(f), id, now));
    if isModal then Reduce(added, SetShowAddBookModal(false)) else added
  }

  /** The book ADD_BOOK stores for a non-blank form: trimmed non-blank title, absent or trimmed author. */
  lemma AddedBookIsClean(s: AppState, f: BookForm, id: Id, now: Timestamp)
    requires !IsBlank(f.title)
    ensures var added := Reduce(s, AddBook(BuildBook(f), id, now));
      var b := added.currentBooks[|s.currentBooks|];
      && |added.currentBooks| == |s.currentBooks| + 1
      && b.title != "" && Trim(b.title) == b.title
      && (b.author.Some? ==> b.author.value != "" && Trim(b.author.value) == b.author.value)
  {
    var nb := BuildBook(f);
    AddBookAppends(s, nb, id, now);
    TrimIdempotent(f.title);
    TrimIdempotent(f.author);
  }

  /**
   * A registration adds exactly one book at the end, selects it, stores a
   * non-blank trimmed title and an author that is either absent or trimmed
   * and non-empty; the modal is closed in modal mode and left alone otherwise;
   * nothing else of the state changes; after registering a first book, it is
   * the only one.
   */
  lemma RegistrationAddsBook(s: AppState, f: BookForm, isModal: bool, id: Id, now: Timestamp)
    requires !IsBlank(f.title)
    ensures |AfterRegistration(s, f, isModal, id, now).currentBooks| == |s.currentBooks| + 1
    ensures var r := AfterRegistration(s, f, isModal, id, now);
      var b := r.currentBooks[|s.currentBooks|];
      && r.currentBooks[..|s.currentBooks|] == s.currentBooks
      && b.id == id && r.selectedBookId == Some(id)
      && b.title != "" && Trim(b.title) == b.title
      && (b.author.Some? ==> b.author.value != "" && Trim(b.author.value) == b.author.value)
      && b.readingHistory == [] && b.currentPage == 0
      && r.showAddBookModal == (if isModal then false else s.showAddBookModal)
      && r.(currentBooks := s.currentBooks, selectedBookId := s.selectedBookId,
            showAddBookModal := s.showAddBookModal) == s
      && (IsFirstBook(s) ==> r.currentBooks == [b] && !IsFirstBook(r))
  {
    var added := Reduce(s, AddBook(BuildBook(f), id, now));
    AddBookAppends(s, BuildBook(f), id, now);
    AddedBookIsClean(s, f, id, now);
    ModalFlagOnly(added, false);
    if IsFirstBook(s) {
      assert added.currentBooks == [added.currentBooks[0]];
    }
  }

  /** The `BookRegistration` component, standalone or as the add-book modal. */
  class RegistrationForm {
    const isModal: bool
    const store: Store
    var form: BookForm
    var isSubmitting: bool

    constructor(isModal: bool, store: Store)
      ensures this.isModal == isModal && this.store == store
      ensures form == EmptyBookForm && !isSubmitting
    {
      this.isModal := isModal;
      this.store := store;
      form := EmptyBookForm;
      isSubmitting := false;
    }

    /** `handleChange` for each field. */
    method SetFields(f: BookForm)
      modifies this
      ensures form == f && isSubmitting == old(isSubmitting)
    {
      form := f;
    }

    /**
     * `handleSubmit`: a blank title dispatches nothing; otherwise the built
     * book is added and, in modal mode, the modal is closed. The form keeps
     * its fields.
     */
    method HandleSubmit(id: Id, now: Timestamp)
      modifies this, store
      ensures IsBlank(old(form.title)) ==> store.state == old(store.state) && isSubmitting == old(isSubmitting)
      ensures !IsBlank(old(form.title)) ==>
                store.state == AfterRegistration(old(store.state), old(form), isModal, id, now) && !isSubmitting
      ensures form == old(form)
    {
      var f := form;
      if IsBlank(f.title) {
        return;
      }
      isSubmitting := true;
      var book := BuildBook(f);
      store.Dispatch(AddBook(book, id, now));
      if isModal {
        store.Dispatch(SetShowAddBookModal(false));
      }
      isSubmitting := false;
    }

    /** `handleCancel`: closes the modal in modal mode, does nothing otherwise. */
    method HandleCancel()
      modifies store
      ensures isModal ==> store.state == old(store.state).(showAddBookModal := false)
      ensures !isModal ==> store.state == old(store.state)
    {
      if isModal {
        store.Dispatch(SetShowAddBookModal(false));
      }
    }
  }
}
