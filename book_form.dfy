/** The add/edit form: in edit mode it loads the book named by the route into the form; on
    submit it either marks every control touched (invalid form) or sends the normalised value
    to the store, as an update in edit mode with a usable id and as an addition otherwise. */
module BookForm {
  import opened Common
  import opened Text
  import BookModel
  import Catalog
  import BookStore
  import opened FormRules
  import BookDetail

  /** The form the route id leaves behind: `undefined` (no id), `NaN`, or a number. */
  datatype RouteId = NoId | NotANumber | Id(value: int)

  /** `this.bookId` is truthy: a number other than 0 (`undefined` and `NaN` are falsy). */
  predicate UsableId(id: RouteId) {
    id.Id? && id.value != 0
  }

  /** What the form does after a submit. */
  datatype SubmitOutcome = MarkedTouched | NavigateToBook(id: int) | UpdateFailedAlert

  const AllFields: set<Field> :=
    {Title, Author, Isbn, PublicationDate, Description, CoverImage, Genre, PageCount, Publisher, Rating}

  /** Every control empty, pristine and untouched, with the errors its validators report. */
  function InitialForm(): (f: Form)
    ensures HasAllFields(f) && Consistent(f)
    ensures forall n :: n in f ==> f[n].value == Str("") && !f[n].dirty && !f[n].touched
  {
    AllFieldsComplete();
    map n | n in AllFields :: Control(Str(""), Validate(n, Str("")), false, false)
  }

  lemma AllFieldsComplete()
    ensures forall f: Field :: f in AllFields
  {
    forall f: Field ensures f in AllFields {
      assert f.Title? || f.Author? || f.Isbn? || f.PublicationDate? || f.Description?
        || f.CoverImage? || f.Genre? || f.PageCount? || f.Publisher? || f.Rating?;
    }
  }

  /** A fresh form cannot be submitted: the required title is empty. */
  lemma InitialFormInvalid()
    ensures FormInvalid(InitialForm())
  {
    var f := InitialForm();
    assert "required" in f[Title].errors;
  }

  /** What `patchValue({...book})` puts into a control: the book's field, or nothing when the
      book lacks that optional field. */
  function PatchValue(b: BookModel.Book, f: Field): Option<Value> {
    match f
    case Title => Some(Str(b.title))
    case Author => Some(Str(b.author))
    case Isbn => Some(Str(b.isbn))
    case PublicationDate => Some(Str(b.publicationDate))
    case Description => if b.description.Some? then Some(Str(b.description.value)) else None
    case CoverImage => if b.coverImage.Some? then Some(Str(b.coverImage.value)) else None
    case Genre => if b.genre.Some? then Some(Str(b.genre.value)) else None
    case PageCount => if b.pageCount.Some? then Some(Num(b.pageCount.value)) else None
    case Publisher => if b.publisher.Some? then Some(Str(b.publisher.value)) else None
    case Rating => if b.rating.Some? then Some(Num(b.rating.value)) else None
  }

  /** `patchValue({...book})`: each field the book has lands in its control and is validated
      again; the other controls, and book fields without a control, are left alone. */
  function Patched(form: Form, b: BookModel.Book): (r: Form)
    ensures r.Keys == form.Keys
    ensures forall n :: n in r && PatchValue(b, n).Some? ==> r[n].value == PatchValue(b, n).value
    ensures forall n :: n in r && PatchValue(b, n).None? ==> r[n] == form[n]
    ensures forall n :: n in r ==> r[n].dirty == form[n].dirty && r[n].touched == form[n].touched
  {
    map n | n in form ::
      match PatchValue(b, n)
      case Some(v) => form[n].(value := v, errors := Validate(n, v))
      case None => form[n]
  }

  /** Patching validates every control it changes again, so a consistent form stays consistent. */
  lemma PatchedConsistent(form: Form, b: BookModel.Book)
    requires Consistent(form)
    ensures Consistent(Patched(form, b))
  {
  }

  /** Loading a book and submitting the form unchanged sends the book's required texts back. */
  lemma PatchThenSubmit(form: Form, b: BookModel.Book)
    requires HasAllFields(form)
    ensures var d := Submitted(Patched(form, b));
      d.title == b.title && d.author == b.author && d.isbn == b.isbn
      && d.publicationDate == b.publicationDate
  {
    var r := Patched(form, b);
    PatchedField(form, b, Title);
    PatchedField(form, b, Author);
    PatchedField(form, b, Isbn);
    PatchedField(form, b, PublicationDate);
  }

  /** A book's rating and page count survive loading and submitting, except that 0 is dropped. */
  lemma PatchThenSubmitNumbers(form: Form, b: BookModel.Book)
    requires HasAllFields(form)
    ensures var d := Submitted(Patched(form, b));
      (b.rating.Some? ==> d.rating == if b.rating.value == 0.0 then None else b.rating)
      && (b.pageCount.Some? ==> d.pageCount == if b.pageCount.value == 0.0 then None else b.pageCount)
  {
    if b.rating.Some? {
      PatchedField(form, b, Rating);
    }
    if b.pageCount.Some? {
      PatchedField(form, b, PageCount);
    }
  }

  /** A book's non-empty genre, description and publisher survive loading and submitting. */
  lemma PatchThenSubmitTexts(form: Form, b: BookModel.Book)
    requires HasAllFields(form)
    ensures var d := Submitted(Patched(form, b));
      (b.genre.Some? && |b.genre.value| > 0 ==> d.genre == b.genre)
      && (b.description.Some? && |b.description.value| > 0 ==> d.description == b.description)
      && (b.publisher.Some? && |b.publisher.value| > 0 ==> d.publisher == b.publisher)
  {
    if b.genre.Some? {
      PatchedField(form, b, Genre);
    }
    if b.description.Some? {
      PatchedField(form, b, Description);
    }
    if b.publisher.Some? {
      PatchedField(form, b, Publisher);
    }
  }

  /** One control after patching holds the book's field. */
  lemma PatchedField(form: Form, b: BookModel.Book, f: Field)
    requires f in form && PatchValue(b, f).Some?
    ensures Patched(form, b)[f].value == PatchValue(b, f).value
  {
  }

  /** Every control marked touched, nothing else changed. */
  function MarkAllTouched(form: Form): (r: Form)
    ensures r.Keys == form.Keys
    ensures forall n :: n in r ==> r[n] == form[n].(touched := true)
  {
    map n | n in form :: form[n].(touched := true)
  }

  /** After an invalid submit, every control with an error is shown as invalid. */
  lemma MarkAllTouchedShowsErrors(form: Form, f: Field)
    requires f in form && form[f].errors != map[]
    ensures IsFieldInvalid(MarkAllTouched(form), Name(f))
  {
    FieldNamedOfName(f);
  }

  class BookFormComponent {
    var form: Form
    var isEditMode: bool
    var bookId: RouteId
    var loading: bool
    var error: Option<string>
    var isSubmitting: bool
    const bookService: BookStore.BookService

    /** Once `initForm` has run: every control exists and shows its validators' errors. */
    ghost predicate Valid()
      reads this
    {
      HasAllFields(form) && Consistent(form)
    }

    /** The field initialisers; the form group does not exist before `ngOnInit`. */
    constructor(service: BookStore.BookService)
      ensures bookService == service && form == map[]
      ensures !isEditMode && bookId == NoId && loading && error == None && !isSubmitting
    {
      bookService := service;
      form := map[];
      isEditMode := false;
      bookId := NoId;
      loading := true;
      error := None;
      isSubmitting := false;
    }

    method InitForm()
      modifies this
      ensures form == InitialForm() && Valid()
      ensures isEditMode == old(isEditMode) && bookId == old(bookId) && loading == old(loading)
      ensures error == old(error) && isSubmitting == old(isSubmitting)
    {
      form := InitialForm();
    }

    /** `ngOnInit()`: a fresh form; a truthy route id switches to edit mode and loads the book
        (even when the id is not a number); no id just ends loading. */
    method NgOnInit(idParam: Option<string>)
      modifies this
      ensures Valid() && !loading && isSubmitting == old(isSubmitting)
      ensures idParam.None? || idParam == Some("") ==>
        form == InitialForm() && isEditMode == old(isEditMode) && bookId == old(bookId) && error == old(error)
      ensures idParam.Some? && idParam.value != "" ==>
        isEditMode && bookId == (match ParseInt(idParam.value) case None => NotANumber case Some(n) => Id(n))
        && Loaded(InitialForm())
    {
      InitForm();
      if idParam.Some? && idParam.value != "" {
        isEditMode := true;
        bookId := match ParseInt(idParam.value) case None => NotANumber case Some(n) => Id(n);
        LoadBook(bookId);
      } else {
        loading := false;
      }
    }

    /** The state `loadBook(bookId)` ends in, given the form before it. A `NaN` id matches no
        book, so the store reports it as not found. */
    ghost predicate Loaded(before: Form)
      reads this, bookService
    {
      var r := if bookId.Id? then Catalog.GetBook(bookService.books, bookId.value)
               else Err(Catalog.NotFoundMessage("NaN"));
      !loading
      && match r
         case Ok(b) => form == Patched(before, b) && error == None
         case Err(m) => form == before && error == Some(BookDetail.ErrorText(m, BookDetail.LoadFailedMessage))
    }

    /** `loadBook(id)`: loading with no error while the request is out, then the book patched
        into the form, or the error text. */
    method LoadBook(id: RouteId)
      requires id == bookId && Valid()
      modifies this
      ensures Loaded(old(form)) && Valid()
      ensures isEditMode == old(isEditMode) && bookId == old(bookId) && isSubmitting == old(isSubmitting)
    {
      loading := true;
      error := None;
      var r: Result<BookModel.Book>;
      if id.Id? {
        r := bookService.GetBook(id.value);
      } else {
        r := Err(Catalog.NotFoundMessage("NaN"));
      }
      match r {
        case Ok(b) =>
          PatchedConsistent(form, b);
          form := Patched(form, b);
        case Err(m) =>
          error := Some(BookDetail.ErrorText(m, BookDetail.LoadFailedMessage));
      }
      loading := false;
    }

    /** The user edits a control: it takes the value, is validated again and becomes dirty. */
    method Input(name: Field, v: Value)
      requires Valid() && name in form
      modifies this
      ensures Valid()
      ensures form == old(form)[name := Control(v, Validate(name, v), true, old(form)[name].touched)]
      ensures isEditMode == old(isEditMode) && bookId == old(bookId) && loading == old(loading)
      ensures error == old(error) && isSubmitting == old(isSubmitting)
    {
      form := form[name := Control(v, Validate(name, v), true, form[name].touched)];
    }

    /** The `forEach` of `onSubmit` over the controls: each one is marked touched. */
    method MarkAllControlsTouched()
      requires Valid()
      modifies this
      ensures form == MarkAllTouched(old(form)) && Valid()
      ensures isEditMode == old(isEditMode) && bookId == old(bookId) && loading == old(loading)
      ensures error == old(error) && isSubmitting == old(isSubmitting)
    {
      var marked := form;
      var pending := form.Keys;
      while pending != {}
        invariant pending <= marked.Keys && marked.Keys == form.Keys
        invariant forall n :: n in marked ==> marked[n] == if n in pending then form[n] else form[n].(touched := true)
        decreases pending
      {
        var name :| name in pending;
        marked := marked[name := marked[name].(touched := true)];
        pending := pending - {name};
      }
      assert marked == MarkAllTouched(form);
      form := marked;
    }

    /** `onSubmit()`. An invalid form has every control marked touched and nothing is sent.
        Otherwise the normalised value goes to `updateBook(bookId, ...)` in edit mode with a
        truthy id and to `addBook(...)` in every other case; either way `isSubmitting` ends
        false. */
    method OnSubmit() returns (outcome: SubmitOutcome)
      requires Valid() && bookService.Valid()
      modifies this, bookService
      ensures Valid() && bookService.Valid()
      ensures isEditMode == old(isEditMode) && bookId == old(bookId) && loading == old(loading)
      ensures error == old(error)
      ensures FormInvalid(old(form)) ==>
        outcome == MarkedTouched && form == MarkAllTouched(old(form)) && isSubmitting == old(isSubmitting)
        && bookService.books == old(bookService.books) && bookService.nextId == old(bookService.nextId)
      ensures !FormInvalid(old(form)) ==> form == old(form) && !isSubmitting
      ensures !FormInvalid(old(form)) && isEditMode && UsableId(bookId) ==>
        var data := BookModel.WithId(Submitted(old(form)), bookId.value);
        bookService.nextId == old(bookService.nextId)
        && match Catalog.IndexOf(old(bookService.books), bookId.value)
           case None => outcome == UpdateFailedAlert && bookService.books == old(bookService.books)
           case Some(i) => outcome == NavigateToBook(bookId.value) && bookService.books == old(bookService.books)[i := data]
      ensures !FormInvalid(old(form)) && !(isEditMode && UsableId(bookId)) ==>
        var added := BookModel.WithId(Submitted(old(form)), old(bookService.nextId));
        outcome == NavigateToBook(added.id)
        && bookService.books == old(bookService.books) + [added] && bookService.nextId == old(bookService.nextId) + 1
    {
      if FormInvalid(form) {
        MarkAllControlsTouched();
        return MarkedTouched;
      }
      isSubmitting := true;
      var data := Submitted(form);
      if isEditMode && UsableId(bookId) {
        var r := bookService.UpdateBook(bookId.value, data);
        outcome := if r.Ok? then NavigateToBook(r.value.id) else UpdateFailedAlert;
      } else {
        var b := bookService.AddBook(data);
        outcome := NavigateToBook(b.id);
      }
      isSubmitting := false;
    }
  }
}
