/** The book detail view: it reads the id from the route, loads that book from the store, and
    can delete it after a confirmation. */
module BookDetail {
  import opened Common
  import opened Text
  import opened BookModel
  import opened Catalog
  import opened BookStore
  import opened BookDisplay

  const MissingIdMessage := "Book ID is missing"
  const InvalidIdMessage := "Invalid Book ID"
  const LoadFailedMessage := "Failed to load book details"

  /** `error.message || fallback`: an empty message is replaced by the fallback. */
  function ErrorText(message: string, fallback: string): (r: string)
    ensures message != "" ==> r == message
    ensures message == "" ==> r == fallback
    ensures fallback != "" ==> r != ""
  {
    if message != "" then message else fallback
  }

  /** What the view does after the user answers the confirmation. */
  datatype DeleteOutcome = NoAction | NavigateToList | DeleteFailedAlert

  class BookDetailComponent {
    var book: Option<Book>
    var loading: bool
    var error: Option<string>
    var isVisible: bool
    /** A reveal timer has been started by a successful load. */
    var revealScheduled: bool
    const bookService: BookService

    constructor(service: BookService)
      ensures bookService == service
      ensures book == None && loading && error == None && !isVisible && !revealScheduled
    {
      bookService := service;
      book := None;
      loading := true;
      error := None;
      isVisible := false;
      revealScheduled := false;
    }

    /** The route handler of `ngOnInit`: a missing or empty id and an id `parseInt` cannot
        read stop with an error and load nothing; any other id is loaded. */
    method NgOnInit(idParam: Option<string>)
      modifies this
      ensures !loading
      ensures idParam.None? || idParam == Some("") ==>
        error == Some(MissingIdMessage) && book == old(book) && revealScheduled == old(revealScheduled)
      ensures idParam.Some? && idParam.value != "" && ParseInt(idParam.value).None? ==>
        error == Some(InvalidIdMessage) && book == old(book) && revealScheduled == old(revealScheduled)
      ensures idParam.Some? && idParam.value != "" && ParseInt(idParam.value).Some? ==>
        Loaded(ParseInt(idParam.value).value, old(book), old(revealScheduled))
      ensures isVisible == old(isVisible)
    {
      if idParam.None? || idParam.value == "" {
        error := Some(MissingIdMessage);
        loading := false;
        return;
      }
      var id := ParseInt(idParam.value);
      if id.None? {
        error := Some(InvalidIdMessage);
        loading := false;
        return;
      }
      LoadBook(id.value);
    }

    /** The state `loadBook(id)` ends in, given the book and timer state before it. */
    ghost predicate Loaded(id: int, oldBook: Option<Book>, oldScheduled: bool)
      reads this, bookService
    {
      !loading
      && match Catalog.GetBook(bookService.books, id)
         case Ok(b) => book == Some(b) && error == None && revealScheduled
         case Err(m) => error == Some(ErrorText(m, LoadFailedMessage)) && book == oldBook && revealScheduled == oldScheduled
    }

    /** The synchronous part of `loadBook`: loading, no error, before the request goes out. */
    method StartLoad()
      modifies this
      ensures loading && error == None
      ensures book == old(book) && isVisible == old(isVisible) && revealScheduled == old(revealScheduled)
    {
      loading := true;
      error := None;
    }

    /** The success callback: the book is shown and the reveal timer started. */
    method OnBookLoaded(b: Book)
      modifies this
      ensures book == Some(b) && !loading && revealScheduled
      ensures error == old(error) && isVisible == old(isVisible)
    {
      book := Some(b);
      loading := false;
      revealScheduled := true;
    }

    /** The error callback: the message, or the fallback text when it is empty. */
    method OnLoadFailed(message: string)
      modifies this
      ensures error == Some(ErrorText(message, LoadFailedMessage)) && !loading
      ensures book == old(book) && isVisible == old(isVisible) && revealScheduled == old(revealScheduled)
    {
      error := Some(ErrorText(message, LoadFailedMessage));
      loading := false;
    }

    /** `loadBook(id)`: the request and its answer, which the store gives at once. */
    method LoadBook(id: int)
      modifies this
      ensures Loaded(id, old(book), old(revealScheduled))
      ensures isVisible == old(isVisible)
    {
      StartLoad();
      var r := bookService.GetBook(id);
      match r
      case Ok(b) =>
        OnBookLoaded(b);
      case Err(m) =>
        OnLoadFailed(m);
    }

    /** The timer callback: a started reveal makes the view visible. */
    method OnRevealTimer()
      modifies this
      ensures isVisible == (old(isVisible) || old(revealScheduled))
      ensures book == old(book) && loading == old(loading) && error == old(error)
      ensures revealScheduled == old(revealScheduled)
    {
      if revealScheduled {
        isVisible := true;
      }
    }

    /** `formatIsbn(isbn)`, the same code as the card's. */
    method FormatIsbn(isbn: string) returns (r: string)
      ensures r == BookDisplay.FormatIsbn(isbn)
      ensures |isbn| == IsbnLength && AllDigits(isbn) ==> r == Hyphenate(isbn)
    {
      r := BookDisplay.FormatIsbn(isbn);
      if |isbn| == IsbnLength && AllDigits(isbn) {
        FormatIsbnOfIsbn(isbn);
      }
    }

    /** `getStars(rating)`, the same code as the card's. */
    method GetStars(rating: real) returns (r: seq<real>)
      ensures r == Stars(rating)
      ensures 0.0 <= rating <= 5.0 ==> |r| == 5
    {
      r := BuildStars(rating);
      if 0.0 <= rating <= 5.0 {
        StarsOnScale(rating);
      }
    }

    /** `deleteBook()`: nothing without a book or without confirmation; otherwise the store
        deletes the shown book's id, and the view goes back to the list or alerts. */
    method DeleteBook(confirmed: bool) returns (outcome: DeleteOutcome)
      requires bookService.Valid()
      modifies bookService
      ensures bookService.Valid()
      ensures bookService.nextId == old(bookService.nextId)
      ensures book.None? || !confirmed ==>
        outcome == NoAction && bookService.books == old(bookService.books)
      ensures book.Some? && confirmed ==>
        match IndexOf(old(bookService.books), book.value.id)
        case None => outcome == DeleteFailedAlert && bookService.books == old(bookService.books)
        case Some(i) =>
          (outcome == NavigateToList
           && bookService.books == old(bookService.books)[..i] + old(bookService.books)[i + 1..])
      ensures book.Some? && confirmed ==> Catalog.GetBook(bookService.books, book.value.id).Err?
    {
      if book.None? || !confirmed {
        return NoAction;
      }
      var r := bookService.DeleteBook(book.value.id);
      outcome := if r.Ok? then NavigateToList else DeleteFailedAlert;
    }
  }
}
