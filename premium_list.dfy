/** The second catalogue view, over the book record with a premium flag: its in-place sort,
    its access rule for premium books and its purchase decision. The session (who is signed in
    and which books they may open) belongs to an authentication service outside this model and
    is passed in. */
module PremiumList {
  import opened Common
  import opened Text
  import opened Sorting

  /** The premium catalogue's book. Its publication date is a date, kept as its time value in
      milliseconds. */
  datatype PremiumBook = PremiumBook(
    id: int,
    title: string,
    author: string,
    isbn: string,
    publicationTime: int,
    description: Option<string>,
    coverImage: Option<string>,
    isPremium: bool,
    price: Option<real>,
    genre: Option<string>,
    rating: Option<real>,
    pages: Option<int>)

  /** What the authentication service answers: whether someone is signed in, and the ids its
      `hasAccessToBook` grants. */
  datatype Session = Session(authenticated: bool, accessible: set<int>)

  // ---------------------------------------------------------------- sort orders

  /** `b.rating || 0`. */
  function RatingOrZero(b: PremiumBook): real {
    if b.rating.Some? then b.rating.value else 0.0
  }

  /** The four comparators of `applySort`, read by sign: `a` may stay before `b`. */
  function TitleOrder(): (PremiumBook, PremiumBook) -> bool {
    (a: PremiumBook, b: PremiumBook) => StrLe(a.title, b.title)
  }

  function AuthorOrder(): (PremiumBook, PremiumBook) -> bool {
    (a: PremiumBook, b: PremiumBook) => StrLe(a.author, b.author)
  }

  /** `(b.rating || 0) - (a.rating || 0)`: highest rating first. */
  function RatingOrder(): (PremiumBook, PremiumBook) -> bool {
    (a: PremiumBook, b: PremiumBook) => RatingOrZero(b) - RatingOrZero(a) <= 0.0
  }

  /** `b.publicationDate - a.publicationDate` in time values: newest first. */
  function DateOrder(): (PremiumBook, PremiumBook) -> bool {
    (a: PremiumBook, b: PremiumBook) => b.publicationTime - a.publicationTime <= 0
  }

  /** The comparator a sort key selects; the switch has no default, so any other key selects
      none. */
  function OrderFor(key: string): (r: Option<(PremiumBook, PremiumBook) -> bool>)
    ensures r.Some? <==> key in {"title", "author", "rating", "date"}
  {
    if key == "title" then Some(TitleOrder())
    else if key == "author" then Some(AuthorOrder())
    else if key == "rating" then Some(RatingOrder())
    else if key == "date" then Some(DateOrder())
    else None
  }

  /** The list `applySort` leaves: sorted by the key's comparator, or unchanged. */
  function SortedList(s: seq<PremiumBook>, key: string): seq<PremiumBook> {
    match OrderFor(key)
    case None => s
    case Some(le) => Sort(s, le)
  }

  /** Sorting only permutes the list, for every key. */
  lemma SortedListPermutes(s: seq<PremiumBook>, key: string)
    ensures multiset(SortedList(s, key)) == multiset(s)
  {
    if OrderFor(key).Some? {
      SortPermutes(s, OrderFor(key).value);
    }
  }

  lemma OrdersConsistent(s: seq<PremiumBook>)
    ensures PreorderOn(s, TitleOrder()) && PreorderOn(s, AuthorOrder())
    ensures PreorderOn(s, RatingOrder()) && PreorderOn(s, DateOrder())
  {
    forall a, b | a in s && b in s ensures StrLe(a.title, b.title) || StrLe(b.title, a.title) {
      StrLeTotal(a.title, b.title);
    }
    forall a, b | a in s && b in s ensures StrLe(a.author, b.author) || StrLe(b.author, a.author) {
      StrLeTotal(a.author, b.author);
    }
    forall a, b, c | a in s && b in s && c in s && StrLe(a.title, b.title) && StrLe(b.title, c.title)
      ensures StrLe(a.title, c.title)
    {
      StrLeTransitive(a.title, b.title, c.title);
    }
    forall a, b, c | a in s && b in s && c in s && StrLe(a.author, b.author) && StrLe(b.author, c.author)
      ensures StrLe(a.author, c.author)
    {
      StrLeTransitive(a.author, b.author, c.author);
    }
  }

  /** After `applySort`, titles and authors ascend in string order, ratings (a missing one
      counting as 0) descend, and dates run from the newest. */
  lemma SortedListOrders(s: seq<PremiumBook>, key: string)
    ensures var r := SortedList(s, key);
      (key == "title" ==> forall i, j :: 0 <= i < j < |r| ==> StrLe(r[i].title, r[j].title))
      && (key == "author" ==> forall i, j :: 0 <= i < j < |r| ==> StrLe(r[i].author, r[j].author))
      && (key == "rating" ==> forall i, j :: 0 <= i < j < |r| ==> RatingOrZero(r[i]) >= RatingOrZero(r[j]))
      && (key == "date" ==> forall i, j :: 0 <= i < j < |r| ==> r[i].publicationTime >= r[j].publicationTime)
  {
    OrdersConsistent(s);
    match OrderFor(key)
    case None =>
    case Some(le) =>
      SortSorted(s, le);
  }

  // ---------------------------------------------------------------- access and purchase

  /** `hasAccessToBook(book)`: free books are open to everyone, premium books only to a
      signed-in user whom the authentication service grants access. */
  function HasAccessToBook(book: PremiumBook, session: Session): (r: bool)
    ensures r <==> !book.isPremium || (session.authenticated && book.id in session.accessible)
  {
    if !book.isPremium then true
    else if !session.authenticated then false
    else book.id in session.accessible
  }

  /** What `purchaseBook(book)` does: send a signed-out user to the login page with a return
      address, or ask the authentication service to buy the book. */
  datatype PurchaseAction = NavigateToLogin(path: string, returnUrl: string) | RequestPurchase(bookId: int)

  const LoginPath := "/auth/login"
  const BookPathPrefix := "/books/"

  function PurchaseDecision(book: PremiumBook, session: Session): (r: PurchaseAction)
    ensures !session.authenticated <==> r.NavigateToLogin?
    ensures r.NavigateToLogin? ==> r.path == LoginPath && IsPrefix(BookPathPrefix, r.returnUrl)
    ensures r.RequestPurchase? ==> r.bookId == book.id
  {
    if !session.authenticated then NavigateToLogin(LoginPath, BookPathPrefix + IntToString(book.id))
    else RequestPurchase(book.id)
  }

  /** The return address names the book: its id segment reads back as the id. */
  lemma ReturnUrlNamesBook(book: PremiumBook, session: Session)
    requires !session.authenticated
    ensures var url := PurchaseDecision(book, session).returnUrl;
      |url| > |BookPathPrefix| && ParseInt(url[|BookPathPrefix|..]) == Some(book.id)
  {
    var url := PurchaseDecision(book, session).returnUrl;
    assert url[|BookPathPrefix|..] == IntToString(book.id) + "";
    ParseIntOfIntToString(book.id, "");
  }

  class BookListComponent {
    var books: array<PremiumBook>
    var currentSort: string

    /** `books = []` and `currentSort = 'title'`. */
    constructor()
      ensures fresh(books) && books.Length == 0 && currentSort == "title"
    {
      books := new PremiumBook[0];
      currentSort := "title";
    }

    /** The callback `books => { this.books = books; this.applySort(); }` that every load of
        the list runs: the loaded books become the list, sorted by the current key. */
    method OnBooksLoaded(loaded: seq<PremiumBook>)
      modifies this
      ensures fresh(books) && currentSort == old(currentSort)
      ensures books[..] == SortedList(loaded, currentSort)
      ensures multiset(books[..]) == multiset(loaded)
    {
      books := new PremiumBook[|loaded|](i requires 0 <= i < |loaded| => loaded[i]);
      assert books[..] == loaded;
      ApplySort();
    }

    /** `applySort()`: sorts `books` in place with the comparator of `currentSort`; an unknown
        key leaves the array as it is. */
    method ApplySort()
      modifies books
      ensures books[..] == SortedList(old(books[..]), currentSort)
      ensures multiset(books[..]) == multiset(old(books[..]))
    {
      match OrderFor(currentSort) {
        case None =>
        case Some(le) =>
          SortArray(books, le);
      }
      SortedListPermutes(old(books[..]), currentSort);
    }
  }
}
