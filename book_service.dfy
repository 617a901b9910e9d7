/** The in-memory book store: the book list and the id counter that `BookService` keeps, and
    its operations. Reads are answered from the `Catalog` functions; writes replace the list. */
module BookStore {
  import opened Common
  import opened Text
  import opened BookModel
  import opened Collections
  import opened Sorting
  import opened Catalog

  /** A seeded book: every optional field is present. */
  function Seed(id: int, title: string, author: string, isbn: string, date: string,
                cover: string, description: string, genre: string, pages: real,
                publisher: string, rating: real, price: real, featured: bool): (b: Book)
    ensures b.id == id
  {
    Book(id, title, author, isbn, date, Some(cover), Some(description), Some(genre), Some(pages),
         Some(publisher), Some(rating), Some(price), featured)
  }

  const SeedBook1 := Seed(1, "To Kill a Mockingbird", "Harper Lee", "9780061120084", "1960-07-11",
        "https://images.pexels.com/photos/1907785/pexels-photo-1907785.jpeg?auto=compress&cs=tinysrgb&w=400",
        "A novel about a young girl whose father defends a black man accused of rape in the Depression-era South.",
        "Classic", 336.0, "HarperCollins", 4.8, 12.99, true)

  const SeedBook2 := Seed(2, "1984", "George Orwell", "9780451524935", "1949-06-08",
        "https://images.pexels.com/photos/1765033/pexels-photo-1765033.jpeg?auto=compress&cs=tinysrgb&w=400",
        "A dystopian novel set in a totalitarian society where the government controls everything, including thought.",
        "Science Fiction", 328.0, "Penguin Books", 4.7, 13.99, true)

  const SeedBook3 := Seed(3, "The Great Gatsby", "F. Scott Fitzgerald", "9780743273565", "1925-04-10",
        "https://images.pexels.com/photos/1907785/pexels-photo-1907785.jpeg?auto=compress&cs=tinysrgb&w=400&h=400",
        "A novel depicting the Roaring Twenties and one man's pursuit of the American Dream.",
        "Classic", 180.0, "Scribner", 4.5, 11.99, false)

  const SeedBook4 := Seed(4, "Pride and Prejudice", "Jane Austen", "9780141439518", "1813-01-28",
        "https://images.pexels.com/photos/1765033/pexels-photo-1765033.jpeg?auto=compress&cs=tinysrgb&w=400&h=400",
        "A romantic novel about the relationship between Elizabeth Bennet and Mr. Darcy.",
        "Classic", 432.0, "Penguin Classics", 4.6, 10.99, true)

  const SeedBook5 := Seed(5, "The Catcher in the Rye", "J.D. Salinger", "9780316769488", "1951-07-16",
        "https://images.pexels.com/photos/1907785/pexels-photo-1907785.jpeg?auto=compress&cs=tinysrgb&w=400&h=400",
        "A novel about a teenager's experiences in New York City after being expelled from prep school.",
        "Classic", 277.0, "Little, Brown and Company", 4.3, 9.99, false)

  const SeedBook6 := Seed(6, "Clean Code", "Robert C. Martin", "9780132350884", "2008-08-01",
        "https://images.pexels.com/photos/270348/pexels-photo-270348.jpeg?auto=compress&cs=tinysrgb&w=400",
        "A handbook of agile software craftsmanship with practical advice for writing clean, maintainable code.",
        "Programming", 464.0, "Prentice Hall", 4.4, 42.99, true)

  const SeedBook7 := Seed(7, "The Intelligent Investor", "Benjamin Graham", "9780060555665", "1949-01-01",
        "https://images.pexels.com/photos/590020/pexels-photo-590020.jpeg?auto=compress&cs=tinysrgb&w=400",
        "The definitive book on value investing and a roadmap to financial success.",
        "Finance", 640.0, "Harper Business", 4.6, 18.99, true)

  const SeedBook8 := Seed(8, "Atomic Habits", "James Clear", "9780735211292", "2018-10-16",
        "https://images.pexels.com/photos/1181244/pexels-photo-1181244.jpeg?auto=compress&cs=tinysrgb&w=400",
        "An easy and proven way to build good habits and break bad ones.",
        "Self-Help", 320.0, "Avery", 4.7, 16.99, true)

  /** The eight books the store starts with, in id order. */
  function SeedBooks(): (r: seq<Book>)
    ensures |r| == 8
    ensures forall i :: 0 <= i < |r| ==> r[i].id == i + 1
  {
    [SeedBook1, SeedBook2, SeedBook3, SeedBook4, SeedBook5, SeedBook6, SeedBook7, SeedBook8]
  }

  /** The first id the store hands out. */
  const SeedNextId := 9

  /** What a successful purchase reports: the book's title and price. */
  datatype Receipt = Receipt(title: string, price: Option<real>)

  const PaymentFailedMessage := "Payment processing failed. Please try again."

  /** Ids that differ position by position and all lie below the counter: the next id handed
      out is fresh. */
  predicate StoreInvariant(books: seq<Book>, nextId: int) {
    UniqueIds(books) && forall i :: 0 <= i < |books| ==> books[i].id < nextId
  }

  /** The seeded store satisfies the invariant. */
  lemma SeedInvariant()
    ensures StoreInvariant(SeedBooks(), SeedNextId)
  {
    var s := SeedBooks();
    forall i, j | 0 <= i < j < |s| ensures s[i].id != s[j].id {
      assert s[i].id == i + 1 && s[j].id == j + 1;
    }
  }

  /** Appending a book with the counter's id and bumping the counter keeps the invariant, and
      the new book is then what `getBook` finds under its id. */
  lemma AppendKeepsInvariant(books: seq<Book>, nextId: int, b: Book)
    requires StoreInvariant(books, nextId) && b.id == nextId
    ensures StoreInvariant(books + [b], nextId + 1)
    ensures GetBook(books + [b], b.id) == Ok(b)
  {
    var s := books + [b];
    forall k | 0 <= k < |books| ensures s[k].id != b.id {
      assert s[k] == books[k];
    }
    IndexOfFirst(s, |books|);
  }

  /** Replacing the first book with an id by another book with the same id keeps the invariant,
      and `getBook` then finds the replacement. */
  lemma ReplaceKeepsInvariant(books: seq<Book>, nextId: int, i: nat, b: Book)
    requires StoreInvariant(books, nextId) && i < |books| && books[i].id == b.id
    ensures StoreInvariant(books[i := b], nextId)
    ensures GetBook(books[i := b], b.id) == Ok(b)
  {
    var s := books[i := b];
    forall k | 0 <= k < i ensures s[k].id != s[i].id {
      assert s[k] == books[k];
    }
    IndexOfFirst(s, i);
  }

  /** Splicing a book out keeps the invariant, and its id is then unknown. */
  lemma RemoveKeepsInvariant(books: seq<Book>, nextId: int, i: nat)
    requires StoreInvariant(books, nextId) && i < |books|
    ensures StoreInvariant(books[..i] + books[i + 1..], nextId)
    ensures GetBook(books[..i] + books[i + 1..], books[i].id).Err?
  {
    var s := books[..i] + books[i + 1..];
    forall k | 0 <= k < |s| ensures s[k] == books[if k < i then k else k + 1] {
    }
    RemovedIdIsGone(books, i);
  }

  class BookService {
    var books: seq<Book>
    var nextId: int

    ghost predicate Valid()
      reads this
    {
      StoreInvariant(books, nextId)
    }

    constructor()
      ensures books == SeedBooks() && nextId == SeedNextId
      ensures Valid()
    {
      books := SeedBooks();
      nextId := SeedNextId;
      SeedInvariant();
    }

    /** `getBooks(filter)`: the filter stages, then an in-place sort of a fresh copy. */
    method GetBooks(filter: Option<BookFilter>) returns (r: seq<Book>)
      ensures r == Query(books, filter)
    {
      if filter.None? {
        return books;
      }
      var f := filter.value;
      var selected := GenreStage(SearchStage(books, f.searchTerm), f.genre);
      if f.sortBy.None? {
        return selected;
      }
      var a := new Book[|selected|](i requires 0 <= i < |selected| => selected[i]);
      assert a[..] == selected;
      SortArray(a, Precedes(f.sortBy.value, IsDesc(f)));
      r := a[..];
    }

    /** `getBook(id)`. */
    method GetBook(id: int) returns (r: Result<Book>)
      ensures r == Catalog.GetBook(books, id)
      ensures r.Ok? <==> exists k :: 0 <= k < |books| && books[k].id == id
      ensures r.Ok? ==> r.value.id == id && r.value in books
      ensures r.Err? ==> r.message == NotFoundMessage(IntToString(id))
    {
      r := Catalog.GetBook(books, id);
    }

    /** `getFeaturedBooks(limit)`; the caller passes `DefaultFeaturedLimit` for the default. */
    method GetFeaturedBooks(limit: int) returns (r: seq<Book>)
      ensures r == Featured(books, limit)
    {
      r := Featured(books, limit);
    }

    /** `addBook(book)`: the book gets the counter's id, the counter moves on, and the book is
        appended. */
    method AddBook(input: BookInput) returns (b: Book)
      requires Valid()
      modifies this
      ensures b == WithId(input, old(nextId))
      ensures books == old(books) + [b] && nextId == old(nextId) + 1
      ensures Valid() && Catalog.GetBook(books, b.id) == Ok(b)
    {
      b := WithId(input, nextId);
      AppendKeepsInvariant(books, nextId, b);
      books := books + [b];
      nextId := nextId + 1;
    }

    /** `createBook(bookData)`: the same as `addBook`. */
    method CreateBook(input: BookInput) returns (b: Book)
      requires Valid()
      modifies this
      ensures b == WithId(input, old(nextId))
      ensures books == old(books) + [b] && nextId == old(nextId) + 1
      ensures Valid() && Catalog.GetBook(books, b.id) == Ok(b)
    {
      b := AddBook(input);
    }

    /** `updateBook(id, book)`: the first book with the id is replaced by the submitted fields
        under the same id; an unknown id is an error and changes nothing. */
    method UpdateBook(id: int, input: BookInput) returns (r: Result<Book>)
      requires Valid()
      modifies this
      ensures nextId == old(nextId) && Valid()
      ensures match IndexOf(old(books), id)
        case None => r == Err(NotFoundMessage(IntToString(id))) && books == old(books)
        case Some(i) => r == Ok(WithId(input, id)) && books == old(books)[i := WithId(input, id)]
      ensures r.Ok? ==> Catalog.GetBook(books, id) == r
    {
      match IndexOf(books, id)
      case None =>
        r := Err(NotFoundMessage(IntToString(id)));
      case Some(i) =>
        var updated := WithId(input, id);
        ReplaceKeepsInvariant(books, nextId, i, updated);
        books := books[i := updated];
        r := Ok(updated);
    }

    /** `deleteBook(id)`: the first book with the id is spliced out; an unknown id is an error
        and changes nothing. */
    method DeleteBook(id: int) returns (r: Result<Unit>)
      requires Valid()
      modifies this
      ensures nextId == old(nextId) && Valid()
      ensures match IndexOf(old(books), id)
        case None => r == Err(NotFoundMessage(IntToString(id))) && books == old(books)
        case Some(i) => r == Ok(Unit) && books == old(books)[..i] + old(books)[i + 1..]
      ensures Catalog.GetBook(books, id).Err?
    {
      match IndexOf(books, id)
      case None =>
        r := Err(NotFoundMessage(IntToString(id)));
      case Some(i) =>
        RemoveKeepsInvariant(books, nextId, i);
        books := books[..i] + books[i + 1..];
        r := Ok(Unit);
    }

    /** `purchaseBook(bookId)`. The random draw `Math.random() > 0.1` is the parameter
        `paymentSucceeds`; an unknown id fails before any draw matters. */
    method PurchaseBook(bookId: int, paymentSucceeds: bool) returns (r: Result<Receipt>)
      ensures !(exists k :: 0 <= k < |books| && books[k].id == bookId) ==>
        r == Err(NotFoundMessage(IntToString(bookId)))
      ensures (exists k :: 0 <= k < |books| && books[k].id == bookId) && !paymentSucceeds ==>
        r == Err(PaymentFailedMessage)
      ensures r.Ok? <==> paymentSucceeds && exists k :: 0 <= k < |books| && books[k].id == bookId
      ensures r.Ok? ==> exists b :: b in books && b.id == bookId && r.value == Receipt(b.title, b.price)
    {
      match Catalog.GetBook(books, bookId)
      case Err(message) =>
        r := Err(message);
      case Ok(b) =>
        if paymentSucceeds {
          r := Ok(Receipt(b.title, b.price));
        } else {
          r := Err(PaymentFailedMessage);
        }
    }

    /** `getGenres()`. */
    method GetGenres() returns (r: seq<string>)
      ensures forall g :: g in r <==> g != "" && exists b :: b in books && b.genre == Some(g)
      ensures NoDuplicates(r)
      ensures r == Genres(books)
    {
      r := Genres(books);
    }

    /** `getBooksByGenre(genre)`. */
    method GetBooksByGenre(genre: string) returns (r: seq<Book>)
      ensures r == BooksByGenre(books, genre)
    {
      r := BooksByGenre(books, genre);
    }

    /** `searchBooks(searchTerm)`. */
    method SearchBooks(searchTerm: string) returns (r: seq<Book>)
      ensures r == Catalog.SearchBooks(books, searchTerm)
    {
      r := Catalog.SearchBooks(books, searchTerm);
    }
  }
}
