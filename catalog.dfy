/** The read side of the book store as pure functions of the stored sequence: the three-stage
    listing query of `getBooks` (search, genre, sort) and the smaller look-ups `getBook`,
    `findIndex`, `getFeaturedBooks`, `getGenres`, `getBooksByGenre` and `searchBooks`. */
module Catalog {
  import opened Common
  import opened Text
  import opened BookModel
  import opened Collections
  import opened Sorting

  // ---------------------------------------------------------------- search and genre stages

  /** The `getBooks` search: the lower-cased title, author or ISBN includes the lower-cased
      term. Genre and description are not searched here. */
  predicate MatchesSearch(b: Book, term: string) {
    var t := Lower(term);
    Contains(Lower(b.title), t) || Contains(Lower(b.author), t) || Contains(Lower(b.isbn), t)
  }

  /** `book.genre === genre`: case-sensitive, and a book without a genre never matches. */
  predicate HasGenre(b: Book, genre: string) {
    b.genre == Some(genre)
  }

  /** A filter field takes effect only when it is truthy, that is present and non-empty. */
  predicate Active(field: Option<string>) {
    field.Some? && field.value != ""
  }

  function SearchStage(books: seq<Book>, term: Option<string>): seq<Book> {
    if Active(term) then Filter(books, b => MatchesSearch(b, term.value)) else books
  }

  function GenreStage(books: seq<Book>, genre: Option<string>): seq<Book> {
    if Active(genre) then Filter(books, b => HasGenre(b, genre.value)) else books
  }

  /** The books a filter lets through, whatever the sort. */
  predicate Selected(f: BookFilter, b: Book) {
    (Active(f.searchTerm) ==> MatchesSearch(b, f.searchTerm.value))
    && (Active(f.genre) ==> HasGenre(b, f.genre.value))
  }

  // ---------------------------------------------------------------- sort stage

  /** What `a[filter.sortBy]` reads: a string, a number, or `undefined`. */
  datatype SortValue = StrValue(s: string) | NumValue(x: real) | NoValue

  function SortValueOf(b: Book, key: SortKey): (v: SortValue)
    ensures key.Title? || key.Author? || key.PublicationDate? ==> v.StrValue?
    ensures v.NoValue? <==> (key.Rating? && b.rating.None?) || (key.Price? && b.price.None?)
                            || (key.PageCount? && b.pageCount.None?)
  {
    match key
    case Title => StrValue(b.title)
    case Author => StrValue(b.author)
    case PublicationDate => StrValue(b.publicationDate)
    case Rating => if b.rating.Some? then NumValue(b.rating.value) else NoValue
    case Price => if b.price.Some? then NumValue(b.price.value) else NoValue
    case PageCount => if b.pageCount.Some? then NumValue(b.pageCount.value) else NoValue
  }

  function Sign(x: real): int {
    if x < 0.0 then -1 else if x > 0.0 then 1 else 0
  }

  /** The ascending comparator on two key values, as the sort reads it (by sign): strings
      compare with `localeCompare`, numbers by subtraction; a subtraction involving `undefined`
      is `NaN`, which the sort treats as 0. */
  function CompareValues(u: SortValue, v: SortValue): (c: int)
    ensures -1 <= c <= 1
    ensures u.NoValue? || v.NoValue? ==> c == 0
    ensures u.NumValue? && v.NumValue? ==> (c < 0 <==> u.x < v.x) && (c == 0 <==> u.x == v.x)
  {
    if u.StrValue? && v.StrValue? then StrCompare(u.s, v.s)
    else if u.NumValue? && v.NumValue? then Sign(u.x - v.x)
    else 0
  }

  /** The comparator `getBooks` passes to `sort`; `desc` compares the operands swapped. */
  function Compare(a: Book, b: Book, key: SortKey, desc: bool): (c: int)
    ensures -1 <= c <= 1
    ensures SortValueOf(a, key).NoValue? || SortValueOf(b, key).NoValue? ==> c == 0
  {
    if desc then CompareValues(SortValueOf(b, key), SortValueOf(a, key))
    else CompareValues(SortValueOf(a, key), SortValueOf(b, key))
  }

  /** `a` may stay in front of `b`: the comparator is not positive. */
  function Precedes(key: SortKey, desc: bool): (Book, Book) -> bool {
    (a, b) => Compare(a, b, key, desc) <= 0
  }

  /** Only `'desc'` sorts descending; an absent direction sorts ascending. */
  predicate IsDesc(f: BookFilter) {
    f.sortDirection == Some(Desc)
  }

  function SortStage(books: seq<Book>, f: BookFilter): seq<Book> {
    if f.sortBy.Some? then Sort(books, Precedes(f.sortBy.value, IsDesc(f))) else books
  }

  /** `getBooks(filter)`: search, then genre, then sort, on a copy of the stored books. */
  function Query(books: seq<Book>, filter: Option<BookFilter>): (r: seq<Book>)
    ensures filter.None? ==> r == books
    ensures |r| <= |books|
  {
    match filter
    case None => books
    case Some(f) => SortStage(GenreStage(SearchStage(books, f.searchTerm), f.genre), f)
  }

  // ---------------------------------------------------------------- properties of the query

  lemma {:induction false} FilterThenFilter(s: seq<Book>, p: Book -> bool, q: Book -> bool)
    ensures Filter(Filter(s, p), q) == Filter(s, b => p(b) && q(b))
  {
    if s != [] {
      var init := s[..|s| - 1];
      var last := s[|s| - 1];
      FilterThenFilter(init, p, q);
      FilterAppend(Filter(init, p), if p(last) then [last] else [], q);
      if p(last) {
        assert Filter([last], q) == if q(last) then [last] else [] by {
          assert [last][..0] == [];
        }
      }
    }
  }

  /** The search and genre stages together keep exactly the selected books, in store order. */
  lemma SelectionIsOneFilter(books: seq<Book>, f: BookFilter)
    ensures GenreStage(SearchStage(books, f.searchTerm), f.genre) == Filter(books, b => Selected(f, b))
  {
    var sel := b => Selected(f, b);
    if Active(f.searchTerm) {
      var p := b => MatchesSearch(b, f.searchTerm.value);
      if Active(f.genre) {
        var q := b => HasGenre(b, f.genre.value);
        FilterThenFilter(books, p, q);
        FilterAgrees(books, b => p(b) && q(b), sel);
      } else {
        FilterAgrees(books, p, sel);
      }
    } else if Active(f.genre) {
      FilterAgrees(books, b => HasGenre(b, f.genre.value), sel);
    } else {
      FilterKeepsAll(books, sel);
    }
  }

  /** With a non-empty term, a book is listed iff its lower-cased title, author or ISBN
      includes the lower-cased term (and it passes the genre filter); with a non-empty genre,
      iff its genre equals it exactly. The listing is a permutation of those books, and without
      a sort key it keeps their store order. */
  lemma QueryContents(books: seq<Book>, f: BookFilter)
    ensures forall b :: b in Query(books, Some(f)) <==> b in books && Selected(f, b)
    ensures multiset(Query(books, Some(f))) == multiset(Filter(books, b => Selected(f, b)))
    ensures f.sortBy.None? ==> Query(books, Some(f)) == Filter(books, b => Selected(f, b))
  {
    SelectionIsOneFilter(books, f);
    var selected := Filter(books, b => Selected(f, b));
    if f.sortBy.Some? {
      SortPermutes(selected, Precedes(f.sortBy.value, IsDesc(f)));
      forall b ensures b in Query(books, Some(f)) <==> b in selected {
        assert b in Query(books, Some(f)) <==> b in multiset(Query(books, Some(f)));
      }
    }
  }

  /** Without a filter object, or with one whose fields are all empty, the listing is the
      store itself in store order. */
  lemma QueryWithoutCriteria(books: seq<Book>, f: BookFilter)
    requires !Active(f.searchTerm) && !Active(f.genre) && f.sortBy.None?
    ensures Query(books, None) == books
    ensures Query(books, Some(f)) == books
  {
  }

  /** The key the sort reads is present (numeric keys may be absent). */
  predicate HasKey(b: Book, key: SortKey) {
    !SortValueOf(b, key).NoValue?
  }

  lemma CompareValuesAntisymmetric(u: SortValue, v: SortValue)
    ensures CompareValues(v, u) == -CompareValues(u, v)
  {
    if u.StrValue? && v.StrValue? {
      StrCompareAntisymmetric(u.s, v.s);
    }
  }

  /** A descending sort uses the ascending comparison negated, that is with its operands
      swapped. */
  lemma DescendingReverses(a: Book, b: Book, key: SortKey)
    ensures Compare(a, b, key, true) == -Compare(a, b, key, false)
    ensures Compare(a, b, key, true) == Compare(b, a, key, false)
  {
    CompareValuesAntisymmetric(SortValueOf(a, key), SortValueOf(b, key));
  }

  /** On books that carry the key, `Precedes` is the ascending (or descending) order of the
      key: string order for title, author and date, numeric order for the others. */
  lemma PrecedesMeaning(a: Book, b: Book, key: SortKey, desc: bool)
    requires HasKey(a, key) && HasKey(b, key)
    ensures key.Title? ==> (Precedes(key, desc)(a, b) <==> if desc then StrLe(b.title, a.title) else StrLe(a.title, b.title))
    ensures key.Author? ==> (Precedes(key, desc)(a, b) <==> if desc then StrLe(b.author, a.author) else StrLe(a.author, b.author))
    ensures key.PublicationDate? ==>
      (Precedes(key, desc)(a, b) <==>
        if desc then StrLe(b.publicationDate, a.publicationDate) else StrLe(a.publicationDate, b.publicationDate))
    ensures key.Price? ==> (Precedes(key, desc)(a, b) <==> if desc then b.price.value <= a.price.value else a.price.value <= b.price.value)
    ensures key.Rating? ==>
      (Precedes(key, desc)(a, b) <==> if desc then b.rating.value <= a.rating.value else a.rating.value <= b.rating.value)
    ensures key.PageCount? ==>
      (Precedes(key, desc)(a, b) <==>
        if desc then b.pageCount.value <= a.pageCount.value else a.pageCount.value <= b.pageCount.value)
  {
  }

  /** On books that all carry the key, the comparator is total and transitive. */
  lemma ComparatorConsistent(s: seq<Book>, key: SortKey, desc: bool)
    requires forall b :: b in s ==> HasKey(b, key)
    ensures PreorderOn(s, Precedes(key, desc))
  {
    var le := Precedes(key, desc);
    forall a, b | a in s && b in s ensures le(a, b) || le(b, a) {
      CompareValuesAntisymmetric(SortValueOf(a, key), SortValueOf(b, key));
    }
    forall a, b, c | a in s && b in s && c in s && le(a, b) && le(b, c) ensures le(a, c) {
      var u, v, w := SortValueOf(a, key), SortValueOf(b, key), SortValueOf(c, key);
      if u.StrValue? {
        if desc {
          StrLeTransitive(w.s, v.s, u.s);
        } else {
          StrLeTransitive(u.s, v.s, w.s);
        }
      }
    }
  }

  /** With a sort key that every selected book carries, the listing is ordered by it
      (ascending, or descending for `'desc'`), and books that tie keep their store order. */
  lemma QuerySorted(books: seq<Book>, f: BookFilter, x: Book)
    requires f.sortBy.Some?
    requires forall b :: b in books && Selected(f, b) ==> HasKey(b, f.sortBy.value)
    requires HasKey(x, f.sortBy.value)
    ensures Sorted(Query(books, Some(f)), Precedes(f.sortBy.value, IsDesc(f)))
    ensures var tie := Ties(x, Precedes(f.sortBy.value, IsDesc(f)));
      Filter(Query(books, Some(f)), tie) == Filter(Filter(books, b => Selected(f, b)), tie)
  {
    SelectionIsOneFilter(books, f);
    var selected := Filter(books, b => Selected(f, b));
    var le := Precedes(f.sortBy.value, IsDesc(f));
    ComparatorConsistent(selected + [x], f.sortBy.value, IsDesc(f));
    PreorderOnSubset(selected, selected + [x], le);
    SortSorted(selected, le);
    SortStable(selected, le, x);
  }

  /** The search never looks at the genre. */
  lemma SearchIgnoresGenre(b: Book, term: string, g: Option<string>)
    ensures MatchesSearch(b.(genre := g), term) == MatchesSearch(b, term)
  {
  }

  // ---------------------------------------------------------------- look-ups by id

  /** `books.findIndex(b => b.id === id)`; `None` stands for -1. */
  function IndexOf(books: seq<Book>, id: int): (r: Option<nat>)
    ensures r.Some? ==> r.value < |books| && books[r.value].id == id
    ensures r.Some? ==> forall k :: 0 <= k < r.value ==> books[k].id != id
    ensures r.None? ==> forall k :: 0 <= k < |books| ==> books[k].id != id
  {
    if books == [] then None
    else if books[0].id == id then Some(0)
    else match IndexOf(books[1..], id)
      case None => None
      case Some(i) => Some(i + 1)
  }

  /** `books.find(b => b.id === id)`: the first book with that id. */
  function FindBook(books: seq<Book>, id: int): (r: Option<Book>)
    ensures r == match IndexOf(books, id) case None => None case Some(i) => Some(books[i])
  {
    if books == [] then None
    else if books[0].id == id then Some(books[0])
    else FindBook(books[1..], id)
  }

  /** The first position holding an id is what `findIndex` returns for it. */
  lemma IndexOfFirst(books: seq<Book>, i: nat)
    requires i < |books|
    requires forall k :: 0 <= k < i ==> books[k].id != books[i].id
    ensures IndexOf(books, books[i].id) == Some(i)
  {
  }

  /** `getBook(id)`: the book, or the error `getBook` raises for an unknown id. */
  function GetBook(books: seq<Book>, id: int): (r: Result<Book>)
    ensures r.Ok? <==> exists k :: 0 <= k < |books| && books[k].id == id
    ensures r.Ok? ==> r.value in books && r.value.id == id
    ensures r.Err? ==> r.message == NotFoundMessage(IntToString(id))
  {
    match FindBook(books, id)
    case None => Err(NotFoundMessage(IntToString(id)))
    case Some(b) => Ok(b)
  }

  /** The message of the error every by-id operation raises on an unknown id. */
  function NotFoundMessage(idText: string): string {
    "Book with id " + idText + " not found"
  }

  predicate UniqueIds(books: seq<Book>) {
    forall i, j :: 0 <= i < j < |books| ==> books[i].id != books[j].id
  }

  /** Once the only book with an id is spliced out, looking the id up fails. */
  lemma RemovedIdIsGone(books: seq<Book>, i: nat)
    requires i < |books| && UniqueIds(books)
    ensures GetBook(books[..i] + books[i + 1..], books[i].id).Err?
  {
    var rest := books[..i] + books[i + 1..];
    forall k | 0 <= k < |rest| ensures rest[k].id != books[i].id {
      if k < i {
        assert rest[k] == books[k];
      } else {
        assert rest[k] == books[k + 1];
      }
    }
  }

  // ---------------------------------------------------------------- smaller queries

  /** The default of `getFeaturedBooks(limit)`. */
  const DefaultFeaturedLimit := 6

  predicate IsFeatured(b: Book) {
    b.isFeatured
  }

  /** Every featured book, in store order. */
  function AllFeatured(books: seq<Book>): (r: seq<Book>)
    ensures forall b :: b in r <==> b in books && b.isFeatured
  {
    Filter(books, IsFeatured)
  }

  /** `getFeaturedBooks(limit)`: the featured books in store order, cut by `slice(0, limit)`. */
  function Featured(books: seq<Book>, limit: int): (r: seq<Book>)
    ensures limit >= 0 ==> |r| <= limit
    ensures forall b :: b in r ==> b in books && b.isFeatured
    ensures |r| <= |AllFeatured(books)| && r == AllFeatured(books)[..|r|]
  {
    SliceTo(AllFeatured(books), limit)
  }

  /** With a non-negative limit, it is all featured books when there are at most `limit` of
      them, and otherwise exactly `limit` of them. */
  lemma FeaturedCount(books: seq<Book>, limit: nat)
    ensures var all := AllFeatured(books);
      if |all| <= limit then Featured(books, limit) == all else |Featured(books, limit)| == limit
  {
  }

  /** The non-empty genres of the books, in store order, with repeats. */
  function PresentGenres(books: seq<Book>): (r: seq<string>)
    ensures forall g :: g in r <==> g != "" && exists b :: b in books && b.genre == Some(g)
  {
    if books == [] then []
    else
      var init := PresentGenres(books[..|books| - 1]);
      var last := books[|books| - 1];
      assert forall b :: b in books <==> b in books[..|books| - 1] || b == last;
      if last.genre.Some? && last.genre.value != "" then init + [last.genre.value] else init
  }

  /** `getGenres()`: each non-empty genre present in the store exactly once, in order of first
      occurrence. */
  function Genres(books: seq<Book>): (r: seq<string>)
    ensures forall g :: g in r <==> g != "" && exists b :: b in books && b.genre == Some(g)
    ensures NoDuplicates(r)
  {
    Distinct(PresentGenres(books))
  }

  lemma GenresInFirstOccurrenceOrder(books: seq<Book>, i: nat, j: nat)
    requires i < j < |Genres(books)|
    ensures FirstIndex(PresentGenres(books), Genres(books)[i]) < FirstIndex(PresentGenres(books), Genres(books)[j])
  {
    DistinctKeepsFirstOccurrenceOrder(PresentGenres(books), i, j);
  }

  /** `getBooksByGenre(genre)`: genre compared case-insensitively; books without one never match. */
  predicate GenreMatchesIgnoringCase(b: Book, genre: string) {
    b.genre.Some? && Lower(b.genre.value) == Lower(genre)
  }

  function BooksByGenre(books: seq<Book>, genre: string): (r: seq<Book>)
    ensures forall b :: b in r <==> b in books && GenreMatchesIgnoringCase(b, genre)
  {
    Filter(books, b => GenreMatchesIgnoringCase(b, genre))
  }

  /** `searchBooks(term)`: title, author, description or genre includes the term, all
      lower-cased; unlike `getBooks` it ignores the ISBN and reads the genre. */
  predicate MatchesWideSearch(b: Book, term: string) {
    var t := Lower(term);
    Contains(Lower(b.title), t) || Contains(Lower(b.author), t)
    || (b.description.Some? && Contains(Lower(b.description.value), t))
    || (b.genre.Some? && Contains(Lower(b.genre.value), t))
  }

  function SearchBooks(books: seq<Book>, term: string): (r: seq<Book>)
    ensures forall b :: b in r <==> b in books && MatchesWideSearch(b, term)
  {
    Filter(books, b => MatchesWideSearch(b, term))
  }

  /** An empty term matches every title, so `searchBooks('')` returns the whole store. */
  lemma SearchBooksEmptyTerm(books: seq<Book>)
    ensures SearchBooks(books, "") == books
  {
    forall b | b in books ensures MatchesWideSearch(b, "") {
      ContainsEmptyAndSelf(Lower(b.title));
    }
    FilterKeepsAll(books, b => MatchesWideSearch(b, ""));
  }
}
