/** The records of the catalogue: a book, a book without its identifier (what callers submit),
    and the filter/sort specification of a listing. */
module BookModel {
  import opened Common

  /** A catalogue entry. `publicationDate` is a date string, not a date; every field after
      it up to `price` may be absent (a book created from the form has no price). Numbers
      are JavaScript numbers without NaN. */
  datatype Book = Book(
    id: int,
    title: string,
    author: string,
    isbn: string,
    publicationDate: string,
    coverImage: Option<string>,
    description: Option<string>,
    genre: Option<string>,
    pageCount: Option<real>,
    publisher: Option<string>,
    rating: Option<real>,
    price: Option<real>,
    isFeatured: bool)

  /** `Omit<Book, 'id'>`: a book as a caller submits it, before the store assigns an id. */
  datatype BookInput = BookInput(
    title: string,
    author: string,
    isbn: string,
    publicationDate: string,
    coverImage: Option<string>,
    description: Option<string>,
    genre: Option<string>,
    pageCount: Option<real>,
    publisher: Option<string>,
    rating: Option<real>,
    price: Option<real>,
    isFeatured: bool)

  /** `{ ...input, id }`: the submitted fields with an identifier attached. */
  function WithId(input: BookInput, id: int): (b: Book)
    ensures b.id == id
  {
    Book(id, input.title, input.author, input.isbn, input.publicationDate, input.coverImage,
         input.description, input.genre, input.pageCount, input.publisher, input.rating,
         input.price, input.isFeatured)
  }

  /** Every field of a book except its identifier. */
  function Fields(b: Book): BookInput {
    BookInput(b.title, b.author, b.isbn, b.publicationDate, b.coverImage, b.description,
              b.genre, b.pageCount, b.publisher, b.rating, b.price, b.isFeatured)
  }

  /** Attaching an id and dropping it again are inverse: a book is exactly its id plus its
      other fields. */
  lemma WithIdFieldsInverse(input: BookInput, b: Book)
    ensures Fields(WithId(input, b.id)) == input
    ensures WithId(Fields(b), b.id) == b
  {
  }

  /** The six keys a listing can be sorted on. */
  datatype SortKey = Title | Author | PublicationDate | Rating | Price | PageCount

  datatype SortDirection = Asc | Desc

  /** A listing request; every part is optional. */
  datatype BookFilter = BookFilter(
    searchTerm: Option<string>,
    genre: Option<string>,
    sortBy: Option<SortKey>,
    sortDirection: Option<SortDirection>)
}
