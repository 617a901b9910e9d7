/** The book card: it shows one book and reports a delete request for it to its parent. */
module BookCard {
  import opened BookModel

  class BookCardComponent {
    /** The book the card shows, an input of the component. */
    var book: Book
    /** Every value the `delete` event emitter has emitted, oldest first. */
    var emitted: seq<int>

    constructor(b: Book)
      ensures book == b && emitted == []
    {
      book := b;
      emitted := [];
    }

    /** `onDelete()`: emits the id of the card's book, and only that. */
    method OnDelete()
      modifies this
      ensures emitted == old(emitted) + [book.id]
      ensures book == old(book)
    {
      emitted := emitted + [book.id];
    }
  }
}
