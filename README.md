# Book catalogue model

A Dafny model of the logic inside the Angular book-catalogue application. It covers:

- **The in-memory book store (`BookService`).** This is a class that owns the list of books and the `nextId` counter. It answers these queries:
  - `getBooks`: search, then genre filter, then a sort on one of six keys in either direction;
  - `getBook`, `getFeaturedBooks`, `getGenres`, `getBooksByGenre` and `searchBooks`.

  It changes the list with `addBook`/`createBook`, `updateBook` and `deleteBook`. `purchaseBook` has its not-found branch and a success/failure outcome.
- **The `Book` and `BookFilter` records.**
- **The two display helpers that the book card and the book detail view share.** `getStars` turns a rating into a row of 1 / 0.5 / 0 stars. `formatIsbn` hyphenates a run of thirteen digits 3-1-5-3-1.
- **The book card.** Its `onDelete` emits the card's book id.
- **The book detail view.** It has the route-id guard of `ngOnInit`, the `loadBook` state transitions, the delayed reveal and `deleteBook`.
- **The add/edit form:**
  - the validators of every control;
  - `isFieldInvalid` and the `getErrorMessage` priority chain;
  - loading a book into the form;
  - the `onSubmit` normalisation, with its branch to `updateBook` or `addBook`.
- **The second, premium-aware list view.** It has the in-place `applySort`, the `hasAccessToBook` gate and the decision `purchaseBook` takes.

The modules follow the source files:

| module | file | models |
|---|---|---|
| `Common` | `common.dfy` | `Option`, `Result` (error path with a message), `Unit` |
| `Text` | `text.dfy` | the string built-ins the code relies on: `toLowerCase`, `includes`, `localeCompare`, number-to-string, `parseInt(s, 10)` |
| `Collections` | `collections.dfy` | `filter`, `slice(0, n)`, `[...new Set(...)]` |
| `Sorting` | `sorting.dfy` | the stable `Array.prototype.sort`: a functional insertion sort, and an in-place array method proved equal to it |
| `BookModel` | `book_model.dfy` | `Book`, `Omit<Book, 'id'>`, `BookFilter` |
| `Catalog` | `catalog.dfy` | the pure queries of the store, stated over a sequence of books |
| `BookStore` | `book_service.dfy` | the seed data and the stateful `BookService` class |
| `BookDisplay` | `book_display.dfy` | `getStars` and `formatIsbn` |
| `BookCard` | `book_card.dfy` | the card component |
| `BookDetail` | `book_detail.dfy` | the detail component |
| `FormRules` | `form_rules.dfy` | validators, error messages and the submitted value |
| `BookForm` | `book_form.dfy` | the form component |
| `PremiumList` | `premium_list.dfy` | the premium-aware list component |

Two behaviours of the code a reader might not expect:

- `addBook` takes its id from the `nextId` counter. It does not use the largest id plus one.
- `getBooks` searches title, author and ISBN, but not genre. `searchBooks` searches title, author, description and genre.

The remaining modelling choices:

- **Store state.** The stored list is a `seq<Book>` field that the methods reassign.
- **Sorting.** `getBooks` copies the list into a fresh array and sorts that array in place. The stored list is therefore never reordered.
- **Comparators.** A comparator is read by its sign. "`compare(a, b) <= 0`" means `a` may stay in front of `b`.
- **NaN.** `Number(undefined)` is NaN. A comparison that produces NaN counts as 0, as the ECMAScript sort treats it.
- **Asynchronous calls.** Observables become direct results. `of(x)` becomes `Ok(x)`, and `throwError(new Error(m))` becomes `Err(m)`.

## Model

| member | source | states |
|---|---|---|
| BookModel.WithId | my-book-app/src/app/services/book.service.ts:198-201 | `{ ...book, id }` carries the given id |
| BookModel.WithIdFieldsInverse | my-book-app/src/app/models/book.model.ts:2-16 | a book is exactly its id plus its other fields: adding an id and removing it again are inverse |
| Text.Lower | my-book-app/src/app/services/book.service.ts:143-147 | lower-casing keeps the length and maps every character on its own (ASCII letters only) |
| Text.LowerIdempotent | my-book-app/src/app/services/book.service.ts:143-147 | lower-casing twice is lower-casing once, and the result holds no upper-case letter |
| Text.ContainsIffOccurs | my-book-app/src/app/services/book.service.ts:145-147 | `includes` holds exactly when the term occurs at some position |
| Text.ContainsEmptyAndSelf | my-book-app/src/app/services/book.service.ts:145-147 | every string includes the empty string and itself |
| Text.StrCompare | my-book-app/src/app/services/book.service.ts:163-165 | `localeCompare` yields -1, 0 or 1 |
| Text.StrCompareAntisymmetric | my-book-app/src/app/services/book.service.ts:163-165 | swapping the operands negates the comparison, and 0 means equal strings |
| Text.StrLeTransitive | my-book-app/src/app/services/book.service.ts:163-165 | the string order is transitive |
| Text.StrLeTotal | my-book-app/src/app/services/book.service.ts:163-165 | any two strings are ordered one way or the other |
| Text.NatToString | my-book-app/src/app/services/book.service.ts:183 | a number is spelled as a non-empty run of digits |
| Text.NatToStringValue | my-book-app/src/app/services/book.service.ts:183 | the spelled digits denote the number |
| Text.ParseIntOfIntToString | my-book-app/src/app/books/book-detail/book-detail.component.ts:511 | `parseInt(s, 10)` reads back every spelled integer, ignoring whatever follows a non-digit |
| Text.ParseIntNaN | my-book-app/src/app/books/book-detail/book-detail.component.ts:511-512 | `parseInt` gives NaN exactly when no digit follows the leading blanks and optional sign |
| Collections.Filter | my-book-app/src/app/services/book.service.ts:144-148 | `filter` keeps exactly the elements that pass and never grows |
| Collections.FilterAppend | my-book-app/src/app/services/book.service.ts:153 | filtering distributes over concatenation, so relative order is kept |
| Collections.FilterCount | my-book-app/src/app/services/book.service.ts:153 | a passing element is kept as often as it occurs and a failing one never |
| Collections.FilterKeepsAll | my-book-app/src/app/services/book.service.ts:153 | a filter everything passes returns its input |
| Collections.FilterAgrees | my-book-app/src/app/services/book.service.ts:144-153 | tests that agree on the input filter it alike |
| Collections.SliceTo | my-book-app/src/app/services/book.service.ts:192 | `slice(0, n)` is the prefix of length min(n, length), counted from the back for negative n |
| Collections.Distinct | my-book-app/src/app/services/book.service.ts:262 | `[...new Set(s)]` holds exactly the elements of s, each once |
| Collections.FirstIndex | my-book-app/src/app/services/book.service.ts:262 | the index found holds the element and no earlier index does |
| Collections.DistinctKeepsFirstOccurrenceOrder | my-book-app/src/app/services/book.service.ts:262 | the distinct elements come out in the order of their first occurrence |
| Sorting.Insert | my-book-app/src/app/services/book.service.ts:158-171 | the insertion step of the stable sort makes the list one longer; what it holds and where the element lands are the Insert lemmas below |
| Sorting.Sort | my-book-app/src/app/services/book.service.ts:158-171 | the stable sort keeps the length; that it permutes, orders and keeps ties is SortPermutes, SortSorted and SortStable |
| Sorting.InsertPermutes | my-book-app/src/app/services/book.service.ts:158-171 | inserting adds exactly one occurrence of the element |
| Sorting.SortPermutes | my-book-app/src/app/services/book.service.ts:158-171 | sorting is a permutation |
| Sorting.InsertSorted | my-book-app/src/app/services/book.service.ts:158-171 | inserting into a sorted sequence keeps it sorted under a consistent comparator |
| Sorting.SortSorted | my-book-app/src/app/services/book.service.ts:158-171 | under a comparator that is total and transitive on the input, the result is ordered |
| Sorting.InsertKeepsTieOrder | my-book-app/src/app/services/book.service.ts:158-171 | inserting keeps equal elements in order, the inserted one after the earlier ones |
| Sorting.SortStable | my-book-app/src/app/services/book.service.ts:158-171 | the sort is stable: elements that tie come out in their input order |
| Sorting.InsertPosition | my-book-app/src/app/services/book.service.ts:158-171 | insertion stops behind the last element that may precede the new one |
| Sorting.InsertInPlace | my-book-app/src/app/services/book.service.ts:158 | shifting larger elements right in the array inserts `a[i]` into the sorted prefix, leaving the rest of the array alone |
| Sorting.SortArray | my-book-app/src/app/services/book.service.ts:158 | sorting the array in place leaves exactly the sorted sequence of its old contents |
| Catalog.SortValueOf | my-book-app/src/app/services/book.service.ts:159-161 | `a[sortBy]` reads a string for title, author and date, and a number or nothing for price, rating and page count |
| Catalog.CompareValues | my-book-app/src/app/services/book.service.ts:162-170 | a result of -1, 0 or 1; numbers compare by their difference's sign, and a comparison involving `undefined` counts as 0 |
| Catalog.Compare | my-book-app/src/app/services/book.service.ts:158-171 | the comparator gives -1, 0 or 1, and 0 whenever either book lacks the key |
| Catalog.Query | my-book-app/src/app/services/book.service.ts:137-172 | `getBooks` without a filter returns the list, and never returns more books than are stored |
| Catalog.FilterThenFilter | my-book-app/src/app/services/book.service.ts:144-154 | two filters in a row are one filter on the conjunction |
| Catalog.SelectionIsOneFilter | my-book-app/src/app/services/book.service.ts:142-154 | the search stage then the genre stage keep exactly the selected books, in store order |
| Catalog.QueryContents | my-book-app/src/app/services/book.service.ts:137-172 | `getBooks` returns exactly the books matching the search (case-insensitive on title, author, ISBN) and the genre (exact), each as often as stored; without `sortBy` in store order |
| Catalog.QueryWithoutCriteria | my-book-app/src/app/services/book.service.ts:138-140 | no filter, or a filter with no active part, returns the whole list unchanged |
| Catalog.SearchIgnoresGenre | my-book-app/src/app/services/book.service.ts:144-148 | a book's genre never affects whether the `getBooks` search matches it |
| Catalog.CompareValuesAntisymmetric | my-book-app/src/app/services/book.service.ts:162-170 | swapping two key values negates their comparison |
| Catalog.DescendingReverses | my-book-app/src/app/services/book.service.ts:163-170 | `desc` negates the comparison, which is comparing with the operands swapped |
| Catalog.PrecedesMeaning | my-book-app/src/app/services/book.service.ts:159-170 | title, author and date compare as strings and price, rating and page count as numbers, reversed for `desc` |
| Catalog.ComparatorConsistent | my-book-app/src/app/services/book.service.ts:158-171 | on books that all carry the key, the comparator is total and transitive |
| Catalog.QuerySorted | my-book-app/src/app/services/book.service.ts:157-172 | with `sortBy`, the result is ordered by that key and direction, and books that tie keep their store order |
| Catalog.IndexOf | my-book-app/src/app/services/book.service.ts:213 | `findIndex` gives the first index with the id, or none when no book has it |
| Catalog.FindBook | my-book-app/src/app/services/book.service.ts:180 | `find` gives the book at the first index with the id |
| Catalog.GetBook | my-book-app/src/app/services/book.service.ts:179-187 | `getBook` succeeds exactly when a stored book has the id, returns that book, and otherwise fails with "Book with id … not found" |
| Catalog.RemovedIdIsGone | my-book-app/src/app/services/book.service.ts:229-239 | with unique ids, the spliced-out id is no longer found |
| Catalog.AllFeatured | my-book-app/src/app/services/book.service.ts:190-191 | the featured books are exactly the stored books with `isFeatured` |
| Catalog.Featured | my-book-app/src/app/services/book.service.ts:189-195 | `getFeaturedBooks(limit)` returns at most `limit` featured books, the first ones in store order |
| Catalog.FeaturedCount | my-book-app/src/app/services/book.service.ts:189-195 | it returns all featured books when there are at most `limit`, and otherwise exactly `limit` |
| Catalog.PresentGenres | my-book-app/src/app/services/book.service.ts:262 | the truthy genres are exactly the non-empty genres of stored books |
| Catalog.Genres | my-book-app/src/app/services/book.service.ts:261-264 | `getGenres` lists every non-empty stored genre exactly once |
| Catalog.GenresInFirstOccurrenceOrder | my-book-app/src/app/services/book.service.ts:261-264 | the genres come out in the order in which they first appear in the store |
| Catalog.BooksByGenre | my-book-app/src/app/services/book.service.ts:266-272 | `getBooksByGenre` keeps exactly the books whose genre equals the argument ignoring case |
| Catalog.SearchBooks | my-book-app/src/app/services/book.service.ts:274-284 | `searchBooks` keeps exactly the books whose title, author, description or genre contains the term ignoring case |
| Catalog.SearchBooksEmptyTerm | my-book-app/src/app/services/book.service.ts:274-284 | an empty term keeps every book |
| BookStore.Seed | my-book-app/src/app/services/book.service.ts:11-25 | a seed record carries its given id |
| BookStore.SeedBooks | my-book-app/src/app/services/book.service.ts:10-131 | the store starts with eight books numbered 1 to 8 |
| BookStore.SeedInvariant | my-book-app/src/app/services/book.service.ts:10-133 | the seeded ids are distinct and all below the initial counter 9 |
| BookStore.AppendKeepsInvariant | my-book-app/src/app/services/book.service.ts:197-206 | appending a book with the counter's id and bumping the counter keeps ids unique and below the counter, and the book is then found |
| BookStore.ReplaceKeepsInvariant | my-book-app/src/app/services/book.service.ts:212-227 | replacing a book by one with the same id keeps the invariant, and the replacement is then found |
| BookStore.RemoveKeepsInvariant | my-book-app/src/app/services/book.service.ts:229-239 | splicing a book out keeps the invariant, and its id is then unknown |
| BookStore.BookService.constructor | my-book-app/src/app/services/book.service.ts:10-135 | the service starts with the seed books, the counter at 9, and the invariant |
| BookStore.BookService.GetBooks | my-book-app/src/app/services/book.service.ts:137-177 | the result is the query of the stored books; the store is unchanged |
| BookStore.BookService.GetBook | my-book-app/src/app/services/book.service.ts:179-187 | the book with the id, or the not-found error exactly when no book has it |
| BookStore.BookService.GetFeaturedBooks | my-book-app/src/app/services/book.service.ts:189-195 | the first `limit` featured books |
| BookStore.BookService.AddBook | my-book-app/src/app/services/book.service.ts:197-206 | the new book is the input with the old counter as id, appended at the end; the counter goes up by one; the invariant holds and `getBook` finds the new book |
| BookStore.BookService.CreateBook | my-book-app/src/app/services/book.service.ts:208-210 | the same as `addBook` |
| BookStore.BookService.UpdateBook | my-book-app/src/app/services/book.service.ts:212-227 | an unknown id fails with the not-found message and changes nothing; otherwise only the first slot with the id is replaced by the input with that id; the counter is untouched |
| BookStore.BookService.DeleteBook | my-book-app/src/app/services/book.service.ts:229-239 | an unknown id fails and changes nothing; otherwise exactly that record is removed and the others keep their order; afterwards `getBook` of the id fails |
| BookStore.BookService.PurchaseBook | my-book-app/src/app/services/book.service.ts:241-259 | unknown book: not-found error; failed payment: the payment error; success exactly when the book exists and payment succeeds, with that book's title and price |
| BookStore.BookService.GetGenres | my-book-app/src/app/services/book.service.ts:261-264 | each non-empty stored genre once |
| BookStore.BookService.GetBooksByGenre | my-book-app/src/app/services/book.service.ts:266-272 | the books whose genre matches ignoring case |
| BookStore.BookService.SearchBooks | my-book-app/src/app/services/book.service.ts:274-284 | the books matching the wide search |
| BookDisplay.Stars | my-book-app/src/app/books/book-card/book-card.component.ts:252-273 | entry i is 1 exactly below floor(rating), 0.5 exactly at the one half-star slot, 0 exactly from the marked count on; length max(5, marked) |
| BookDisplay.StarsNonIncreasing | my-book-app/src/app/books/book-card/book-card.component.ts:258-272 | the row never goes up: full stars, then a half star, then empty ones |
| BookDisplay.StarsOnScale | my-book-app/src/app/books/book-card/book-card.component.ts:252-273 | for a rating in [0, 5] the row has five stars, with a full star exactly below floor(rating) |
| BookDisplay.BuildStars | my-book-app/src/app/books/book-card/book-card.component.ts:252-273 | the loop, the half star and the padding loop build exactly that row |
| BookDisplay.FirstDigitRunFrom | my-book-app/src/app/books/book-card/book-card.component.ts:244 | the leftmost position at or after `from` where thirteen digits start, or none |
| BookDisplay.Hyphenate | my-book-app/src/app/books/book-card/book-card.component.ts:244 | 17 characters: the 13 digits in order with hyphens after the 3rd, 4th, 9th and 12th |
| BookDisplay.FormatIsbn | my-book-app/src/app/books/book-card/book-card.component.ts:243-245 | no run of 13 digits: the input unchanged; otherwise four characters longer |
| BookDisplay.FormatIsbnChangesIffRun | my-book-app/src/app/books/book-card/book-card.component.ts:243-245 | the output equals the input exactly when the input holds no thirteen digits in a row |
| BookDisplay.FormatIsbnOfIsbn | my-book-app/src/app/books/book-card/book-card.component.ts:243-245 | a thirteen-digit ISBN is hyphenated 3-1-5-3-1 |
| BookDisplay.RemoveHyphens | my-book-app/src/app/books/book-card/book-card.component.ts:244 | deleting hyphens keeps the non-hyphen characters and only them (order and multiplicity as `Filter` by not-hyphen) |
| BookDisplay.RemoveHyphensOfHyphenate | my-book-app/src/app/books/book-card/book-card.component.ts:244 | deleting the hyphens of a hyphenated ISBN gives the digits back |
| BookDisplay.FormatIsbnRoundTrip | my-book-app/src/app/books/book-card/book-card.component.ts:243-245 | formatting adds only hyphens; deleting them from a formatted 13-digit ISBN gives the input back |
| BookDisplay.FormatIsbnIdempotentOnIsbn | my-book-app/src/app/books/book-card/book-card.component.ts:243-245 | formatting a formatted ISBN again changes nothing |
| BookCard.BookCardComponent.constructor | my-book-app/src/app/books/book-card/book-card.component.ts:240-241 | the card holds its book and has emitted nothing |
| BookCard.BookCardComponent.OnDelete | my-book-app/src/app/books/book-card/book-card.component.ts:275-277 | exactly the card's book id is emitted; the book is unchanged |
| BookDetail.ErrorText | my-book-app/src/app/books/book-detail/book-detail.component.ts:535 | `message \|\| fallback`: a non-empty message is shown as it is, and the fallback only replaces an empty one |
| BookDetail.BookDetailComponent.constructor | my-book-app/src/app/books/book-detail/book-detail.component.ts:491-494 | no book, loading, no error, not visible |
| BookDetail.BookDetailComponent.NgOnInit | my-book-app/src/app/books/book-detail/book-detail.component.ts:502-520 | a missing id gives "Book ID is missing" and an unparseable one "Invalid Book ID", each with loading ended and nothing loaded; otherwise the parsed id is loaded |
| BookDetail.BookDetailComponent.StartLoad | my-book-app/src/app/books/book-detail/book-detail.component.ts:523-524 | loading starts and the error is cleared, nothing else changes |
| BookDetail.BookDetailComponent.OnBookLoaded | my-book-app/src/app/books/book-detail/book-detail.component.ts:527-532 | the book is shown, loading ends, the reveal is scheduled |
| BookDetail.BookDetailComponent.OnLoadFailed | my-book-app/src/app/books/book-detail/book-detail.component.ts:534-537 | the error becomes the message or "Failed to load book details", loading ends |
| BookDetail.BookDetailComponent.LoadBook | my-book-app/src/app/books/book-detail/book-detail.component.ts:522-539 | after the request: the book that `getBook` finds with loading ended and the reveal scheduled, or the error text with loading ended |
| BookDetail.BookDetailComponent.OnRevealTimer | my-book-app/src/app/books/book-detail/book-detail.component.ts:529-531 | a scheduled reveal makes the view visible, nothing else changes |
| BookDetail.BookDetailComponent.FormatIsbn | my-book-app/src/app/books/book-detail/book-detail.component.ts:541-543 | the same hyphenation as the card, 3-1-5-3-1 on a 13-digit ISBN |
| BookDetail.BookDetailComponent.GetStars | my-book-app/src/app/books/book-detail/book-detail.component.ts:554-575 | the same row as the card, five stars for ratings in [0, 5] |
| BookDetail.BookDetailComponent.DeleteBook | my-book-app/src/app/books/book-detail/book-detail.component.ts:577-591 | no book or no confirmation: nothing; otherwise the store deletes the book (navigate to the list) or reports an unknown id (alert), and the id is then unknown; the id counter never changes |
| FormRules.FieldNamed | my-book-app/src/app/books/book-form/book-form.component.ts:557 | `bookForm.get(name)` finds the control with that name, or none when no control has it |
| FormRules.TitleAuthorRule | my-book-app/src/app/books/book-form/book-form.component.ts:519-520 | title and author are valid exactly when 1 to 100 characters long |
| FormRules.IsbnRule | my-book-app/src/app/books/book-form/book-form.component.ts:521 | the ISBN is valid exactly when it is thirteen digits |
| FormRules.PublicationDateRule | my-book-app/src/app/books/book-form/book-form.component.ts:522 | the date is valid exactly when non-empty |
| FormRules.CoverImageRule | my-book-app/src/app/books/book-form/book-form.component.ts:524 | the cover image is valid exactly when empty or starting with http:// or https:// |
| FormRules.PageCountRule | my-book-app/src/app/books/book-form/book-form.component.ts:526 | a page count is valid exactly in [1, 10000]; an empty control is valid |
| FormRules.RatingRule | my-book-app/src/app/books/book-form/book-form.component.ts:528 | a rating is valid exactly in [0, 5]; an empty control is valid |
| FormRules.Validate | my-book-app/src/app/books/book-form/book-form.component.ts:517-530 | the validators of each control: an empty value is an error only for the four required controls, and errors come under Angular's keys `required`, `maxlength`, `pattern`, `min` and `max` |
| FormRules.IsFieldInvalid | my-book-app/src/app/books/book-form/book-form.component.ts:556-559 | holds exactly when the control of that name exists, has an error, and is dirty or touched |
| FormRules.GetErrorMessageAsWritten | my-book-app/src/app/books/book-form/book-form.component.ts:561-595 | the chain as written: it agrees with the corrected chain on every control without a length error |
| FormRules.MessageChain | my-book-app/src/app/books/book-form/book-form.component.ts:563-594 | the empty message exactly when there is no error; otherwise the first reported of required, length, pattern, min and max decides, in that order, with the ISBN and URL pattern messages for isbn and coverImage and "Invalid format" for the others, the bound spelled into the min and max messages, and "Invalid value" for any other error |
| FormRules.AsWrittenNeverShowsLengthMessage | my-book-app/src/app/books/book-form/book-form.component.ts:572-574 | as written (length key `maxLength`), no form whose errors come from its validators ever shows "Maximum length exceeded" |
| FormRules.AsWrittenMissesLengthError | my-book-app/src/app/books/book-form/book-form.component.ts:572 | as written, a 101-character title gets "Invalid value" instead of the length message |
| FormRules.GetErrorMessage | my-book-app/src/app/books/book-form/book-form.component.ts:561-595 | corrected (length key `maxlength`): '' exactly when the control is missing or has no errors |
| FormRules.FieldInvalidHasMessage | my-book-app/src/app/books/book-form/book-form.component.ts:556-566 | a control `isFieldInvalid` reports makes the form invalid and always has a non-empty message |
| FormRules.TitleMessages | my-book-app/src/app/books/book-form/book-form.component.ts:568-574 | a title or author gets the required message when empty, the length message when over 100, otherwise none |
| FormRules.IsbnMessages | my-book-app/src/app/books/book-form/book-form.component.ts:568-578 | the ISBN gets the required message when empty, the ISBN pattern message when not 13 digits, otherwise none |
| FormRules.PublicationDateMessages | my-book-app/src/app/books/book-form/book-form.component.ts:568-570 | the date gets the required message when empty, otherwise none |
| FormRules.CoverImageMessages | my-book-app/src/app/books/book-form/book-form.component.ts:576-582 | a filled-in cover image that is no http:// or https:// address gets the URL message, otherwise none |
| FormRules.PageCountMessages | my-book-app/src/app/books/book-form/book-form.component.ts:586-592 | a page count below 1 gets "Minimum value is 1", above 10000 "Maximum value is 10000", otherwise none |
| FormRules.RatingMessages | my-book-app/src/app/books/book-form/book-form.component.ts:586-592 | a rating below 0 gets "Minimum value is 0", above 5 "Maximum value is 5", otherwise none |
| FormRules.OptionalText | my-book-app/src/app/books/book-form/book-form.component.ts:610-614 | `value \|\| undefined` is present exactly for a non-empty text, and then carries that text |
| FormRules.OptionalNumber | my-book-app/src/app/books/book-form/book-form.component.ts:613-615 | `value \|\| undefined` is present exactly for a non-zero number, and then carries that number |
| FormRules.Submitted | my-book-app/src/app/books/book-form/book-form.component.ts:608-617 | the required texts as entered; each optional field present exactly when its control is truthy; no price and not featured |
| FormRules.ZeroRatingDropped | my-book-app/src/app/books/book-form/book-form.component.ts:615 | a rating of 0 passes validation yet is submitted as absent |
| FormRules.SubmittedMeetsRules | my-book-app/src/app/books/book-form/book-form.component.ts:597-617 | what a valid form submits has a 1-100 character title and author, a 13-digit ISBN, a date, and a present rating in (0, 5], page count in [1, 10000] and URL cover |
| BookForm.InitialForm | my-book-app/src/app/books/book-form/book-form.component.ts:517-530 | all ten controls exist, empty, pristine and untouched, with their validators' errors |
| BookForm.InitialFormInvalid | my-book-app/src/app/books/book-form/book-form.component.ts:519 | a fresh form is invalid (the title is required) |
| BookForm.Patched | my-book-app/src/app/books/book-form/book-form.component.ts:538-541 | `patchValue` puts each present book field into its control and leaves the other controls alone; no control's dirty or touched flag changes |
| BookForm.PatchedConsistent | my-book-app/src/app/books/book-form/book-form.component.ts:538-541 | patching revalidates, so every control's errors stay those of its validators |
| BookForm.PatchThenSubmit | my-book-app/src/app/books/book-form/book-form.component.ts:538-617 | loading a book and submitting unchanged sends its title, author, ISBN and date back |
| BookForm.PatchThenSubmitNumbers | my-book-app/src/app/books/book-form/book-form.component.ts:538-617 | a loaded rating or page count comes back, except that 0 is dropped |
| BookForm.PatchThenSubmitTexts | my-book-app/src/app/books/book-form/book-form.component.ts:538-617 | a loaded non-empty genre, description or publisher comes back |
| BookForm.MarkAllTouched | my-book-app/src/app/books/book-form/book-form.component.ts:600-602 | every control is touched, nothing else changes |
| BookForm.MarkAllTouchedShowsErrors | my-book-app/src/app/books/book-form/book-form.component.ts:556-559 | after every control is marked touched, `isFieldInvalid` holds for each control with an error |
| BookForm.BookFormComponent.constructor | my-book-app/src/app/books/book-form/book-form.component.ts:471-476 | not in edit mode, no id, loading, no error, not submitting |
| BookForm.BookFormComponent.InitForm | my-book-app/src/app/books/book-form/book-form.component.ts:517-530 | the form becomes the initial form; the other fields are untouched |
| BookForm.BookFormComponent.NgOnInit | my-book-app/src/app/books/book-form/book-form.component.ts:501-515 | a fresh form; with a non-empty id: edit mode, the parsed id (NaN when unparseable) and the book loaded; otherwise loading just ends |
| BookForm.BookFormComponent.LoadBook | my-book-app/src/app/books/book-form/book-form.component.ts:532-549 | the found book is patched into the form, or the error text is set; loading ends either way |
| BookForm.BookFormComponent.Input | my-book-app/src/app/books/book-form/book-form.component.ts:516-530 | a control takes a new value, is validated again and becomes dirty |
| BookForm.BookFormComponent.MarkAllControlsTouched | my-book-app/src/app/books/book-form/book-form.component.ts:600-602 | the loop marks every control touched |
| BookForm.BookFormComponent.OnSubmit | my-book-app/src/app/books/book-form/book-form.component.ts:597-644 | invalid: every control touched and no store call; valid in edit mode with a truthy id: `updateBook` with the normalised data; otherwise `addBook`; `isSubmitting` ends false |
| PremiumList.OrderFor | my-book-app/src/app/features/books/book-list/book-list.component.ts:252-265 | a comparator exists exactly for 'title', 'author', 'rating' and 'date' |
| PremiumList.SortedListPermutes | my-book-app/src/app/features/books/book-list/book-list.component.ts:251-266 | every sort key only permutes the list |
| PremiumList.OrdersConsistent | my-book-app/src/app/features/books/book-list/book-list.component.ts:253-264 | all four comparators are total and transitive |
| PremiumList.SortedListOrders | my-book-app/src/app/features/books/book-list/book-list.component.ts:251-266 | title and author ascend, rating descends with a missing rating as 0, and date puts the newest first |
| PremiumList.HasAccessToBook | my-book-app/src/app/features/books/book-list/book-list.component.ts:297-307 | access exactly for non-premium books, or for a signed-in user whom the authentication service grants the book |
| PremiumList.PurchaseDecision | my-book-app/src/app/features/books/book-list/book-list.component.ts:268-277 | signed out exactly when the user is sent to /auth/login with a /books/ return address; otherwise that book is purchased |
| PremiumList.ReturnUrlNamesBook | my-book-app/src/app/features/books/book-list/book-list.component.ts:271 | the return address's id segment reads back as the book's id |
| PremiumList.BookListComponent.constructor | my-book-app/src/app/features/books/book-list/book-list.component.ts:198-203 | the list starts as a fresh empty array, with 'title' as the sort key |
| PremiumList.BookListComponent.OnBooksLoaded | my-book-app/src/app/features/books/book-list/book-list.component.ts:218-246 | a loaded list replaces the array and ends sorted by the current key, a permutation of what was loaded |
| PremiumList.BookListComponent.ApplySort | my-book-app/src/app/features/books/book-list/book-list.component.ts:251-266 | the array ends as the sorted list of its old contents under the current key (unchanged for an unknown key), and is a permutation of them |

## Left out

- The RxJS plumbing is left out. This covers `of(...).pipe(delay(...))`, `throwError` and the `subscribe` callbacks. Results are returned directly, and the delays are left out.
- Templates, styles, animations and routing are left out. `router.navigate`, `confirm`, `alert` and `console.error` are outcomes or parameters. For example, `DeleteBook(confirmed)` takes the user's answer as a parameter and returns the navigation or alert it leads to.
- BookStore.BookService.PurchaseBook: `Math.random() > 0.1` is a parameter (`paymentSucceeds`). The success message is a `Receipt` holding the title and the price, or no price where the book has none. It is not the formatted text with the price printed as JavaScript prints numbers.
- The 100 ms `setTimeout` of the detail view is left out. It is modelled as a `revealScheduled` flag plus an `OnRevealTimer` callback.
- Text.Lower: only ASCII letters are lower-cased. Unicode case mapping is not modelled.
- Text.StrCompare: `localeCompare` is modelled as lexicographic order on character codes. Locale collation is not modelled.
- Catalog.QuerySorted: sortedness is proved only when every selected book carries the sort key. Without the key, `Number(undefined)` is NaN, the comparator is not consistent and the engine's order is unspecified. This includes sorting by price when a book created from the form, which has no price, is among them. The model still computes a result: NaN counts as 0, and the result is always a permutation of the selected books.
- Dates are not modelled. This covers `formatDate` in the card and the detail view, and `formatDateForInput` in the form, which is treated as the identity when a book is patched into the form. The premium list's `new Date(...).getTime()` is represented by an integer time value.
- How Angular's `Validators` judge values is modelled for the values the form holds: text controls hold strings and number controls hold numbers or nothing. A numeric string typed into a number control is not modelled. The error keys are `required`, `maxlength`, `pattern`, `min` and `max`, with the bound under `min`/`max`.
- The form has no price or featured control, so a book created or updated from the form has no price (`price` is optional in the model, as it is at run time) and is not featured.
- Validators.maxLength counts UTF-16 code units; the model counts characters of the string, so a title with characters outside the Basic Multilingual Plane may be judged differently.
- The authentication service is not part of this model. Sign-in state and the books it grants access to are the `Session` parameter. `authService.purchaseBook` becomes the `RequestPurchase` outcome.
- The book card's `formatDate`, the list components' loading and filtering, the home, header, footer, login, register and author components, and the services under `core copy` are not part of this model.

## Findings

| source | as written | input that shows it | evidently intended | confidence | as-written member | corrected member |
|---|---|---|---|---|---|---|
| my-book-app/src/app/books/book-form/book-form.component.ts:572 | `getErrorMessage` tests `control.errors['maxLength']`, but `Validators.maxLength` reports its error under the key `maxlength` | a 101-character title: the control's only error is `maxlength`, so the chain falls through to "Invalid value" | "Maximum length exceeded" for an over-long title or author | not executed | FormRules.AsWrittenMissesLengthError | FormRules.TitleMessages |
