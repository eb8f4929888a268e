# BookManager store and service, modelled in Dafny

This project models the core of BookManager, a small book-inventory manager.
The core is an in-memory book store and a thin service layer over it. The store
is an ordered list of `Book` records in which ISBNs are deliberately NOT unique.
Every single-record operation therefore resolves to the first record in store
order with the given ISBN, and every "all" operation acts on all such records.

The files are:

- `books.dfy`, module `Books` (models/Book.java). `BookRec` is the value of a
  book: isbn, title, author and the checkout flag. `Book` is the mutable object,
  with its constructor, both `setBook` overloads, `equals` and
  `checkDuplicateBook`.
- `store_spec.dfy`, module `StoreSpec`. These are value-level definitions of
  what the store does:
  - `FirstIndex` is the first match.
  - `Select` keeps the matching records in order.
  - `RemoveAt` removes the record at an index.
  - `ContainsObject` and `RemoveObject` are `List.contains` and
    `List.remove(Object)`, both driven by `Book.equals`.
  - `UpdateFirst`, `UpdateAll` and `RemoveFirst` describe the updates and the
    first-match delete.

  The file also holds the lemmas about these definitions.
- `repository.dfy`, module `Repository` (repositories/BookRepository.java). The
  class `BookRepository` has one field, `books: seq<BookRec>`. The mutating
  methods reassign that field the way the Java code mutates its list, with the
  same loops, early returns and `contains`/`remove` calls; the lookups only
  read it. The update and delete methods are proved against `UpdateFirst`,
  `UpdateAll`, `RemoveFirst` and `Select`, and `FindAllBooksByIsbn` against
  `Select`; the add methods, `GetAllBooks` and `DeleteAll` state their new
  store or result directly.
- `service.dfy`, module `Service` (services/BookService.java). The class
  `BookService` holds the store it works on and has:
  - the two filtered views, built by loops over the `getAllBooks` copy;
  - `CheckOutBook`, which writes the checkout flag of the first match inside
    the store;
  - `CheckOutFirst`, which specifies `CheckOutBook`;
  - the partition and idempotence lemmas.

Records are held in the store by value. A Java caller gets a live reference from
`findBookByIsbn`, and `checkOutBook` mutates the stored object through that
reference. The model instead writes the record at the first-match index, which
is the location that reference denotes. `List.remove(Object)` in the Java code
removes the first element that `equals` the argument. The lemma
`RemoveFoundIsRemoveFirst` proves that, for the record `findBookByIsbn` returns,
this is the first-match index itself.

Where the code and the intended behaviour differ, the model follows the code:

- `updateAllBooks` answers true even when nothing matches, since it compares two
  zero counts.
- `addBook(Book)` stores the record as given, so a checked-out book stays
  checked out.
- `checkDuplicateBook` answers true when the two books are NOT duplicates.

ISBNs are unbounded `int`s. The Java code does no arithmetic on them, so 32-bit
width makes no difference. The update counter is bounded by the list size, so it
cannot overflow either. Java's `String.compareTo(..) == 0` is string equality,
modelled as `==` on `string`.

## Model

| member | source | states |
|---|---|---|
| `Books.NewBook` | src/main/java/com/apis/bookmanager/models/Book.java:20-25 | a book built from isbn, title and author carries exactly those fields and is not checked out |
| `Books.Book.constructor` | src/main/java/com/apis/bookmanager/models/Book.java:20-25 | the new object's fields are the arguments and `isCheckedOut` is false |
| `Books.Book.SetBook` | src/main/java/com/apis/bookmanager/models/Book.java:61-65 | isbn, title and author are copied from the argument (also when it is this object), the checkout flag is unchanged, and afterwards the object equals the argument |
| `Books.Book.SetBookFields` | src/main/java/com/apis/bookmanager/models/Book.java:70-74 | exactly isbn, title and author are overwritten; the checkout flag is unchanged |
| `Books.Book.Equals` | src/main/java/com/apis/bookmanager/models/Book.java:82-99 | true iff the argument is a Book (null and non-Books excluded) with equal isbn, title and author; the checkout flag plays no part; true for the same reference |
| `Books.SameBookIsEquivalence` | src/main/java/com/apis/bookmanager/models/Book.java:82-99 | book equality is reflexive, symmetric and transitive, and flipping the checkout flag keeps a book equal to itself |
| `Books.OverwriteMakesEqual` | src/main/java/com/apis/bookmanager/models/Book.java:61-65 | overwriting a record with the fields of `src` makes it equal to `src` and keeps its checkout flag |
| `Books.Book.CheckDuplicateBook` | src/main/java/com/apis/bookmanager/models/Book.java:46-55 | true iff isbn, title and author all differ (true means "not a duplicate"), and then the books are never equal |
| `Books.NotDuplicateExcludesEqual` | src/main/java/com/apis/bookmanager/models/Book.java:46-55 | "not a duplicate" excludes equality, is symmetric, is false for a book against itself and false as soon as the isbns agree |
| `StoreSpec.FirstIndex` | src/main/java/com/apis/bookmanager/repositories/BookRepository.java:56-61 | the index found is the smallest whose record satisfies the criterion; none is found iff no record satisfies it |
| `StoreSpec.FirstIndexUnique` | src/main/java/com/apis/bookmanager/repositories/BookRepository.java:56-61 | any index that is first-matching is the one the lookup returns |
| `StoreSpec.Select` | src/main/java/com/apis/bookmanager/repositories/BookRepository.java:69-77 | the selection holds exactly the records of the store that satisfy the criterion, and is no longer than the store |
| `StoreSpec.SelectAppend` | src/main/java/com/apis/bookmanager/repositories/BookRepository.java:69-77 | selection distributes over concatenation, so the matching records keep their store order |
| `StoreSpec.FindAllAgreesWithFindFirst` | src/main/java/com/apis/bookmanager/repositories/BookRepository.java:56-77 | the find-all result is empty iff the first-match lookup finds nothing, and otherwise starts with the first match |
| `StoreSpec.ContainsObject` | src/main/java/com/apis/bookmanager/repositories/BookRepository.java:163-164 | `contains(found)` holds iff a record was found and some stored record equals it; a failed lookup is never contained |
| `StoreSpec.RemoveObject` | src/main/java/com/apis/bookmanager/repositories/BookRepository.java:167 | `remove(o)` takes out the first record that `o` equals, keeping the records before it and the records after it in order (so the store shrinks by one); when no record equals `o` the store is unchanged |
| `StoreSpec.RemoveAt` | src/main/java/com/apis/bookmanager/repositories/BookRepository.java:167 | removing index k keeps the records before k, shifts those after it down by one, and drops exactly one copy of the removed record |
| `StoreSpec.RemoveFoundIsRemoveFirst` | src/main/java/com/apis/bookmanager/repositories/BookRepository.java:163-170 | for the first record with an isbn, `contains` holds and `remove` takes out exactly that index, because no earlier record shares its isbn and so none equals it |
| `StoreSpec.UpdateFirst` | src/main/java/com/apis/bookmanager/repositories/BookRepository.java:85-94 | only the first match gets the new isbn, title and author, keeping its checkout flag; length and every other record are unchanged; without a match the store is unchanged |
| `StoreSpec.UpdateAll` | src/main/java/com/apis/bookmanager/repositories/BookRepository.java:124-134 | every record that matched gets the new isbn, title and author with its checkout flag kept; non-matching records and the length are unchanged |
| `StoreSpec.UpdateAllOfSingleMatch` | src/main/java/com/apis/bookmanager/repositories/BookRepository.java:85-134 | with at most one matching record, updating all matches and updating the first match give the same store |
| `StoreSpec.RemoveFirst` | src/main/java/com/apis/bookmanager/repositories/BookRepository.java:163-170 | without a match the store is unchanged; otherwise exactly the first match is removed, the records before and after it keep their order, and one copy of it leaves the multiset |
| `StoreSpec.RemoveAllLeavesNoMatch` | src/main/java/com/apis/bookmanager/repositories/BookRepository.java:178-186 | after all records with an isbn are removed, neither the first-match nor the all-match lookup finds one |
| `StoreSpec.DuplicateIsbnScenario` | src/main/java/com/apis/bookmanager/repositories/BookRepository.java:69-77 | two books sharing isbn 111 are both found in insertion order, and deleting the first match leaves only the later one |
| `Repository.BookRepository.constructor` | src/main/java/com/apis/bookmanager/repositories/BookRepository.java:14 | a new store is empty |
| `Repository.BookRepository.AddBook` | src/main/java/com/apis/bookmanager/repositories/BookRepository.java:22-25 | exactly the given record, checkout flag included, is appended at the end and returned; earlier records are unchanged |
| `Repository.BookRepository.AddNewBook` | src/main/java/com/apis/bookmanager/repositories/BookRepository.java:35-39 | a new record built from the fields, not checked out, is appended at the end and returned |
| `Repository.BookRepository.GetAllBooks` | src/main/java/com/apis/bookmanager/repositories/BookRepository.java:46-48 | the result equals the store element by element, in order; the store is not modified |
| `Repository.BookRepository.FindBookByIsbn` | src/main/java/com/apis/bookmanager/repositories/BookRepository.java:56-61 | the result is the record at the smallest index with the isbn, and nothing is found iff no record has it |
| `Repository.BookRepository.FindAllBooksByIsbn` | src/main/java/com/apis/bookmanager/repositories/BookRepository.java:69-77 | the result is exactly the matching records in store order (empty, never missing, when none matches; `StoreSpec.FindAllAgreesWithFindFirst` ties its emptiness to the first-match lookup) |
| `Repository.BookRepository.UpdateBook` | src/main/java/com/apis/bookmanager/repositories/BookRepository.java:85-94 | the answer is whether a match existed, and the new store is the first-match update with the argument's fields |
| `Repository.BookRepository.UpdateBookFields` | src/main/java/com/apis/bookmanager/repositories/BookRepository.java:105-115 | the same as `UpdateBook`, for a book built from the discrete fields |
| `Repository.BookRepository.UpdateAllBooks` | src/main/java/com/apis/bookmanager/repositories/BookRepository.java:124-134 | the answer is always true, and the new store is the every-match update with the argument's fields |
| `Repository.BookRepository.UpdateAllBooksFields` | src/main/java/com/apis/bookmanager/repositories/BookRepository.java:145-155 | the update count equals the number of matches found beforehand, so the answer is true, including with zero matches; the new store is the every-match update |
| `Repository.BookRepository.OverwriteMatches` | src/main/java/com/apis/bookmanager/repositories/BookRepository.java:147-153 | the update loop overwrites every record that matched when the call began and counts exactly as many updates as there were matches |
| `Repository.BookRepository.DeleteBookByIsbn` | src/main/java/com/apis/bookmanager/repositories/BookRepository.java:163-170 | the answer is whether a match existed, and the new store is the old one without its first match |
| `Repository.BookRepository.DeleteAllBooksByIsbn` | src/main/java/com/apis/bookmanager/repositories/BookRepository.java:178-186 | the answer is whether a match existed; without one the store is unchanged; otherwise the loop, which shortens the store on every turn, leaves exactly the non-matching records in order |
| `Repository.BookRepository.DeleteAll` | src/main/java/com/apis/bookmanager/repositories/BookRepository.java:192-194 | the store is empty afterwards |
| `Service.BookService.ViewBooksInCollection` | src/main/java/com/apis/bookmanager/services/BookService.java:33-40 | the result is exactly the records not checked out, in store order; the store is not modified |
| `Service.BookService.ViewCheckedOutBooks` | src/main/java/com/apis/bookmanager/services/BookService.java:46-54 | the result is exactly the checked-out records, in store order; the store is not modified |
| `Service.ViewsPartition` | src/main/java/com/apis/bookmanager/services/BookService.java:33-54 | the two views partition the store: their lengths add up to its size, their multisets add up to its multiset, and no record is in both |
| `Service.CheckOutFirst` | src/main/java/com/apis/bookmanager/services/BookService.java:61-67 | the first match is checked out; no other record changes; isbn, title and author of every record and the length stay; the first match stays the same record; without a match nothing changes |
| `Service.BookService.CheckOutBook` | src/main/java/com/apis/bookmanager/services/BookService.java:61-67 | the answer is whether a match existed; the store becomes the first-match checkout; no record is created |
| `Service.CheckOutIdempotent` | src/main/java/com/apis/bookmanager/services/BookService.java:61-67 | checking out twice gives the same store as checking out once |

## Left out

- `BookController.java`: HTTP routing and response mapping are not part of this
  model. Every handler's `finally { return null; }` overrides the response it
  computed, so its results say nothing. `updateBookStatus`, which sets an
  arbitrary status on the first match, is not modelled.
- `BookManagerApplication.java` and `BookDao.java` are not part of this model.
  They hold process start-up and interface signatures only.
- The copy constructor `Book(Object)` is not modelled. It calls
  `checkDuplicateBook` on an object whose title is still null, so it fails
  whenever the isbns differ and copies nothing otherwise. Only the
  `checkDuplicateBook` predicate is modelled.
- `BookService.updateBook(Book)` is not modelled. It calls a one-argument
  repository `updateBook` that does not exist.
- The other `BookService` methods are not modelled separately. They forward
  one-to-one to the repository method of the same name, and that method is the
  model.
- Null books, null strings and the `contains(null)` path are not modelled.
  Records and strings are non-null, and a failed lookup is `None`.
- Reference aliasing is not modelled, because the store keeps records by value.
  Under Java semantics the same object could be added twice. Then
  `updateAllBooks` with a changed isbn could rewrite a later entry before the
  loop reaches it, count fewer updates than matches, and answer false. The model
  does not capture that case. Changes a caller makes through a reference it got
  earlier are also not modelled.
- `Repository.BookRepository.UpdateAllBooks` runs through `UpdateAllBooksFields`
  and does not repeat the loop with `setBook(book)`. Both copy the same three
  fields into each match. The counting loop of `updateAllBooks` is the separate
  method `OverwriteMatches`, called after the matches are collected.
- The store's list is a `static` field shared by every repository object. Here
  it is one field of one explicitly constructed store. Lombok accessors, Spring
  wiring and `toString` formatting are not modelled.
