/**
 The in-memory book store. It owns one ordered list of book records, kept in
 insertion order; ISBNs may repeat, single-record operations act on the first
 match and the "all" operations on every match.
 */
module Repository {
  import opened Books
  import opened StoreSpec

  class BookRepository {
    /** The stored records, in store order. */
    var books: seq<BookRec>

    /** A fresh, empty store. */
    constructor ()
      ensures books == []
    {
      books := [];
    }

    /** Appends the given book as it is (its checkout flag included) and
        returns it. */
    method AddBook(book: Book) returns (added: BookRec)
      modifies this
      ensures added == book.Value()
      ensures books == old(books) + [added]
    {
      added := book.Value();
      books := books + [added];
    }

    /** Appends a new book built from the fields; it is in stock. */
    method AddNewBook(isbn: int, title: string, author: string) returns (added: BookRec)
      modifies this
      ensures added == NewBook(isbn, title, author) && !added.checkedOut
      ensures books == old(books) + [added]
    {
      var book := new Book(isbn, title, author);
      added := book.Value();
      books := books + [added];
    }

    /** A copy of every stored record, in store order; the store is unchanged. */
    method GetAllBooks() returns (copy: seq<BookRec>)
      ensures |copy| == |books|
      ensures forall j :: 0 <= j < |books| ==> copy[j] == books[j]
    {
      copy := books;
    }

    /** The first record in store order with this isbn, or None. */
    function FindBookByIsbn(isbn: int): (r: Option<BookRec>)
      reads this
      ensures r.None? <==> forall j :: 0 <= j < |books| ==> books[j].isbn != isbn
      ensures r.Some? ==> exists k :: IsFirstIndex(books, IsbnIs(isbn), k) && books[k] == r.value
    {
      match FirstIndex(books, IsbnIs(isbn))
      case None => None
      case Some(k) => Some(books[k])
    }

    /** Every record with this isbn, in store order; empty (never None) when
        none matches. */
    method FindAllBooksByIsbn(isbn: int) returns (duplicates: seq<BookRec>)
      ensures duplicates == Select(books, IsbnIs(isbn))
    {
      duplicates := [];
      var i := 0;
      while i < |books|
        invariant 0 <= i <= |books|
        invariant duplicates == Select(books[..i], IsbnIs(isbn))
      {
        assert books[..i + 1][..i] == books[..i];
        if books[i].isbn == isbn {
          duplicates := duplicates + [books[i]];
        }
        i := i + 1;
      }
      assert books[..i] == books;
    }

    /** Overwrites isbn, title and author of the FIRST record with this isbn
        by those of `book`, keeping its checkout flag; false and no change
        when no record has the isbn. */
    method UpdateBook(isbn: int, book: Book) returns (ok: bool)
      modifies this
      ensures ok == FirstIndex(old(books), IsbnIs(isbn)).Some?
      ensures books == UpdateFirst(old(books), isbn, book.isbn, book.title, book.author)
    {
      var i := 0;
      while i < |books|
        invariant 0 <= i <= |books|
        invariant books == old(books)
        invariant forall j :: 0 <= j < i ==> books[j].isbn != isbn
      {
        if books[i].isbn == isbn {
          FirstIndexUnique(books, IsbnIs(isbn), i);
          books := books[i := Overwrite(books[i], book.isbn, book.title, book.author)];
          return true;
        }
        i := i + 1;
      }
      return false;
    }

    /** The discrete-field form: builds a new book from the fields and
        updates the first match to it. */
    method UpdateBookFields(isbn: int, newIsbn: int, title: string, author: string) returns (ok: bool)
      modifies this
      ensures ok == FirstIndex(old(books), IsbnIs(isbn)).Some?
      ensures books == UpdateFirst(old(books), isbn, newIsbn, title, author)
    {
      var bookToCheck := new Book(newIsbn, title, author);
      ok := UpdateBook(isbn, bookToCheck);
    }

    /** Overwrites isbn, title and author of EVERY record with this isbn by
        those of `book`, keeping checkout flags. The answer compares the number
        of updates with the number of matches found beforehand, and so is
        always true, also when nothing matched. */
    method UpdateAllBooks(isbn: int, book: Book) returns (ok: bool)
      modifies this
      ensures ok
      ensures books == UpdateAll(old(books), isbn, book.isbn, book.title, book.author)
    {
      ok := UpdateAllBooksFields(isbn, book.isbn, book.title, book.author);
    }

    /** The discrete-field form of `UpdateAllBooks`: counts the matches
        first, then overwrites every match and compares the two counts. */
    method UpdateAllBooksFields(isbn: int, newIsbn: int, title: string, author: string) returns (ok: bool)
      modifies this
      ensures ok
      ensures books == UpdateAll(old(books), isbn, newIsbn, title, author)
    {
      var duplicates := FindAllBooksByIsbn(isbn);
      var updatedCounter := OverwriteMatches(isbn, newIsbn, title, author);
      ok := updatedCounter == |duplicates|;
    }

    /** The update loop of `updateAllBooks`: overwrites every record with
        this isbn and counts how many it overwrote. */
    method OverwriteMatches(isbn: int, newIsbn: int, title: string, author: string) returns (updatedCounter: nat)
      modifies this
      ensures updatedCounter == |Select(old(books), IsbnIs(isbn))|
      ensures books == UpdateAll(old(books), isbn, newIsbn, title, author)
    {
      ghost var orig := books;
      updatedCounter := 0;
      var i := 0;
      while i < |books|
        invariant 0 <= i <= |books| == |orig|
        invariant forall j :: 0 <= j < i ==> books[j] == UpdateIfMatch(orig[j], isbn, newIsbn, title, author)
        invariant forall j :: i <= j < |books| ==> books[j] == orig[j]
        invariant updatedCounter == |Select(orig[..i], IsbnIs(isbn))|
      {
        assert orig[..i + 1][..i] == orig[..i];
        if books[i].isbn == isbn {
          books := books[i := Overwrite(books[i], newIsbn, title, author)];
          updatedCounter := updatedCounter + 1;
        }
        i := i + 1;
      }
      assert orig[..i] == orig;
    }

    /** Removes the first record with this isbn, keeping the rest in order;
        false and no change when no record has the isbn. */
    method DeleteBookByIsbn(isbn: int) returns (ok: bool)
      modifies this
      ensures ok == FirstIndex(old(books), IsbnIs(isbn)).Some?
      ensures books == RemoveFirst(old(books), isbn)
    {
      if !ContainsObject(books, FindBookByIsbn(isbn)) {
        return false;
      }
      var found := FindBookByIsbn(isbn);
      var k := FirstIndex(books, IsbnIs(isbn)).value;
      RemoveFoundIsRemoveFirst(books, isbn, k);
      books := RemoveObject(books, found.value);
      return true;
    }

    /** Removes every record with this isbn, keeping the others in order;
        false and no change when no record has the isbn. */
    method DeleteAllBooksByIsbn(isbn: int) returns (ok: bool)
      modifies this
      ensures ok == FirstIndex(old(books), IsbnIs(isbn)).Some?
      ensures !ok ==> books == old(books)
      ensures books == Select(old(books), IsbnIsNot(isbn))
    {
      if !ContainsObject(books, FindBookByIsbn(isbn)) {
        SelectAll(books, IsbnIsNot(isbn));
        return false;
      }
      while ContainsObject(books, FindBookByIsbn(isbn))
        invariant Select(books, IsbnIsNot(isbn)) == Select(old(books), IsbnIsNot(isbn))
        decreases |books|
      {
        var k := FirstIndex(books, IsbnIs(isbn)).value;
        RemoveFoundIsRemoveFirst(books, isbn, k);
        SelectRemoveAt(books, k, IsbnIsNot(isbn));
        books := RemoveObject(books, FindBookByIsbn(isbn).value);
      }
      SelectAll(books, IsbnIsNot(isbn));
      return true;
    }

    /** Empties the store. */
    method DeleteAll()
      modifies this
      ensures books == []
    {
      books := [];
    }
  }
}
