/**
 The Book record of the book manager. ISBNs are identifiers but are NOT unique
 across books: two books may share an ISBN.

 `BookRec` is the value of a book (what the store keeps); `Book` is the mutable
 object whose constructor and setters update its fields in place.
 */
module Books {

  /** The value of a book: its three identifying fields and its checkout flag. */
  datatype BookRec = BookRec(isbn: int, title: string, author: string, checkedOut: bool)

  /** The record built from discrete fields: a new book is never checked out. */
  function NewBook(isbn: int, title: string, author: string): (r: BookRec)
    ensures !r.checkedOut
    ensures r.isbn == isbn && r.title == title && r.author == author
  {
    BookRec(isbn, title, author, false)
  }

  /** `b` with its isbn, title and author replaced; the checkout flag is kept. */
  function Overwrite(b: BookRec, isbn: int, title: string, author: string): (r: BookRec)
  {
    b.(isbn := isbn, title := title, author := author)
  }

  /** Book equality as `equals` defines it: isbn, title and author agree; the
      checkout flag plays no part. */
  predicate SameBook(a: BookRec, b: BookRec)
  {
    a.isbn == b.isbn && a.title == b.title && a.author == b.author
  }

  /** What `checkDuplicateBook` answers: true when isbn, title and author ALL
      differ, that is, when the other book is not a duplicate in any field. */
  predicate NotDuplicate(a: BookRec, b: BookRec)
  {
    a.isbn != b.isbn && a.title != b.title && a.author != b.author
  }

  /** Book equality is an equivalence relation, blind to the checkout flag. */
  lemma SameBookIsEquivalence(a: BookRec, b: BookRec, c: BookRec)
    ensures SameBook(a, a)
    ensures SameBook(a, b) == SameBook(b, a)
    ensures SameBook(a, b) && SameBook(b, c) ==> SameBook(a, c)
    ensures SameBook(a, a.(checkedOut := !a.checkedOut))
  {
  }

  /** Overwriting a record with the fields of `src` makes it equal to `src`
      and leaves its checkout flag alone. */
  lemma OverwriteMakesEqual(b: BookRec, src: BookRec)
    ensures SameBook(Overwrite(b, src.isbn, src.title, src.author), src)
    ensures Overwrite(b, src.isbn, src.title, src.author).checkedOut == b.checkedOut
  {
  }

  /** A book reported as "not a duplicate" is never equal to this one; the
      converse fails: one shared field is enough to make the answer false. */
  lemma NotDuplicateExcludesEqual(a: BookRec, b: BookRec)
    ensures NotDuplicate(a, b) ==> !SameBook(a, b)
    ensures NotDuplicate(a, b) == NotDuplicate(b, a)
    ensures !NotDuplicate(a, a)
    ensures a.isbn == b.isbn ==> !NotDuplicate(a, b)
  {
  }

  /** The mutable book object. */
  class Book {
    var isbn: int
    var title: string
    var author: string
    var isCheckedOut: bool

    /** The current value of this book. */
    function Value(): (r: BookRec)
      reads this
    {
      BookRec(isbn, title, author, isCheckedOut)
    }

    /** The three-field constructor: a new book is in stock. */
    constructor (isbn: int, title: string, author: string)
      ensures Value() == NewBook(isbn, title, author)
      ensures !isCheckedOut
    {
      this.isbn := isbn;
      this.title := title;
      this.author := author;
      this.isCheckedOut := false;
    }

    /** Copies isbn, title and author from `book`; the checkout flag stays. */
    method SetBook(book: Book)
      modifies this
      ensures Value() == Overwrite(old(Value()), old(book.isbn), old(book.title), old(book.author))
      ensures SameBook(Value(), book.Value())
      ensures isCheckedOut == old(isCheckedOut)
    {
      this.isbn := book.isbn;
      this.title := book.title;
      this.author := book.author;
    }

    /** Overwrites exactly isbn, title and author; the checkout flag stays. */
    method SetBookFields(isbn: int, title: string, author: string)
      modifies this
      ensures Value() == Overwrite(old(Value()), isbn, title, author)
      ensures SameBook(Value(), NewBook(isbn, title, author))
      ensures isCheckedOut == old(isCheckedOut)
    {
      this.isbn := isbn;
      this.title := title;
      this.author := author;
    }

    /** Structural equality: the same object, or another Book whose isbn, title
        and author agree; anything that is not a Book (null included) differs. */
    method Equals(other: object?) returns (r: bool)
      ensures r <==> other is Book && SameBook(Value(), (other as Book).Value())
      ensures other == this ==> r
    {
      if other == this {
        return true;
      }
      if !(other is Book) {
        return false;
      }
      var compareBook := other as Book;
      r := isbn == compareBook.isbn && title == compareBook.title && author == compareBook.author;
    }

    /** True when `otherBook` differs from this book in isbn, title AND author. */
    method CheckDuplicateBook(otherBook: Book) returns (r: bool)
      ensures r == NotDuplicate(Value(), otherBook.Value())
      ensures r ==> !SameBook(Value(), otherBook.Value())
    {
      if isbn != otherBook.isbn {
        if title != otherBook.title {
          if author != otherBook.author {
            return true;
          }
        }
      }
      return false;
    }
  }
}
