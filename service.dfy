/**
 The service layer over the store: two filtered views (books in stock and
 books checked out) and checking out the first book with a given isbn. It holds
 no state of its own besides the store it works on.
 */
module Service {
  import opened Books
  import opened StoreSpec
  import opened Repository

  /** Checks out the first record with this isbn; nothing else changes, and a
      store without such a record is left as it is. */
  function CheckOutFirst(s: seq<BookRec>, isbn: int): (r: seq<BookRec>)
    ensures |r| == |s|
    ensures forall j :: 0 <= j < |s| ==> SameBook(r[j], s[j])
    ensures FirstIndex(r, IsbnIs(isbn)) == FirstIndex(s, IsbnIs(isbn))
    ensures FirstIndex(s, IsbnIs(isbn)).None? ==> r == s
    ensures FirstIndex(s, IsbnIs(isbn)).Some? ==>
      var k := FirstIndex(s, IsbnIs(isbn)).value;
      && r[k].checkedOut
      && forall j :: 0 <= j < |s| && j != k ==> r[j] == s[j]
  {
    match FirstIndex(s, IsbnIs(isbn))
    case None => s
    case Some(k) =>
      var r := s[k := s[k].(checkedOut := true)];
      SameIsbnsSameFirstIndex(s, r, isbn);
      r
  }

  /** Checking out twice leaves the store as checking out once. */
  lemma CheckOutIdempotent(s: seq<BookRec>, isbn: int)
    ensures CheckOutFirst(CheckOutFirst(s, isbn), isbn) == CheckOutFirst(s, isbn)
  {
    var once := CheckOutFirst(s, isbn);
    var twice := CheckOutFirst(once, isbn);
    match FirstIndex(s, IsbnIs(isbn))
    case None =>
    case Some(k) =>
      assert twice[k] == once[k];
  }

  /** The in-stock and checked-out views split the store: every record lands in
      exactly one of them, so their sizes add up to the store's. */
  lemma {:induction false} ViewsPartition(s: seq<BookRec>)
    ensures |Select(s, StatusIs(false))| + |Select(s, StatusIs(true))| == |s|
    ensures multiset(Select(s, StatusIs(false))) + multiset(Select(s, StatusIs(true))) == multiset(s)
    ensures forall b :: b in Select(s, StatusIs(false)) ==> b !in Select(s, StatusIs(true))
  {
    if s != [] {
      var init := s[..|s| - 1];
      ViewsPartition(init);
      assert s == init + [s[|s| - 1]];
    }
  }

  class BookService {
    /** The store this service works on. */
    const repo: BookRepository

    constructor (repo: BookRepository)
      ensures this.repo == repo
    {
      this.repo := repo;
    }

    /** The records not checked out, in store order; the store is unchanged. */
    method ViewBooksInCollection() returns (inStock: seq<BookRec>)
      ensures inStock == Select(repo.books, StatusIs(false))
      ensures forall b :: b in inStock <==> b in repo.books && !b.checkedOut
    {
      var all := repo.GetAllBooks();
      assert all == repo.books;
      inStock := [];
      var i := 0;
      while i < |all|
        invariant 0 <= i <= |all|
        invariant inStock == Select(all[..i], StatusIs(false))
      {
        assert all[..i + 1][..i] == all[..i];
        if !all[i].checkedOut {
          inStock := inStock + [all[i]];
        }
        i := i + 1;
      }
      assert all[..i] == all;
    }

    /** The records checked out, in store order; the store is unchanged. */
    method ViewCheckedOutBooks() returns (checkedOut: seq<BookRec>)
      ensures checkedOut == Select(repo.books, StatusIs(true))
      ensures forall b :: b in checkedOut <==> b in repo.books && b.checkedOut
    {
      var all := repo.GetAllBooks();
      assert all == repo.books;
      checkedOut := [];
      var i := 0;
      while i < |all|
        invariant 0 <= i <= |all|
        invariant checkedOut == Select(all[..i], StatusIs(true))
      {
        assert all[..i + 1][..i] == all[..i];
        if all[i].checkedOut {
          checkedOut := checkedOut + [all[i]];
        }
        i := i + 1;
      }
      assert all[..i] == all;
    }

    /** Sets the checkout flag of the first record with this isbn, through the
        record the store's lookup hands out; false, and nothing created or
        changed, when no record has the isbn. */
    method CheckOutBook(isbn: int) returns (ok: bool)
      modifies repo
      ensures ok == FirstIndex(old(repo.books), IsbnIs(isbn)).Some?
      ensures repo.books == CheckOutFirst(old(repo.books), isbn)
    {
      if repo.FindBookByIsbn(isbn) != None {
        var k := FirstIndex(repo.books, IsbnIs(isbn)).value;
        repo.books := repo.books[k := repo.books[k].(checkedOut := true)];
        return true;
      }
      return false;
    }
  }
}
