/**
 Value-level specification of the book store: a store is an ordered sequence of
 book records in which ISBNs may repeat. Every single-record operation resolves
 to the FIRST match in store order; the "all" operations act on every match.
 */
module StoreSpec {
  import opened Books

  datatype Option<T> = None | Some(value: T)

  /** The conditions the store and the service select records by. */
  datatype Criterion =
    | IsbnIs(isbn: int)          // the record has this isbn
    | IsbnIsNot(isbn: int)       // the record has another isbn
    | StatusIs(checkedOut: bool) // the record's checkout flag has this value
    | EqualTo(book: BookRec)     // `book.equals(record)` holds

  predicate Holds(c: Criterion, b: BookRec)
  {
    match c
    case IsbnIs(n) => b.isbn == n
    case IsbnIsNot(n) => b.isbn != n
    case StatusIs(st) => b.checkedOut == st
    case EqualTo(o) => SameBook(o, b)
  }

  /** `k` is the smallest index of `s` whose record satisfies `c`. */
  predicate IsFirstIndex(s: seq<BookRec>, c: Criterion, k: int)
  {
    && 0 <= k < |s|
    && Holds(c, s[k])
    && forall j :: 0 <= j < k ==> !Holds(c, s[j])
  }

  /** The first index in store order whose record satisfies `c`, if any. */
  function FirstIndex(s: seq<BookRec>, c: Criterion): (r: Option<nat>)
    ensures r.Some? ==> IsFirstIndex(s, c, r.value)
    ensures r.None? <==> forall j :: 0 <= j < |s| ==> !Holds(c, s[j])
  {
    if s == [] then None
    else if Holds(c, s[0]) then Some(0)
    else match FirstIndex(s[1..], c)
      case None => None
      case Some(k) => Some(k + 1)
  }

  /** There is only one first index: whichever index is first is the one found. */
  lemma FirstIndexUnique(s: seq<BookRec>, c: Criterion, k: int)
    requires IsFirstIndex(s, c, k)
    ensures FirstIndex(s, c) == Some(k)
  {
  }

  /** Two stores with the same isbn at every index find the same first match. */
  lemma SameIsbnsSameFirstIndex(s: seq<BookRec>, t: seq<BookRec>, isbn: int)
    requires |s| == |t|
    requires forall j :: 0 <= j < |s| ==> s[j].isbn == t[j].isbn
    ensures FirstIndex(t, IsbnIs(isbn)) == FirstIndex(s, IsbnIs(isbn))
  {
    match FirstIndex(s, IsbnIs(isbn))
    case None =>
    case Some(k) => FirstIndexUnique(t, IsbnIs(isbn), k);
  }

  /** The records of `s` satisfying `c`, in store order. */
  function Select(s: seq<BookRec>, c: Criterion): (r: seq<BookRec>)
    ensures |r| <= |s|
    ensures forall b :: b in r <==> b in s && Holds(c, b)
  {
    if s == [] then []
    else
      var last := s[|s| - 1];
      assert s == s[..|s| - 1] + [last];
      var init := Select(s[..|s| - 1], c);
      if Holds(c, last) then init + [last] else init
  }

  /** Selection distributes over concatenation: it keeps store order. */
  lemma {:induction false} SelectAppend(a: seq<BookRec>, b: seq<BookRec>, c: Criterion)
    ensures Select(a + b, c) == Select(a, c) + Select(b, c)
  {
    if b == [] {
      assert a + b == a;
    } else {
      var b' := b[..|b| - 1];
      assert (a + b)[..|a + b| - 1] == a + b';
      SelectAppend(a, b', c);
    }
  }

  /** Selecting from a sequence whose every record satisfies `c` keeps it whole. */
  lemma {:induction false} SelectAll(s: seq<BookRec>, c: Criterion)
    requires forall j :: 0 <= j < |s| ==> Holds(c, s[j])
    ensures Select(s, c) == s
  {
    if s != [] {
      var init := s[..|s| - 1];
      SelectAll(init, c);
      assert init + [s[|s| - 1]] == s;
    }
  }

  /** Nothing satisfies `c` exactly when the selection is empty. */
  lemma SelectEmpty(s: seq<BookRec>, c: Criterion)
    ensures Select(s, c) == [] <==> forall j :: 0 <= j < |s| ==> !Holds(c, s[j])
  {
    var r := Select(s, c);
    if r != [] {
      assert r[0] in r;
    }
    if exists j :: 0 <= j < |s| && Holds(c, s[j]) {
      var j :| 0 <= j < |s| && Holds(c, s[j]);
      assert s[j] in r;
    }
  }

  /** The selection starts with the first index's record. */
  lemma SelectStartsWithFirst(s: seq<BookRec>, c: Criterion, k: int)
    requires IsFirstIndex(s, c, k)
    ensures Select(s, c) != [] && Select(s, c)[0] == s[k]
  {
    assert s == s[..k] + ([s[k]] + s[k + 1..]);
    SelectAppend(s[..k], [s[k]] + s[k + 1..], c);
    SelectAppend([s[k]], s[k + 1..], c);
    SelectEmpty(s[..k], c);
    assert Select([s[k]], c) == Select([], c) + [s[k]] by {
      assert [s[k]][..0] == [];
    }
  }

  /** `s` without the record at index `k`. */
  function RemoveAt(s: seq<BookRec>, k: nat): (r: seq<BookRec>)
    requires k < |s|
    ensures |r| == |s| - 1
    ensures forall j :: 0 <= j < k ==> r[j] == s[j]
    ensures forall j :: k <= j < |r| ==> r[j] == s[j + 1]
    ensures multiset(r) + multiset{s[k]} == multiset(s)
  {
    assert s == s[..k] + [s[k]] + s[k + 1..];
    s[..k] + s[k + 1..]
  }

  /** Removing a record that does not satisfy `c` leaves the selection alone. */
  lemma SelectRemoveAt(s: seq<BookRec>, k: nat, c: Criterion)
    requires k < |s| && !Holds(c, s[k])
    ensures Select(RemoveAt(s, k), c) == Select(s, c)
  {
    assert s == s[..k] + ([s[k]] + s[k + 1..]);
    SelectAppend(s[..k], [s[k]] + s[k + 1..], c);
    SelectAppend([s[k]], s[k + 1..], c);
    SelectAppend(s[..k], s[k + 1..], c);
    SelectEmpty([s[k]], c);
  }

  /** `List.contains(o)`: some stored record is `equals` to `o`; a missing
      (null) argument is never contained, as the store holds no null entries. */
  function ContainsObject(s: seq<BookRec>, o: Option<BookRec>): (r: bool)
    ensures r <==> o.Some? && exists j :: 0 <= j < |s| && SameBook(o.value, s[j])
  {
    match o
    case None => false
    case Some(b) =>
      var f := FirstIndex(s, EqualTo(b));
      assert f.None? ==> forall j :: 0 <= j < |s| ==> !Holds(EqualTo(b), s[j]);
      f.Some?
  }

  /** `List.remove(o)`: drops the first record that `o` is `equals` to, if any. */
  function RemoveObject(s: seq<BookRec>, o: BookRec): (r: seq<BookRec>)
    ensures ContainsObject(s, Some(o)) ==> |r| == |s| - 1
    ensures !ContainsObject(s, Some(o)) ==> r == s
    ensures FirstIndex(s, EqualTo(o)).Some? ==>
      var k := FirstIndex(s, EqualTo(o)).value;
      r[..k] == s[..k] && r[k..] == s[k + 1..]
  {
    match FirstIndex(s, EqualTo(o))
    case None => s
    case Some(j) => RemoveAt(s, j)
  }

  /** The record found first by isbn is the one `remove(found)` takes out:
      no earlier record shares its isbn, so none is `equals` to it. */
  lemma RemoveFoundIsRemoveFirst(s: seq<BookRec>, isbn: int, k: int)
    requires IsFirstIndex(s, IsbnIs(isbn), k)
    ensures ContainsObject(s, Some(s[k]))
    ensures FirstIndex(s, EqualTo(s[k])) == Some(k)
    ensures RemoveObject(s, s[k]) == RemoveAt(s, k)
  {
    assert Holds(EqualTo(s[k]), s[k]);
    forall j | 0 <= j < k
      ensures !Holds(EqualTo(s[k]), s[j])
    {
      assert !Holds(IsbnIs(isbn), s[j]);
    }
    FirstIndexUnique(s, EqualTo(s[k]), k);
  }

  /** The first-match overwrite behind `updateBook`. */
  function UpdateFirst(s: seq<BookRec>, isbn: int, newIsbn: int, title: string, author: string): (r: seq<BookRec>)
    ensures |r| == |s|
    ensures FirstIndex(s, IsbnIs(isbn)).None? ==> r == s
    ensures FirstIndex(s, IsbnIs(isbn)).Some? ==>
      var k := FirstIndex(s, IsbnIs(isbn)).value;
      && r[k] == BookRec(newIsbn, title, author, s[k].checkedOut)
      && forall j :: 0 <= j < |s| && j != k ==> r[j] == s[j]
  {
    match FirstIndex(s, IsbnIs(isbn))
    case None => s
    case Some(k) => s[k := Overwrite(s[k], newIsbn, title, author)]
  }

  /** One step of `updateAllBooks`: a matching record is overwritten, any
      other record is left as it is. */
  function UpdateIfMatch(b: BookRec, isbn: int, newIsbn: int, title: string, author: string): (r: BookRec)
  {
    if b.isbn == isbn then Overwrite(b, newIsbn, title, author) else b
  }

  /** The every-match overwrite behind `updateAllBooks`. */
  function UpdateAll(s: seq<BookRec>, isbn: int, newIsbn: int, title: string, author: string): (r: seq<BookRec>)
    ensures |r| == |s|
    ensures forall j :: 0 <= j < |s| && s[j].isbn == isbn ==>
      r[j] == BookRec(newIsbn, title, author, s[j].checkedOut)
    ensures forall j :: 0 <= j < |s| && s[j].isbn != isbn ==> r[j] == s[j]
  {
    if s == [] then []
    else
      UpdateAll(s[..|s| - 1], isbn, newIsbn, title, author)
        + [UpdateIfMatch(s[|s| - 1], isbn, newIsbn, title, author)]
  }

  /** Two different matching records give a selection of at least two. */
  lemma SelectTwo(s: seq<BookRec>, c: Criterion, i: int, j: int)
    requires 0 <= i < j < |s| && Holds(c, s[i]) && Holds(c, s[j])
    ensures |Select(s, c)| >= 2
  {
    assert s == s[..j] + s[j..];
    SelectAppend(s[..j], s[j..], c);
    assert s[..j][i] in s[..j];
    assert s[j..][0] in s[j..];
    SelectEmpty(s[..j], c);
    SelectEmpty(s[j..], c);
  }

  /** With at most one match, updating all matches is updating the first one. */
  lemma UpdateAllOfSingleMatch(s: seq<BookRec>, isbn: int, newIsbn: int, title: string, author: string)
    requires |Select(s, IsbnIs(isbn))| <= 1
    ensures UpdateAll(s, isbn, newIsbn, title, author) == UpdateFirst(s, isbn, newIsbn, title, author)
  {
    var all := UpdateAll(s, isbn, newIsbn, title, author);
    var first := UpdateFirst(s, isbn, newIsbn, title, author);
    match FirstIndex(s, IsbnIs(isbn))
    case None =>
    case Some(k) =>
      forall j | 0 <= j < |s| && j != k
        ensures all[j] == first[j]
      {
        if s[j].isbn == isbn {
          if j < k {
            SelectTwo(s, IsbnIs(isbn), j, k);
          } else {
            SelectTwo(s, IsbnIs(isbn), k, j);
          }
        }
      }
  }

  /** The first-match removal behind `deleteBookByISBN`. */
  function RemoveFirst(s: seq<BookRec>, isbn: int): (r: seq<BookRec>)
    ensures FirstIndex(s, IsbnIs(isbn)).None? ==> r == s
    ensures FirstIndex(s, IsbnIs(isbn)).Some? ==>
      var k := FirstIndex(s, IsbnIs(isbn)).value;
      && |r| == |s| - 1
      && r[..k] == s[..k]
      && r[k..] == s[k + 1..]
      && multiset(r) + multiset{s[k]} == multiset(s)
  {
    match FirstIndex(s, IsbnIs(isbn))
    case None => s
    case Some(k) => RemoveAt(s, k)
  }

  /** After removing every match, a later first-match lookup finds nothing and
      an all-match lookup is empty. */
  lemma RemoveAllLeavesNoMatch(s: seq<BookRec>, isbn: int)
    ensures FirstIndex(Select(s, IsbnIsNot(isbn)), IsbnIs(isbn)).None?
    ensures Select(Select(s, IsbnIsNot(isbn)), IsbnIs(isbn)) == []
  {
    var r := Select(s, IsbnIsNot(isbn));
    forall j | 0 <= j < |r|
      ensures !Holds(IsbnIs(isbn), r[j])
    {
      assert r[j] in r;
    }
    SelectEmpty(r, IsbnIs(isbn));
  }

  /** The find-all view is empty exactly when the first-match lookup fails, and
      otherwise starts with the first match. */
  lemma FindAllAgreesWithFindFirst(s: seq<BookRec>, isbn: int)
    ensures Select(s, IsbnIs(isbn)) == [] <==> FirstIndex(s, IsbnIs(isbn)).None?
    ensures FirstIndex(s, IsbnIs(isbn)).Some? ==>
      Select(s, IsbnIs(isbn))[0] == s[FirstIndex(s, IsbnIs(isbn)).value]
  {
    SelectEmpty(s, IsbnIs(isbn));
    match FirstIndex(s, IsbnIs(isbn))
    case None =>
    case Some(k) => SelectStartsWithFirst(s, IsbnIs(isbn), k);
  }

  /** Two books sharing isbn 111: both are found, in insertion order; removing
      the first match takes out only the earlier one. */
  lemma DuplicateIsbnScenario()
    ensures var s := [NewBook(111, "Dune", "Herbert"), NewBook(111, "Dune2", "Herbert2")];
      && Select(s, IsbnIs(111)) == s
      && RemoveFirst(s, 111) == [s[1]]
      && Select(RemoveFirst(s, 111), IsbnIs(111)) == [s[1]]
  {
    var s := [NewBook(111, "Dune", "Herbert"), NewBook(111, "Dune2", "Herbert2")];
    SelectAll(s, IsbnIs(111));
    assert RemoveFirst(s, 111) == [s[1]];
    SelectAll([s[1]], IsbnIs(111));
  }
}
