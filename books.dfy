/**
 * The in-memory book catalogue of a small CRUD web service.
 *
 * The service keeps one process-wide list of book records. Request handlers
 * list it, filter it by id, rating or publication year, append a new record
 * with a derived id, overwrite records by id and delete the first record with
 * a given id. This module models the records, the input bounds the validation
 * layer enforces before a handler runs, the filters as functions, the three
 * mutations as methods of a class that owns the list, and the functions that
 * specify those methods, together with the properties they keep.
 */
module Books {
  import opened Wrappers

  /**
   * A book record. The id is optional because the same record shape serves as
   * the request payload, whose id may be missing; every record the catalogue
   * itself stores has one (see ValidIds).
   */
  datatype Book = Book(
    id: Option<int>,
    title: string,
    author: string,
    description: string,
    rating: int,
    publishedDate: int
  )

  /** What a handler can fail with. */
  datatype Error =
    | ValidationError     // the input was refused before the handler ran
    | NotFound(detail: string)
    | TypeError           // `None + 1` when the last record carries no id

  const BOOK_NOT_FOUND := "Book not found"
  const ITEM_NOT_FOUND := "Item not found"

  /** The bounds the request payload must meet: no bound on the id. */
  predicate ValidRequest(b: Book)
  {
    |b.title| >= 3 &&
    |b.author| >= 3 &&
    |b.description| <= 100 &&
    0 < b.rating <= 5 &&
    1000 < b.publishedDate < 2025
  }

  /** The bound on a book id passed in the path. */
  predicate ValidBookId(bookId: int)
  {
    bookId > 0
  }

  /** The bound on the rating passed as a query parameter. */
  predicate ValidRating(rating: int)
  {
    0 < rating <= 5
  }

  /** The five records the list starts with. */
  function Seed(): seq<Book>
  {
    [
      Book(Some(1), "Title One", "Author One", "science", 4, 2012),
      Book(Some(2), "Title two", "Author two", "math", 4, 2013),
      Book(Some(3), "Title three", "Author three", "english", 4, 2014),
      Book(Some(4), "Title four", "Author four", "computer science", 4, 2015),
      Book(Some(5), "Title five", "Author five", "social", 4, 2016)
    ]
  }

  /** Every record has a positive id, and ids grow strictly from front to back. */
  ghost predicate ValidIds(s: seq<Book>)
  {
    (forall i :: 0 <= i < |s| ==> s[i].id.Some? && s[i].id.value > 0) &&
    (forall i, j :: 0 <= i < j < |s| ==> s[i].id.value < s[j].id.value)
  }

  /** Valid ids are unique ids. */
  lemma ValidIdsAreUnique(s: seq<Book>, i: int, j: int)
    requires ValidIds(s) && 0 <= i < |s| && 0 <= j < |s| && i != j
    ensures s[i].id != s[j].id
  {
  }

  // ---------------------------------------------------------------------
  // Selecting records
  // ---------------------------------------------------------------------

  /** The keys the handlers compare records against. */
  datatype Criterion =
    | HasId(id: Option<int>)
    | HasRating(rating: int)
    | PublishedIn(year: int)

  predicate Matches(b: Book, c: Criterion)
  {
    match c
    case HasId(id) => b.id == id
    case HasRating(rating) => b.rating == rating
    case PublishedIn(year) => b.publishedDate == year
  }

  /** The records of `s` that match `c`, in the order of `s`. */
  function Select(s: seq<Book>, c: Criterion): (r: seq<Book>)
    ensures |r| <= |s|
    ensures forall b :: b in r <==> b in s && Matches(b, c)
  {
    if s == [] then []
    else (if Matches(s[0], c) then [s[0]] else []) + Select(s[1..], c)
  }

  /**
   * `idx` lists, in increasing order, exactly the positions of `s` whose
   * record matches `c`.
   */
  ghost predicate Enumerates(s: seq<Book>, c: Criterion, idx: seq<int>)
  {
    (forall k :: 0 <= k < |idx| ==> 0 <= idx[k] < |s|) &&
    (forall k, l :: 0 <= k < l < |idx| ==> idx[k] < idx[l]) &&
    (forall i :: 0 <= i < |s| ==> (Matches(s[i], c) <==> i in idx))
  }

  /** Every position in `idx` moved one place to the right. */
  function Shifted(idx: seq<int>): seq<int>
  {
    seq(|idx|, k requires 0 <= k < |idx| => idx[k] + 1)
  }

  /** A position past the head is in the shifted list iff its predecessor is in `rest`. */
  lemma InShifted(rest: seq<int>, i: int)
    ensures i in Shifted(rest) <==> i - 1 in rest
  {
    var shifted := Shifted(rest);
    if i in shifted {
      var k :| 0 <= k < |shifted| && shifted[k] == i;
      assert rest[k] == i - 1;
    }
    if i - 1 in rest {
      var k :| 0 <= k < |rest| && rest[k] == i - 1;
      assert shifted[k] == i;
    }
  }

  /** Enumerating the tail of `s` and shifting gives the positions past the head. */
  lemma EnumeratesTail(s: seq<Book>, c: Criterion, rest: seq<int>)
    requires s != [] && Enumerates(s[1..], c, rest)
    ensures Enumerates(s, c, if Matches(s[0], c) then [0] + Shifted(rest) else Shifted(rest))
  {
    var shifted := Shifted(rest);
    var idx := if Matches(s[0], c) then [0] + shifted else shifted;
    forall k | 0 <= k < |shifted|
      ensures 1 <= shifted[k] < |s|
    {
    }
    forall i | 0 <= i < |s|
      ensures Matches(s[i], c) <==> i in idx
    {
      InShifted(rest, i);
      if i == 0 {
        assert i !in shifted;
      } else {
        assert s[i] == s[1..][i - 1];
      }
    }
    assert forall k, l :: 0 <= k < l < |idx| ==> idx[k] < idx[l];
  }

  /** `r` lists the records of `s` at the positions `idx`, in that order. */
  ghost predicate PicksAt(r: seq<Book>, s: seq<Book>, idx: seq<int>)
  {
    |r| == |idx| &&
    forall k :: 0 <= k < |idx| ==> 0 <= idx[k] < |s| && r[k] == s[idx[k]]
  }

  /** Positions picked from the tail of `s`, shifted by one, pick the same records from `s`. */
  lemma PicksAtShifted(r: seq<Book>, s: seq<Book>, rest: seq<int>)
    requires s != [] && PicksAt(r, s[1..], rest)
    ensures PicksAt(r, s, Shifted(rest))
  {
    forall k | 0 <= k < |rest|
      ensures r[k] == s[rest[k] + 1]
    {
      assert s[1..][rest[k]] == s[rest[k] + 1];
    }
  }

  /** Picking the head first, then the picked positions. */
  lemma PicksAtCons(r: seq<Book>, s: seq<Book>, idx: seq<int>)
    requires s != [] && PicksAt(r, s, idx)
    ensures PicksAt([s[0]] + r, s, [0] + idx)
  {
    var r', idx' := [s[0]] + r, [0] + idx;
    forall k | 1 <= k < |idx'|
      ensures 0 <= idx'[k] < |s| && r'[k] == s[idx'[k]]
    {
      assert idx'[k] == idx[k - 1] && r'[k] == r[k - 1];
    }
  }

  /** The positions picked from the tail, shifted, pick the same records from `s`. */
  lemma PicksAtTail(s: seq<Book>, c: Criterion, rest: seq<int>)
    requires s != [] && PicksAt(Select(s[1..], c), s[1..], rest)
    ensures PicksAt(Select(s, c), s, if Matches(s[0], c) then [0] + Shifted(rest) else Shifted(rest))
  {
    var picked := Select(s[1..], c);
    PicksAtShifted(picked, s, rest);
    if Matches(s[0], c) {
      PicksAtCons(picked, s, Shifted(rest));
      assert Select(s, c) == [s[0]] + picked;
    } else {
      assert Select(s, c) == picked;
    }
  }

  /**
   * Select is exactly the order-preserving subsequence of matching records:
   * its k-th element is the record at the k-th matching position.
   */
  lemma {:induction false} SelectIsMatchingSubsequence(s: seq<Book>, c: Criterion) returns (idx: seq<int>)
    ensures Enumerates(s, c, idx)
    ensures PicksAt(Select(s, c), s, idx)
  {
    if s == [] {
      idx := [];
    } else {
      var rest := SelectIsMatchingSubsequence(s[1..], c);
      EnumeratesTail(s, c, rest);
      PicksAtTail(s, c, rest);
      idx := if Matches(s[0], c) then [0] + Shifted(rest) else Shifted(rest);
    }
  }

  /** Select keeps the whole list when every record matches. */
  lemma {:induction false} SelectAll(s: seq<Book>, c: Criterion)
    requires forall i :: 0 <= i < |s| ==> Matches(s[i], c)
    ensures Select(s, c) == s
  {
    if s != [] {
      SelectAll(s[1..], c);
    }
  }

  /** Select is empty when no record matches. */
  lemma {:induction false} SelectNone(s: seq<Book>, c: Criterion)
    requires forall i :: 0 <= i < |s| ==> !Matches(s[i], c)
    ensures Select(s, c) == []
  {
    if s != [] {
      SelectNone(s[1..], c);
    }
  }

  /** With increasing ids, selecting a stored record's id yields that record alone. */
  lemma {:induction false} SelectUniqueId(s: seq<Book>, i: int)
    requires ValidIds(s) && 0 <= i < |s|
    ensures Select(s, HasId(s[i].id)) == [s[i]]
  {
    var tail := s[1..];
    assert ValidIds(tail);
    if i == 0 {
      SelectNone(tail, HasId(s[0].id));
    } else {
      assert s[i] == tail[i - 1];
      SelectUniqueId(tail, i - 1);
    }
  }

  /** The position of the first record of `s` that matches `c`, if any. */
  function FirstMatch(s: seq<Book>, c: Criterion): (r: Option<nat>)
    ensures r.Some? ==> r.value < |s| && Matches(s[r.value], c)
    ensures r.Some? ==> forall k :: 0 <= k < r.value ==> !Matches(s[k], c)
    ensures r.None? <==> forall k :: 0 <= k < |s| ==> !Matches(s[k], c)
  {
    if s == [] then None
    else if Matches(s[0], c) then Some(0)
    else match FirstMatch(s[1..], c)
      case None => None
      case Some(j) => Some(j + 1)
  }

  // ---------------------------------------------------------------------
  // The read handlers, over the current list `books`
  // ---------------------------------------------------------------------

  /**
   * Read by id: the matching records, or "Book not found" when there is none.
   */
  function ReadBook(books: seq<Book>, bookId: int): (r: Result<seq<Book>, Error>)
    ensures r == Err(ValidationError) <==> !ValidBookId(bookId)
    ensures r == Err(NotFound(BOOK_NOT_FOUND)) <==>
              ValidBookId(bookId) && (forall b :: b in books ==> b.id != Some(bookId))
    ensures r.Ok? ==> r.value != []
    ensures r.Ok? <==> ValidBookId(bookId) && exists b :: b in books && b.id == Some(bookId)
    ensures r.Ok? ==> forall b :: b in r.value <==> b in books && b.id == Some(bookId)
    ensures r.Ok? ==> r.value == Select(books, HasId(Some(bookId)))
  {
    if !ValidBookId(bookId) then Err(ValidationError)
    else
      var found := Select(books, HasId(Some(bookId)));
      if found != [] then assert found[0] in found; Ok(found) else Err(NotFound(BOOK_NOT_FOUND))
  }

  /** With increasing ids, reading a stored id yields exactly that record. */
  lemma ReadBookFindsUniqueRecord(books: seq<Book>, i: int)
    requires ValidIds(books) && 0 <= i < |books|
    ensures ReadBook(books, books[i].id.value) == Ok([books[i]])
  {
    SelectUniqueId(books, i);
  }

  /** A freshly created record can be read back, alone, by its new id. */
  lemma CreatedBookIsReadable(books: seq<Book>, request: Book)
    requires ValidIds(books)
    ensures FindBookId(books, request).Ok?
    ensures var b := FindBookId(books, request).value;
            b.id.Some? && ReadBook(books + [b], b.id.value) == Ok([b])
  {
    var b := FindBookId(books, request).value;
    var s := books + [b];
    assert s[|books|] == b;
    ReadBookFindsUniqueRecord(s, |books|);
  }

  /** Filter by rating: never "not found", possibly empty. */
  function GetBookByRating(books: seq<Book>, rating: int): (r: Result<seq<Book>, Error>)
    ensures r.Ok? <==> ValidRating(rating)
    ensures r.Err? ==> r.error == ValidationError
    ensures r.Ok? ==> forall b :: b in r.value <==> b in books && b.rating == rating
    ensures r.Ok? ==> r.value == Select(books, HasRating(rating))
  {
    if !ValidRating(rating) then Err(ValidationError)
    else Ok(Select(books, HasRating(rating)))
  }

  /** Filter by publication year: the year is unconstrained and it never fails. */
  function GetBookByPublishDate(books: seq<Book>, year: int): (r: seq<Book>)
    ensures forall b :: b in r <==> b in books && b.publishedDate == year
    ensures r == Select(books, PublishedIn(year))
  {
    Select(books, PublishedIn(year))
  }

  // ---------------------------------------------------------------------
  // Functions that specify the mutations
  // ---------------------------------------------------------------------

  /**
   * The record `book` with the id a create assigns: one more than the last
   * record's id, or 1 on an empty list. The request's own id is discarded.
   */
  function FindBookId(books: seq<Book>, book: Book): (r: Result<Book, Error>)
    ensures books == [] ==> r == Ok(book.(id := Some(1)))
    ensures books != [] ==> (r.Ok? <==> books[|books| - 1].id.Some?)
    ensures r.Err? ==> r.error == TypeError
    ensures r.Ok? && books != [] ==>
              r.value == book.(id := Some(books[|books| - 1].id.value + 1))
    ensures ValidIds(books) ==> r.Ok? && ValidIds(books + [r.value])
  {
    if |books| == 0 then Ok(book.(id := Some(1)))
    else match books[|books| - 1].id
      case None => Err(TypeError)
      case Some(last) => Ok(book.(id := Some(last + 1)))
  }

  /** Every record whose id equals `book.id` replaced by `book`. */
  function Overwritten(s: seq<Book>, book: Book): (r: seq<Book>)
    ensures |r| == |s|
    ensures forall k :: 0 <= k < |s| ==> r[k] == if s[k].id == book.id then book else s[k]
  {
    if s == [] then []
    else [if s[0].id == book.id then book else s[0]] + Overwritten(s[1..], book)
  }

  /** A list that agrees with the overwrite slot by slot is the overwrite. */
  lemma OverwrittenPointwise(s: seq<Book>, t: seq<Book>, book: Book)
    requires |t| == |s|
    requires forall k :: 0 <= k < |s| ==> t[k] == if s[k].id == book.id then book else s[k]
    ensures t == Overwritten(s, book)
  {
  }

  /** Overwriting never changes the id stored at any position. */
  lemma OverwrittenKeepsIds(s: seq<Book>, book: Book)
    ensures forall k :: 0 <= k < |s| ==> Overwritten(s, book)[k].id == s[k].id
    ensures ValidIds(s) ==> ValidIds(Overwritten(s, book))
  {
  }

  /** A stored record always has an id, so an update without one never matches. */
  lemma UpdateWithoutIdMatchesNothing(s: seq<Book>)
    requires ValidIds(s)
    ensures FirstMatch(s, HasId(None)).None?
  {
  }

  /** With increasing ids, an update changes exactly the one matching slot. */
  lemma OverwrittenUnique(s: seq<Book>, book: Book, i: int)
    requires ValidIds(s) && 0 <= i < |s| && s[i].id == book.id
    ensures Overwritten(s, book) == s[i := book]
  {
    var r := Overwritten(s, book);
    forall k | 0 <= k < |s|
      ensures r[k] == s[i := book][k]
    {
      if k != i {
        assert s[k].id != s[i].id;
      }
    }
  }

  /** `s` without its first record whose id is `bookId`. */
  function Deleted(s: seq<Book>, bookId: int): (r: seq<Book>)
    ensures match FirstMatch(s, HasId(Some(bookId)))
            case None => r == s
            case Some(i) => r == s[..i] + s[i + 1..]
  {
    if s == [] then []
    else if s[0].id == Some(bookId) then s[1..]
    else [s[0]] + Deleted(s[1..], bookId)
  }

  /** Deleting shrinks the list by one exactly when a record carries the id. */
  lemma DeletedLength(s: seq<Book>, bookId: int)
    ensures |Deleted(s, bookId)| ==
              if exists k :: 0 <= k < |s| && s[k].id == Some(bookId) then |s| - 1 else |s|
  {
    var m := FirstMatch(s, HasId(Some(bookId)));
    if m.Some? {
      assert s[m.value].id == Some(bookId);
    }
  }

  /** Removing one record keeps the ids of the rest increasing. */
  lemma RemovePreservesValidIds(s: seq<Book>, i: int)
    requires ValidIds(s) && 0 <= i < |s|
    ensures ValidIds(s[..i] + s[i + 1..])
  {
    var r := s[..i] + s[i + 1..];
    forall k | 0 <= k < |r|
      ensures r[k] == if k < i then s[k] else s[k + 1]
    {
    }
  }

  /** Deleting keeps ids increasing, and the deleted id is then gone. */
  lemma DeletedPreservesValidIds(s: seq<Book>, bookId: int)
    requires ValidIds(s)
    ensures ValidIds(Deleted(s, bookId))
    ensures forall b :: b in Deleted(s, bookId) ==> b.id != Some(bookId)
  {
    var m := FirstMatch(s, HasId(Some(bookId)));
    if m.Some? {
      var i := m.value;
      RemovePreservesValidIds(s, i);
      var r := s[..i] + s[i + 1..];
      forall b | b in r
        ensures b.id != Some(bookId)
      {
        if b in s[..i] {
          var k :| 0 <= k < i && s[..i][k] == b;
          assert s[k] == b;
        } else {
          assert b in s[i + 1..];
          var k :| 0 <= k < |s| - i - 1 && s[i + 1..][k] == b;
          assert s[i + 1..][k] == s[i + 1 + k];
        }
      }
    }
  }

  /** After a delete, reading the same id fails with "Book not found". */
  lemma DeletedBookIsGone(s: seq<Book>, bookId: int)
    requires ValidIds(s) && ValidBookId(bookId)
    ensures ReadBook(Deleted(s, bookId), bookId) == Err(NotFound(BOOK_NOT_FOUND))
  {
    DeletedPreservesValidIds(s, bookId);
  }

  /** Deleting an id no record carries leaves the list as it is. */
  lemma DeleteAbsentIsNoOp(s: seq<Book>, bookId: int)
    requires forall b :: b in s ==> b.id != Some(bookId)
    ensures Deleted(s, bookId) == s
  {
  }

  /** With increasing ids, a second delete of the same id does nothing. */
  lemma DeleteIdempotent(s: seq<Book>, bookId: int)
    requires ValidIds(s)
    ensures Deleted(Deleted(s, bookId), bookId) == Deleted(s, bookId)
  {
    DeletedPreservesValidIds(s, bookId);
    DeleteAbsentIsNoOp(Deleted(s, bookId), bookId);
  }

  /** The seed list meets the invariant and the request bounds. */
  lemma SeedIsValid()
    ensures ValidIds(Seed())
    ensures forall b :: b in Seed() ==> ValidRequest(b) && b.rating == 4
  {
  }

  // ---------------------------------------------------------------------
  // The catalogue itself
  // ---------------------------------------------------------------------

  /** The process-wide list of books and the handlers that change it. */
  class BookStore {
    var books: seq<Book>

    /** The invariant every handler keeps. */
    ghost predicate Valid()
      reads this
    {
      ValidIds(books)
    }

    /** The list as the process starts: the seed. */
    constructor ()
      ensures books == Seed() && Valid()
    {
      books := Seed();
      SeedIsValid();
    }

    /** List all books, in storage order. */
    method GetAllBooks() returns (r: seq<Book>)
      ensures r == books
    {
      r := books;
    }

    /**
     * Create: append `request` with a fresh id and return the new list.
     * Fails, changing nothing, on a payload out of bounds.
     */
    method CreateBook(request: Book) returns (r: Result<seq<Book>, Error>)
      modifies this
      ensures !ValidRequest(request) ==> r == Err(ValidationError) && books == old(books)
      ensures ValidRequest(request) && FindBookId(old(books), request).Err? ==>
                r == Err(TypeError) && books == old(books)
      ensures ValidRequest(request) && FindBookId(old(books), request).Ok? ==>
                books == old(books) + [FindBookId(old(books), request).value] && r == Ok(books)
      ensures old(Valid()) ==> Valid() && r.Ok? == ValidRequest(request)
    {
      if !ValidRequest(request) {
        return Err(ValidationError);
      }
      var newBook := FindBookId(books, request);
      match newBook
      case Err(e) =>
        r := Err(e);
      case Ok(b) =>
        books := books + [b];
        r := Ok(books);
    }

    /**
     * Update: overwrite every record whose id equals `book.id` with `book`.
     * Fails with "Item not found", changing nothing, when no record matched.
     */
    method UpdateBook(book: Book) returns (r: Result<seq<Book>, Error>)
      modifies this
      ensures !ValidRequest(book) ==> r == Err(ValidationError) && books == old(books)
      ensures ValidRequest(book) && FirstMatch(old(books), HasId(book.id)).None? ==>
                r == Err(NotFound(ITEM_NOT_FOUND)) && books == old(books)
      ensures ValidRequest(book) && FirstMatch(old(books), HasId(book.id)).Some? ==>
                books == Overwritten(old(books), book) && r == Ok(books)
      ensures old(Valid()) ==> Valid()
    {
      OverwrittenKeepsIds(books, book);
      if !ValidRequest(book) {
        return Err(ValidationError);
      }
      var update := false;
      for i := 0 to |books|
        invariant |books| == |old(books)|
        invariant forall k :: 0 <= k < i ==>
                    books[k] == if old(books)[k].id == book.id then book else old(books)[k]
        invariant forall k :: i <= k < |books| ==> books[k] == old(books)[k]
        invariant update <==> exists k :: 0 <= k < i && old(books)[k].id == book.id
      {
        if books[i].id == book.id {
          books := books[i := book];
          update := true;
        }
      }
      if !update {
        assert books == old(books);
        return Err(NotFound(ITEM_NOT_FOUND));
      }
      OverwrittenPointwise(old(books), books, book);
      r := Ok(books);
    }

    /**
     * Delete: remove the first record whose id is `bookId`; an absent id is
     * not an error and leaves the list as it is.
     */
    method DeleteBook(bookId: int) returns (r: Result<seq<Book>, Error>)
      modifies this
      ensures !ValidBookId(bookId) ==> r == Err(ValidationError) && books == old(books)
      ensures ValidBookId(bookId) ==> books == Deleted(old(books), bookId) && r == Ok(books)
      ensures old(Valid()) ==> Valid()
    {
      if !ValidBookId(bookId) {
        return Err(ValidationError);
      }
      ghost var before := books;
      if Valid() {
        DeletedPreservesValidIds(books, bookId);
      }
      var i := 0;
      while i < |books|
        invariant 0 <= i <= |books|
        invariant books == before
        invariant forall k :: 0 <= k < i ==> books[k].id != Some(bookId)
      {
        if books[i].id == Some(bookId) {
          books := books[..i] + books[i + 1..];
          break;
        }
        i := i + 1;
      }
      r := Ok(books);
    }
  }
}
