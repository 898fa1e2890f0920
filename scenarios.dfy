/**
 * Example runs of the catalogue, stated over the seed list and the
 * functions that specify the handlers, and one session against the store.
 */
module Scenarios {
  import opened Wrappers
  import opened Books

  function Dune(): Book
  {
    Book(None, "Dune", "Herbert", "sci-fi", 5, 1965)
  }

  /** Creating on an empty list gives the new record id 1. */
  lemma CreateOnEmptyList()
    ensures ValidRequest(Dune())
    ensures FindBookId([], Dune()) == Ok(Dune().(id := Some(1)))
  {
  }

  /** Deleting id 3 from the seed keeps ids 1, 2, 4 and 5 in their order. */
  lemma DeleteFromSeed()
    ensures Deleted(Seed(), 3) == [Seed()[0], Seed()[1], Seed()[3], Seed()[4]]
  {
    var s := Seed();
    assert s[0].id != Some(3) && s[1].id != Some(3) && s[2].id == Some(3);
    assert FirstMatch(s, HasId(Some(3))) == Some(2);
  }

  /** Every seeded record has rating 4, so filtering by 4 returns them all. */
  lemma RatingFourIsWholeSeed()
    ensures GetBookByRating(Seed(), 4) == Ok(Seed())
  {
    forall i | 0 <= i < |Seed()|
      ensures Matches(Seed()[i], HasRating(4))
    {
    }
    SelectAll(Seed(), HasRating(4));
  }

  /** Reading id 3 from the seed yields exactly "Title three". */
  lemma ReadThreeFromSeed()
    ensures ReadBook(Seed(), 3) == Ok([Seed()[2]])
    ensures Seed()[2].title == "Title three"
  {
    SeedIsValid();
    ReadBookFindsUniqueRecord(Seed(), 2);
  }

  /** No seeded record has id 999. */
  lemma ReadMissingFromSeed()
    ensures ReadBook(Seed(), 999) == Err(NotFound(BOOK_NOT_FOUND))
  {
  }

  /**
   * Ids are derived from the last record, so deleting the last record and
   * creating again hands out the deleted id a second time.
   */
  lemma IdReusedAfterDeletingLast()
    ensures FindBookId(Deleted(Seed(), 5), Dune()) == Ok(Dune().(id := Some(5)))
  {
    var s := Seed();
    assert forall k :: 0 <= k < 4 ==> s[k].id != Some(5);
    assert FirstMatch(s, HasId(Some(5))) == Some(4);
    var d := Deleted(s, 5);
    assert d == s[..4];
    assert d[|d| - 1].id == Some(4);
  }

  /** A client session: two deletes of the same id, then an update that misses. */
  method SeededSession()
  {
    var store := new BookStore();
    DeleteFromSeed();
    var r := store.DeleteBook(3);
    assert store.books == [Seed()[0], Seed()[1], Seed()[3], Seed()[4]];
    DeleteIdempotent(Seed(), 3);
    r := store.DeleteBook(3);
    assert r == Ok([Seed()[0], Seed()[1], Seed()[3], Seed()[4]]);
    var u := store.UpdateBook(Dune().(id := Some(3)));
    assert u == Err(NotFound(ITEM_NOT_FOUND));
    var all := store.GetAllBooks();
    assert |all| == 4;
  }
}
