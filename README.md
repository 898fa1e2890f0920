# Book catalogue model

A Dafny model of the book catalogue of a small FastAPI demonstration service
(`books/books2.py`). The service keeps one process-wide list `BOOKS` of book
records, seeded with five books (ids 1 to 5, all rated 4). Its request
handlers list the books, read them by id, filter them by rating or by
publication year, create a book with a derived id, overwrite books by id and
delete the first book with a given id.

The model has three files:

- `wrappers.dfy` (module `Wrappers`): `Option` and `Result`.
- `books.dfy` (module `Books`):
  - the `Book` record. Its id is an `Option<int>`, because the request payload and the stored record share one shape.
  - the request bounds (`ValidRequest`, `ValidBookId`, `ValidRating`).
  - the seed list.
  - the read handlers as functions over the current list.
  - the functions that specify the three mutations (`FindBookId`, `Overwritten`, `Deleted`).
  - the class `BookStore`. Its field `books` is the global list, and its methods `CreateBook`, `UpdateBook` and `DeleteBook` change that list in place, with the loops of the source.
- `scenarios.dfy` (module `Scenarios`): example runs over the seed and a sample "Dune" payload, and one client session against the class.

Errors are values of `Books.Error`:

- `NotFound(detail)` is the `HTTPException` with status 404. Its detail is "Book not found" for read and "Item not found" for update.
- `ValidationError` is the refusal the validation layer produces before a handler runs. It covers a payload out of the field bounds, and a path or query parameter out of its `gt=0` / `le=5` bound.
- `TypeError` is what `BOOKS[-1].id + 1` raises when the last record has no id. That state never arises from the seed: with `ValidIds`, create always succeeds on a valid payload.

Python's `==` between an `int` id and a `None` id is modelled by equality on
`Option<int>`. So an update whose id is `None` matches no stored record, as in the source.

The invariant `ValidIds` says every stored record has a positive id and ids
strictly increase from front to back. The seed meets it, and create, update
and delete each preserve it. So ids are unique, and under the invariant read
returns exactly one record, update changes exactly one slot, and a second
delete of the same id is a no-op.

A new id is the last record's id + 1, and the model follows that. It is not
in general the largest id + 1. Under `ValidIds` the last id is the largest, so
the two agree there. That takes two of `FindBookId`'s postconditions
together: the fourth gives last id + 1, and the fifth shows the new id exceeds
every stored id.

## Model

| member | source | states |
|---|---|---|
| `Books.ValidRequest` | books/books2.py:28-33 | the request bounds: title and author at least 3 characters, description at most 100, rating in 1..5, publication year strictly between 1000 and 2025, no bound on the id |
| `Books.ValidBookId` | books/books2.py:71 | the `Path(gt=0)` bound on the path id, which read and delete share (also books/books2.py:105) |
| `Books.ValidRating` | books/books2.py:80 | the `Query(gt=0, le=5)` bound on the rating |
| `Books.Seed` | books/books2.py:48-55 | the five seeded records with ids 1 to 5, rating 4, years 2012 to 2016, titles and authors as in the source |
| `Books.Select` | books/books2.py:72-87 | the result keeps exactly the records of the list that match the criterion (membership in both directions) and is no longer than the list |
| `Books.SelectIsMatchingSubsequence` | books/books2.py:72-87 | the k-th selected record is the record at the k-th matching position, and the positions enumerated are exactly the matching ones, increasing: the comprehension is the in-order subsequence of matches |
| `Books.SelectAll` | books/books2.py:81 | when every record matches, the filter returns the whole list unchanged |
| `Books.SelectNone` | books/books2.py:81-82 | when no record matches, the filter returns the empty list |
| `Books.SelectUniqueId` | books/books2.py:72 | with valid ids, selecting a stored record's id yields that one record |
| `Books.FirstMatch` | books/books2.py:106-107 | the position found matches and no earlier one does; none is found exactly when no record matches |
| `Books.ReadBook` | books/books2.py:70-76 | a non-positive id is refused; "Book not found" exactly when no record has the id; success exactly when a positive id is carried by some record, and then the result is the non-empty `Select` of the records with that id, in list order |
| `Books.ReadBookFindsUniqueRecord` | books/books2.py:72-74 | with valid ids, reading a stored id returns exactly that record |
| `Books.GetBookByRating` | books/books2.py:79-82 | fails only on a rating outside 1..5, and then only with a validation error; otherwise the `Select` of the records with that rating, in list order, possibly empty |
| `Books.GetBookByPublishDate` | books/books2.py:85-89 | never fails, for any year; the `Select` of the records published that year, in list order, possibly empty |
| `Books.FindBookId` | books/books2.py:113-115 | the request's id is replaced by 1 on an empty list and by last id + 1 otherwise, other fields kept; fails only with a type error when the last id is missing; with valid ids it succeeds and appending the record keeps the ids valid, so the new id exceeds every stored id |
| `Books.CreatedBookIsReadable` | books/books2.py:64-67 | with valid ids, the created record can be read back, alone, under its new id |
| `Books.Overwritten` | books/books2.py:95-98 | same length; every position whose id equals the request's id holds the request; every other position is unchanged |
| `Books.OverwrittenPointwise` | books/books2.py:95-98 | a list that agrees slot by slot with "request where the id matches, old record elsewhere" is `Overwritten`: this connects the update loop to its specification |
| `Books.OverwrittenKeepsIds` | books/books2.py:96-97 | an update never changes the id at any position, so it preserves valid ids |
| `Books.OverwrittenUnique` | books/books2.py:95-98 | with valid ids, an update replaces exactly the one matching slot |
| `Books.UpdateWithoutIdMatchesNothing` | books/books2.py:96-100 | with valid ids, an update whose id is absent matches no record, so it ends in "Item not found" |
| `Books.Deleted` | books/books2.py:106-110 | the list without its first record carrying the id, others in their order; the list itself when no record carries it |
| `Books.DeletedLength` | books/books2.py:106-109 | the length drops by exactly one when some record carries the id, and is unchanged otherwise |
| `Books.RemovePreservesValidIds` | books/books2.py:108 | removing any one record keeps the remaining ids valid |
| `Books.DeletedPreservesValidIds` | books/books2.py:106-109 | delete preserves valid ids, and afterwards no record carries the deleted id |
| `Books.DeletedBookIsGone` | books/books2.py:104-110 | with valid ids, reading an id after deleting it fails with "Book not found" |
| `Books.DeleteAbsentIsNoOp` | books/books2.py:106-110 | deleting an id no record carries returns the list unchanged |
| `Books.DeleteIdempotent` | books/books2.py:104-110 | with valid ids, deleting the same id twice is the same as deleting it once |
| `Books.ValidIdsAreUnique` | books/books2.py:48-55 | valid ids are pairwise distinct |
| `Books.SeedIsValid` | books/books2.py:48-55 | the seed has valid ids, meets the request bounds and is rated 4 throughout |
| `Books.BookStore.constructor` | books/books2.py:48-55 | the list starts as the seed, which satisfies the invariant |
| `Books.BookStore.GetAllBooks` | books/books2.py:58-60 | returns the current list |
| `Books.BookStore.CreateBook` | books/books2.py:63-67 | out-of-bounds payload: validation error, list unchanged; otherwise the list gains exactly the record `FindBookId` builds, at the end, and is returned; the invariant is kept, and under it a valid payload always succeeds |
| `Books.BookStore.UpdateBook` | books/books2.py:92-101 | out-of-bounds payload: validation error; no match: "Item not found", list unchanged; otherwise the list becomes `Overwritten` of the old one and is returned; the invariant is kept |
| `Books.BookStore.DeleteBook` | books/books2.py:104-110 | non-positive id: validation error, list unchanged; otherwise the list becomes `Deleted` of the old one, even when nothing matched, and is returned; the invariant is kept |
| `Scenarios.CreateOnEmptyList` | books/books2.py:113-115 | the sample "Dune" payload (rating 5, published 1965) meets the request bounds, and created on an empty list it gets id 1 |
| `Scenarios.DeleteFromSeed` | books/books2.py:104-110 | deleting id 3 from the seed leaves the records with ids 1, 2, 4, 5 in their order |
| `Scenarios.RatingFourIsWholeSeed` | books/books2.py:79-82 | the rating-4 filter over the seed returns the whole seed |
| `Scenarios.ReadThreeFromSeed` | books/books2.py:70-76 | reading id 3 from the seed returns exactly the record titled "Title three" |
| `Scenarios.ReadMissingFromSeed` | books/books2.py:73-76 | reading id 999 from the seed fails with "Book not found" |
| `Scenarios.IdReusedAfterDeletingLast` | books/books2.py:114 | after deleting the last seeded record, the next create is given its id 5 again |

## Left out

- HTTP routing, decorators, the FastAPI application object and status codes (`books/books2.py:3-7` and the route lines). A 404 is the `NotFound` error value. Which route serves which request is not modelled.
- Pydantic validation. Only its numeric and length bounds are kept, as the predicates `ValidRequest`, `ValidBookId` and `ValidRating`. Type coercion, missing fields and the field-level error detail are not modelled: `ValidationError` carries no detail.
- String lengths are lengths of `seq<char>`. Pydantic counts Unicode code points, and no encoding or normalisation is modelled.
- The `json_schema_extra` example payload: documentation only.
- The `print` in `get_book_by_publishdate`: output only.
- `async` handlers and the lack of locking around the global list. The model is sequential: each handler runs to completion on its own.
- The difference between `Book` and `BookRequest`. One record type with an optional id serves as both. So update storing the request object is modelled as storing a `Book` value.
- `new_book` is a fresh object, so `find_book_id` setting its id is modelled as a function that returns the record with the new id.
- `todoapp/models.py`: a table declaration with no behaviour.
