# Book ETL — a Dafny model

The Book_ETL service scrapes a book catalogue once at startup, normalises every record, and
upserts the records into the MongoDB collection `books`, keyed by title. A FastAPI router
exposes create, read, update and delete over the same collection. This project models the
part that decides what ends up in that collection:

- the normaliser `transform_data`, which cleans prices and capitalises titles in place;
- the loader `load_data`, which issues one title-keyed upsert per record;
- the startup hook `run_etl`, which joins the two and skips both when nothing was extracted;
- the five handlers of `routers/book_api.py`.

The collection is one object, `Database.BookStore`. It holds the documents in natural
(insertion) order, each with its identifier, plus a counter that hands out fresh identifiers.
Its value is `Collection.State`. Every collection call the repository makes is a pure function
on that value in module `Collection`, and a method of `BookStore` whose postcondition ties the
new value to that function. The loader, the orchestrator and the writing handlers are methods
on the store. The read handlers are functions of the store's value.

Modules, one per source file or component:

- `Schema`: `models/schema.py`, plus an `Option` type.
- `Text`: the Python string built-ins the normaliser uses.
- `Transform`: `etl/transform.py`.
- `Collection`: the collection's value and its operations.
- `Database`: the `BookStore` class.
- `Load`: `etl/load.py`.
- `BookApi`: `routers/book_api.py`.
- `EtlMain`: `main.py`.

Where the design description and the code differ, the model follows the code:

- The design says the title is a natural key with at most one document per title. The
  loader keeps that invariant (`Load.LoadKeepsPrefix`), but `create_book` performs no title
  check and can break it (`BookApi.CreateCanDuplicateTitle`).
- The documents the startup run never touches include those stored through the API under a
  title that is not capitalised (`EtlMain.EtlKeepsUncapitalisedTitles`).
- The design says the order of the upserts does not matter. The code issues them in list
  order, and when a title occurs twice in one batch the later record wins
  (`Load.LoadLastWriteWins`).

## Model

| member | source | states |
|---|---|---|
| `Text.RemoveChar` | etl/transform.py:6 | `replace("Â", "")` as a recursive filter; what it removes and what it keeps, in order, is stated by `Text.RemoveCharSpec`, `Text.RemoveCharSingle` and `Text.RemoveCharAppend` |
| `Text.RemoveCharSpec` | etl/transform.py:6 | `replace("Â", "")` removes every `Â`, keeps every other character (as a multiset), and leaves a string without `Â` unchanged |
| `Text.RemoveCharSingle` | etl/transform.py:6 | a single character is dropped exactly when it is `Â` |
| `Text.RemoveCharAppend` | etl/transform.py:6 | removal distributes over concatenation, so with `Text.RemoveCharSingle` the kept characters stay in their original order |
| `Text.Strip` | etl/transform.py:6 | `strip()`; its contract is carried by `Text.StripSpec`, which fixes the result uniquely |
| `Text.StripSpec` | etl/transform.py:6 | `strip()` returns the slice left after cutting the longest whitespace prefix and suffix: no whitespace at either end, and only whitespace was cut |
| `Text.StripKeepsChars` | etl/transform.py:6 | stripping cannot introduce a character that was absent |
| `Text.StripFixpoint` | etl/transform.py:6 | a string without whitespace at either end is its own `strip()` |
| `Text.LeadingSpaces` | etl/transform.py:6 | the longest whitespace prefix: all of it is whitespace and the character after it is not |
| `Text.TrailingSpaces` | etl/transform.py:6 | the longest whitespace suffix: all of it is whitespace and the character before it is not |
| `Text.Upper` | etl/transform.py:7 | the upper-case mapping never yields a lower-case letter and changes only lower-case letters |
| `Text.Lower` | etl/transform.py:7 | the lower-case mapping never yields an upper-case letter and changes only upper-case letters |
| `Text.CaseAgrees` | etl/transform.py:7 | upper- and lower-casing agree on which letter a character is |
| `Text.LowerAll` | etl/transform.py:7 | lower-cases every character and keeps the length |
| `Text.Capitalize` | etl/transform.py:7 | `capitalize()` keeps the length, upper-cases the first character and lower-cases every later one |
| `Text.CapitalizeShape` | etl/transform.py:7 | every capitalised title has no lower-case first letter and no upper-case later letter; the empty title stays empty |
| `Text.CapitalizeFixpoint` | etl/transform.py:7 | `capitalize()` leaves a title unchanged if and only if the title already has the capitalised shape |
| `Text.CapitalizeIdempotent` | etl/transform.py:7 | capitalising twice gives the same title as capitalising once |
| `Text.CapitalizeIgnoresCase` | etl/transform.py:7 | two titles capitalise to the same key if and only if they have the same length and agree letter by letter up to ASCII case |
| `Transform.CleanPrice` | etl/transform.py:6 | the price edit, `Strip` after `RemoveChar`; its properties are in `Transform.CleanPriceShape` and `Transform.CleanPriceExample` |
| `Transform.CleanPriceShape` | etl/transform.py:6 | a cleaned price contains no `Â` and has no whitespace at either end; a price that is already clean is kept |
| `Transform.CleanPriceExample` | etl/transform.py:6 | the mis-decoded price `" Â£51.77 "` becomes `"£51.77"`: only the artifact and the surrounding blanks go |
| `Transform.Normalise` | etl/transform.py:6-7 | one iteration of the loop: price cleaned, title capitalised, availability kept; stated record by record in `Transform.NormalisedShape` |
| `Transform.Normalised` | etl/transform.py:5-9 | the normalised list has as many records as the input |
| `Transform.NormalisedShape` | etl/transform.py:5-7 | record by record: the same number and order, availability unchanged, price free of `Â` and stripped, title capitalised |
| `Transform.NormaliseIdempotent` | etl/transform.py:6-7 | normalising a normalised record changes nothing |
| `Transform.NormalisedIdempotent` | etl/transform.py:5-9 | transforming the transformed list gives the same records |
| `Transform.TransformData` | etl/transform.py:3-9 | overwrites every record of the array in place with its normalised form and returns the same array |
| `Collection.FindTitle` | etl/load.py:8 | the filter `{"title": t}` matches the first document with title `t`, or reports that none has it |
| `Collection.FindId` | routers/book_api.py:52 | the filter `{"_id": id}` matches the first document with that identifier, or reports that none has it |
| `Collection.FindTitleKept` | etl/load.py:8 | a title found among documents whose places, ids and titles are kept is found at the same place |
| `Collection.Upsert` | etl/load.py:8 | an existing title: the first such document takes the record's fields and keeps its id, and no document is added; a new title: one document with the fresh id is appended; every other document is unchanged; unique ids and unique titles are preserved |
| `Collection.Insert` | routers/book_api.py:76 | `insert_one` appends one document under the fresh id and keeps the others; the id was unused before and is found afterwards |
| `Collection.SetById` | routers/book_api.py:102 | `$set` by id replaces that document's three fields in place and keeps every id; an unknown id leaves the collection unchanged |
| `Collection.DeleteById` | routers/book_api.py:126 | `delete_one` by id removes exactly that document, keeps the others in their order, and the id is no longer found; an unknown id changes nothing |
| `Database.BookStore.constructor` | config/database.py:12-14 | the handle on the persistent collection starts from whatever value the database already holds, with valid identifiers |
| `Database.BookStore.UpdateOneUpsert` | etl/load.py:8 | the store's new value is `Collection.Upsert` of its old value |
| `Database.BookStore.InsertOne` | routers/book_api.py:76 | the store's new value is `Collection.Insert` of its old value, and the answer is the fresh id |
| `Database.BookStore.UpdateOneById` | routers/book_api.py:102 | the store's new value is `Collection.SetById` of its old value, and `matched_count` is 1 exactly when the id existed |
| `Database.BookStore.DeleteOne` | routers/book_api.py:126 | the store's new value is `Collection.DeleteById` of its old value, and `deleted_count` is 1 exactly when the id existed |
| `Load.LoadAll` | etl/load.py:7-8 | the collection after the batch's upserts, applied in list order; every `Load` lemma below is about it, and `Load.LoadData` is proved equal to it |
| `Load.LastIndexOf` | etl/load.py:7 | the position of the last record in the batch with a given title, or none |
| `Load.NewTitles` | etl/load.py:7-8 | a title is new exactly when some record of the batch has it and no stored document does |
| `Load.LoadData` | etl/load.py:4-9 | the loop leaves the store equal to the upserts of the records applied one by one in list order, and keeps identifiers valid |
| `Load.LoadKeepsPrefix` | etl/load.py:7-8 | loading removes and moves no document and keeps every id and title; unique ids stay unique, and unique titles stay unique |
| `Load.LoadLastWriteWins` | etl/load.py:7-8 | after loading, every title of the batch is stored, and its first document carries the fields of the batch's last record with that title |
| `Load.LoadPresent` | etl/load.py:7-8 | after loading, a title is stored if and only if it was stored before or occurs in the batch |
| `Load.LoadKeepsOldDocs` | etl/load.py:7-8 | an earlier document keeps its place and id; it takes the last matching record's fields when it is the first document with its title, and is unchanged otherwise, in particular when no record has its title |
| `Load.LoadGrowth` | etl/load.py:7-8 | the collection grows by exactly the number of distinct batch titles it did not hold, and the id counter advances by as much |
| `Load.LoadNewIds` | etl/load.py:8 | each added document takes the next fresh identifier in turn |
| `Load.LoadNewTitles` | etl/load.py:8 | each added document carries a batch title that was not stored before |
| `Load.LoadNewBooks` | etl/load.py:8 | each added document holds the fields of one of the batch's records |
| `Load.LoadIdempotent` | etl/load.py:7-8 | loading the same batch a second time leaves the collection, ids included, as the first load left it |
| `BookApi.NotFound` | routers/book_api.py:53-54 | the `HTTPException` with status 404 and detail "Book not found" that `get_book`, `update_book` (routers/book_api.py:103-104) and `delete_book` (routers/book_api.py:127-128) raise |
| `BookApi.InDB` | routers/book_api.py:28 | a stored document as the API shows it: its identifier with its three fields, as built at routers/book_api.py:28 and :55; `BookApi.GetBooksAgreesWithGetBook` and `BookApi.GetBook` state what it yields |
| `BookApi.GetBooks` | routers/book_api.py:27-28 | one entry per stored document |
| `BookApi.GetBook` | routers/book_api.py:52-55 | found if and only if a document has the id; then the answer carries that id and the document's stored fields; otherwise 404 "Book not found" |
| `BookApi.GetBooksAgreesWithGetBook` | routers/book_api.py:27-28 | every listed entry is what `get_book` answers for its id, and every book `get_book` finds is listed |
| `BookApi.CreateThenGet` | routers/book_api.py:76-77 | the new id was not in use; afterwards `get_book` returns the created book under it, and every other id answers as before |
| `BookApi.CreateCanDuplicateTitle` | routers/book_api.py:76 | creating a book whose title is already stored leaves two documents with that title |
| `BookApi.CreateTwiceGivesTwoDocs` | routers/book_api.py:76 | two creates of one payload give two documents with the same fields and distinct ids |
| `BookApi.UpdateThenGet` | routers/book_api.py:102-105 | after an update of a known id, `get_book` returns the payload under that id, and every other id answers as before |
| `BookApi.DeleteThenGet` | routers/book_api.py:126-129 | after a delete, `get_book` reports not-found for the id, and every other id answers as before |
| `BookApi.CreateBook` | routers/book_api.py:76-77 | adds one document with a fresh id and answers that id with the unchanged payload, which `get_book` then returns |
| `BookApi.UpdateBook` | routers/book_api.py:102-105 | an unknown id gives 404 and no change; a known id has its three fields set, keeps its id, and gets the id with the payload as answer |
| `BookApi.DeleteBook` | routers/book_api.py:126-129 | an unknown id gives 404 and no change; a known id is removed and the success message is answered; either way `get_book` then reports not-found |
| `EtlMain.EtlRun` | main.py:16-19 | the collection after one run: unchanged for an empty extraction, otherwise `LoadAll` of the normalised records; `EtlMain.RunEtl` is proved equal to it and the `EtlMain` lemmas state its properties |
| `EtlMain.RunEtl` | main.py:14-20 | an empty extraction leaves the store unchanged; otherwise the store becomes the load of the normalised records |
| `EtlMain.EtlIdempotent` | main.py:16-19 | running twice on the same extracted records leaves the same collection as running once |
| `EtlMain.EtlStoresUnderCapitalisedTitle` | main.py:18-19 | normalisation comes before the upsert: every extracted record is stored under its capitalised title, with the normalised fields of the last record that has that key |
| `EtlMain.EtlUpdatesStoredKey` | main.py:18-19 | a document already stored under the capitalised key is updated in place: same place, same id, and still the first with that title |
| `EtlMain.EtlTouchesOnlyNormalisedTitles` | main.py:18-19 | a run changes no document whose title is not the capitalised title of some extracted record |
| `EtlMain.EtlKeepsUncapitalisedTitles` | main.py:18-19 | documents whose titles are not capitalised, such as some created through the API, survive every run unchanged |
| `EtlMain.EtlWritesNormalisedRecords` | main.py:17-19 | after a run, every document is either as it was or holds a normalised record: capitalised title, price without `Â` and without surrounding whitespace |

## Left out

- `etl/extract.py` is not part of this model. It covers the HTTP GET, the status check and the XPath queries, which are network I/O and foreign libraries. The extracted list is an input of `EtlMain.RunEtl`, and the non-200 answer is the empty-list case.
- Missing fields: `.get()` yields `None` for an absent title or price, and `transform_data` then raises. The model's `Book` has string fields, so such records cannot be expressed and that failure is not modelled.
- `Text.Capitalize`: case mapping covers ASCII letters only. Python upper-cases (title-cases) and lower-cases every Unicode letter, including multi-character mappings. Non-ASCII letters are kept unchanged here.
- Whitespace: `strip()` is modelled with exactly the code points for which Python's `str.isspace` holds. No other Unicode detail is modelled.
- Identifiers: an `ObjectId` is a number from a counter. The string conversion `str(_id)` and the parsing `ObjectId(book_id)` are not modelled, so a malformed id, which raises instead of answering 404, is outside the model.
- Natural order: when several documents share a title, MongoDB does not promise which one `update_one` matches. The model picks the earliest inserted. Under the one-document-per-title invariant, which the loader keeps, the choice does not matter.
- Write failures: per-record errors and partial completion of a batch are not modelled. Every write succeeds.
- Logging, environment and connection setup (`config/`), FastAPI routing, `async`, pydantic validation and `response_model` filtering are framework plumbing with no behaviour to verify. The extra `_id` key that `**book` copies into `get_books` entries is dropped by `response_model`, so the model omits it.
- The handler docstrings mention `author` and `description`. The model follows `models/schema.py`, whose fields are `title`, `price` and `availability`.
