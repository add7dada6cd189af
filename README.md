# Book store model

This is a Dafny model of the in-memory book collection behind the REST handlers in `server.js`. The service keeps one ordered table of `{id, title, author}` records and a counter `nextId` for the next id. Six operations act on them:

- list, with optional case-insensitive author and title filters;
- get by id;
- create, which validates, rejects duplicates, then allocates `nextId++`, trims and appends;
- full replace;
- partial update;
- delete by splice.

The model has four modules:

- `Text` (`text.dfy`): the JavaScript string operations the handlers rely on.
  - `trim` strips the ECMAScript WhiteSpace and LineTerminator code points.
  - `toLowerCase` is ASCII only.
  - `includes` is a substring test.
- `Sequences` (`sequences.dfy`): the array operations `find`, `findIndex` and `filter`, generic over a sequence and a predicate.
- `BookApi` (`bookstore.dfy`): the records, the result kinds, the validation, and the class `BookStore`.
  - `books` and `nextId` are fields that the handler methods update (`modifies this`).
  - A ghost set `issued` records every id handed out.
  - List and get change nothing, so they are functions that read the store.
  - The table invariant `StoreInvariant` holds at start-up and after every operation:
    - ids are pairwise distinct;
    - every stored id was issued;
    - the issued ids are exactly 1 up to `nextId - 1`, so each new id is one more than the largest issued before;
    - no stored title or author has white space at either end.
- `Scenarios` (`scenarios.dfy`): client runs against any store that the handlers have kept valid, proved only from the contracts of `BookStore`.
- `SeedScenarios` (`scenarios.dfy`): the same kind of runs against the store as it is at start-up, with the three seed records and concrete inputs.

The result of a handler is `Ok(book)`, `ValidationFailed(details)`, `Conflict` or `NotFound(id)`. These stand for the 200/201, 400, 409 and 404 answers. A body or query field is `None` when it is undefined or null, and `Some(s)` when it is a string.

Two consequences of the code are worth stating, because they break properties one might expect of the table. The model keeps them as written:

- The duplicate test of create compares the lower-cased input **before** trimming with the stored (trimmed) values (server.js:81-84). So a stored title sent again behind a space, such as `" 1984"` by `"George Orwell"`, is not a conflict: it is trimmed and stored a second time, and the table then holds two equal records. See `Scenarios.PaddedTitleSlipsPastDuplicateCheck`.
- A partial update applies any truthy field, including one that is only white space, and stores its trim `""` (server.js:159-164). So "title and author are non-empty after trimming" is not an invariant of the table. It is kept by create, replace and delete, and by a partial update only when each truthy field is non-blank. "Stored values are trimmed" does hold always. See `Scenarios.BlankPatchEmptiesTitle`.

## Model

| member | source | states |
|---|---|---|
| Text.TrimStart | server.js:66 | the result is the suffix of the input left after its leading white space; every dropped character is white space and the result does not start with white space |
| Text.TrimEnd | server.js:66 | the result is the prefix of the input left after its trailing white space; every dropped character is white space and the result does not end with white space |
| Text.Trim | server.js:66 | `trim()`: the result is an infix `s[a..b]`; everything outside it is white space; neither end of the result is white space; it is empty exactly when the input is all white space |
| Text.TrimOfTrimmed | server.js:95-96 | a string with no white space at either end is its own trim |
| Text.TrimSkipsLeadingSpace | server.js:95 | a leading white-space character does not change the trim |
| Text.LowerChar | server.js:82 | ASCII lower-casing of one character: an upper-case letter moves by 32, anything else stays, and the result is never upper case |
| Text.Lower | server.js:82-83 | `toLowerCase()`: same length, each character lower-cased in place, no upper-case letter left |
| Text.Contains | server.js:29-35 | `includes`: the query occurs at some start position of the string |
| Text.FirstCharAbsent | server.js:29 | a query whose first character is at no possible start position does not occur |
| Text.ContainsSelfAndEmpty | server.js:29 | `includes` holds for the string itself and for the empty query |
| Sequences.Find | server.js:19 | `find`: `None` exactly when no element satisfies the predicate; otherwise the first element that does |
| Sequences.FindIndex | server.js:20 | `findIndex`: -1 exactly when no element satisfies the predicate; otherwise the index of the first that does |
| Sequences.FindAtFindIndex | server.js:19-20 | `find` returns the element at the index `findIndex` reports, and `None` when it reports -1 |
| Sequences.Filter | server.js:28-30 | `filter`: a subsequence of the input, in order; an element is kept exactly when it satisfies the predicate, as often as it occurs; nothing is dropped when every element satisfies it |
| Sequences.FilterTwice | server.js:27-36 | a filter after a filter keeps exactly what one filter by both predicates keeps |
| BookApi.Truthy | server.js:27-33 | JavaScript truthiness of a string field: present and not `""` (also the test at server.js:159 and 162) |
| BookApi.Blank | server.js:66-69 | the validation test: the field is absent or empty, or its trim is `""` |
| BookApi.ValidationErrors | server.js:65-71 | one message per blank field, the title's first; title message present exactly when the title is blank, likewise the author; empty exactly when both fields are usable |
| BookApi.BlankIgnoresCase | server.js:66-84 | two strings equal up to case are both blank or both usable, so a case-insensitive duplicate of a stored field passes validation |
| BookApi.BlankIffAbsentOrSpace | server.js:66 | the validation's blank test holds exactly when the field is absent or nothing but white space |
| BookApi.FindBookById | server.js:19 | `None` exactly when no stored book has the id; otherwise a stored book with that id |
| BookApi.FindBookIndex | server.js:20 | -1 exactly when no stored book has the id; otherwise the first index holding it |
| BookApi.FindBookIndexUnique | server.js:19-20 | with distinct ids, the index found is the one holding the id, and the book found by id is the book at that index |
| BookApi.SameWork | server.js:82-83 | the duplicate test: lower-cased title and lower-cased author both equal |
| BookApi.FindDuplicate | server.js:81-84 | `None` exactly when no stored book has the same lower-cased title and author; otherwise a stored book that does |
| BookApi.MatchesQuery | server.js:27-36 | a book passes the listing: each truthy filter occurs in the lower-cased field, lower-cased |
| BookApi.StoreInvariant | server.js:11-16 | the table invariant: distinct ids, each issued; issued ids exactly 1 up to the counter (exclusive); stored fields trimmed |
| BookApi.BookStore.Valid | server.js:11-16 | the store's fields meet `StoreInvariant` |
| BookApi.SeedInvariant | server.js:11-16 | the start-up table with counter 4 and ids {1,2,3} issued meets the table invariant and has no blank field |
| BookApi.CounterFollowsIssued | server.js:16 | under the invariant the counter is one past the largest id issued: every issued id is below it, the id just below it was issued whenever any was, and nothing was issued exactly when it is 1 |
| BookApi.InvariantIdsBelow | server.js:16 | under the invariant every stored id is below `nextId` |
| BookApi.AppendKeepsInvariant | server.js:93-99 | appending a trimmed record under the counter's value and bumping the counter keeps the invariant; that id was never issued before |
| BookApi.UpdateKeepsInvariant | server.js:133-137 | overwriting one record with a trimmed record of the same id keeps the invariant |
| BookApi.RemoveKeepsInvariant | server.js:185 | splicing out one record keeps the invariant and the non-blank property, and leaves no record with the removed id |
| BookApi.CreateOutcome | server.js:61-101 | `ValidationFailed` with the messages of `ValidationErrors` exactly when a field is blank; otherwise `Conflict` exactly when a stored book matches the untrimmed input ignoring case; otherwise `Ok` with the record `{nextId, trim(title), trim(author)}` |
| BookApi.BookStore.constructor | server.js:11-16 | the store starts with the three seed records and counter 4, and meets the invariant |
| BookApi.BookStore.List | server.js:23-43 | the result is a subsequence of the table in stored order; a book is listed exactly when it passes every truthy filter, as often as it is stored; `count` is the length; no filter lists the whole table |
| BookApi.BookStore.Get | server.js:46-58 | `NotFound(id)` exactly when no book has the id; otherwise a stored book with that id |
| BookApi.BookStore.Create | server.js:61-101 | `ValidationFailed` with the messages of `ValidationErrors` exactly when a field is blank; otherwise `Conflict` exactly when a book matches the untrimmed input ignoring case; otherwise appends `Book(old nextId, trim(title), trim(author))` and bumps the counter; the new id was never issued, is above every id issued before and is one more than the largest of them; a failure changes nothing; the invariant is kept |
| BookApi.BookStore.Append | server.js:93-99 | `nextId++` and `books.push`: the table gains the record at its end, the counter grows by one, the id was never issued, and the invariant is kept |
| BookApi.BookStore.Overwrite | server.js:133 | `books[bookIndex] = …`: only that index changes, the counter stays, and the invariant is kept |
| BookApi.BookStore.Replace | server.js:104-143 | `NotFound(id)` exactly when the id is absent; then `ValidationFailed` as in create; otherwise only the record at the found index becomes `Book(id, trim(title), trim(author))`; the counter never changes and a failure changes nothing |
| BookApi.BookStore.Patch | server.js:146-170 | `NotFound(id)` exactly when the id is absent, and otherwise never fails; each truthy field is stored trimmed and the other keeps its value; only that record changes; the counter never changes |
| BookApi.BookStore.Delete | server.js:173-191 | `NotFound(id)` exactly when the id is absent; otherwise returns the removed record, the table is the old one without that index in the same order, no record keeps the id, and the counter stays |
| Scenarios.FieldsUsable | server.js:66-71 | a non-empty title and author with no white space at either end pass validation and are their own trims |
| Scenarios.BlankFieldsReportBoth | server.js:65-78 | creating with a blank title and a blank author (absent, empty or white space) answers `ValidationFailed` with both messages, title first, and changes nothing |
| Scenarios.ResubmitConflicts | server.js:81-91 | re-submitting a stored record with no empty field, in any letter case, is a conflict and changes nothing |
| Scenarios.PaddedNeverDuplicate | server.js:81-84 | a title that starts with a space never matches a stored (trimmed) title, so it is never a duplicate |
| Scenarios.PaddedTitleSlipsPastDuplicateCheck | server.js:81-99 | a stored title sent again behind a space passes the duplicate test and is appended, trimmed, as a second record with the same title and author |
| Scenarios.IdsNeverReused | server.js:94 | after a delete, a created record never gets the deleted id, nor the id of any record stored before |
| Scenarios.DeletedIdNotFound | server.js:46-58 | after deleting an id, getting it answers `NotFound(id)` |
| Scenarios.ReplaceThenGet | server.js:133-137 | after a successful full replace, get returns the replaced record; after a not-found replace, get is not found too |
| Scenarios.EmptyPatchChangesNothing | server.js:159-164 | a partial update with an empty title and no author changes nothing and answers what get answers |
| Scenarios.BlankPatchEmptiesTitle | server.js:159-161 | a partial update with a whitespace-only title succeeds and stores the title `""`, so the table then holds a blank title |
| Scenarios.ListedByOwnFields | server.js:27-36 | every stored record is listed when filtered by its own author and title |
| SeedScenarios.SeedDuplicateConflicts | server.js:81-91 | on the start-up table, creating "1984" by "George Orwell" is a conflict |
| SeedScenarios.OrwellNotInFirstTwo | server.js:81-84 | no record of the start-up table other than the third has the title "1984", ignoring case |
| SeedScenarios.DeleteOrwell | server.js:184-185 | deleting id 3 from the start-up table returns "1984" by George Orwell and leaves the first two records |
| SeedScenarios.SeedIdsNotReused | server.js:93-99 | after deleting record 3 of the start-up table, creating it again gives id 4, not 3 |
| SeedScenarios.SeedDeleteMissing | server.js:177-182 | deleting id 999 from the start-up table is not found and leaves the table and the counter as they were |
| SeedScenarios.SeedReplaceThenGet | server.js:104-143 | on the start-up table, a full replace of id 2 by "X" and "Y" followed by a get of id 2 returns `{2, "X", "Y"}` |
| SeedScenarios.OnlyLeeMatches | server.js:27-31 | of the three seed records, exactly Harper Lee's author contains "lee", ignoring case |
| SeedScenarios.ListedOnlyLee | server.js:27-31 | a listing that holds each seed record matching author "lee" as often as it is stored, and nothing else, is the Harper Lee record alone |
| SeedScenarios.SeedAuthorFilterLee | server.js:23-43 | on the start-up table, listing by author "lee" gives count 1 and exactly the Harper Lee record |

## Left out

- Routing, parsing the JSON body, `app.listen` and console logging are not modelled: they are I/O. The handlers are methods that take the extracted fields as parameters.
- HTTP status codes, response shapes and message text are reduced to the result kind. The exception is the two validation messages, which are modelled. The 404 messages use template strings that do not parse as written.
- The 500 error middleware and the catch-all 404 route are left out. They are framework behaviour. This also covers `trim()`/`toLowerCase()` throwing on a truthy value that is not a string: fields are strings or absent. The promise that a failing operation changes nothing depends on that: in the source, a partial update with a string title and a truthy non-string author stores the new title (server.js:160) before `updates.author.trim()` throws (server.js:163), so that 500 answer leaves the store changed.
- `parseInt` on the path id is left out: ids are `int` parameters. Not-a-number and other unparsable ids are not represented; in the source they simply find no book.
- Query parameters given as arrays are left out; a query field is a string or absent.
- Text.Lower: only ASCII letters are lower-cased; the full Unicode case mapping of `toLowerCase` is not modelled.
- Strings are sequences of Unicode scalar values, while JavaScript strings are sequences of UTF-16 code units. A JavaScript string with an unpaired surrogate cannot be represented, and a character above U+FFFF is one element here but two code units in the source. Neither difference affects `Trim` (every white-space code point lies below U+FFFF) or `Contains` on well-formed strings.
- BookApi.BookStore.Create: `nextId` is an unbounded integer; the precision limit of JavaScript numbers above 2^53 is not modelled.
- Records are values, so the table is a sequence of values. The source keeps mutable objects and returns references to them: a partial update changes the stored object in place, and the JSON answer is serialised from it at once. No caller can observe the aliasing, so the model does not capture it.
