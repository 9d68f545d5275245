# School registry service: a Dafny model

The service keeps one table of schools and answers two HTTP requests:

- `/register` validates four JSON fields and rejects a duplicate (name, address) pair. Otherwise it inserts a row and the database assigns the row's id.
- `/listSchools` returns every row with its great-circle distance from a fixed reference point (latitude 18.790894, longitude 78.911850), sorted by that distance. When the table is empty it returns the plain-text reply "The database is empty" instead.

The model has two modules:

- `validator.dfy` (module `Validator`): the pure validator `validateInput`. JSON values are modelled as `JsVal`: a string, a number (`Number`: finite, infinite or NaN) or anything else. `String.prototype.trim` strips the leading and trailing ECMAScript whitespace and line terminators of a string of Unicode scalar values (see "## Left out" for strings that are not well-formed UTF-16). The lemma `TrimEmptyIff` proves that `s.trim() === ''` holds exactly when every character of `s` is such whitespace. The validator states its text check in that form (`IsBlank`).
- `schools.dfy` (module `Schools`) has four parts:
  - The `school` row.
  - The predicate `TableInvariant`, which states the schema's constraints. Ids are positive, no larger than the last AUTOINCREMENT id, and increasing. No two rows share (name, address). Stored fields passed validation.
  - A class `SchoolStore` that holds the table and the last id, with the two handlers `Register` and `List`.
  - The in-place insertion sort that stands for `Array.prototype.sort`.

  `Register` is proved against the function `RegisterStep`. Lemmas about that function state the four outcomes and prove that the invariant is preserved. `List` is proved to return a permutation of the annotated table, sorted by distance, that holds every row exactly once with its own distance. The sort is stable: rows with equal distance keep their table order, which is increasing id order.

Parameters stand for what the model cannot see:

- `dist: (Number, Number) -> real` stands for `calculateDistance` from the reference point.
- `dbFault: bool` stands for a failure inside the SQLite driver. Such a failure is answered with 500 "Database error" and leaves the table unchanged.

The success reply is "School registered successfully" without a final period (app.js:98). The duplicate reply is "School already exists." with one (app.js:89).

## Model

| member | source | states |
|---|---|---|
| Validator.LeadingWhitespace | app.js:43 | the count is at most the length, every counted character is whitespace, and the next character is not |
| Validator.TrailingWhitespace | app.js:43 | the count is at most the length, every counted character at the end is whitespace, and the one before them is not |
| Validator.TrimStart | app.js:43 | the result is a suffix of the input, only whitespace was removed, and it does not start with whitespace |
| Validator.TrimEnd | app.js:43 | the result is a prefix of the input, only whitespace was removed, and it does not end with whitespace |
| Validator.Trim | app.js:43 | a non-empty trimmed string starts and ends with a non-whitespace character |
| Validator.TrimEmptyIff | app.js:43-47 | `s.trim() === ''` holds exactly when every character of s is JavaScript whitespace, which is how the validator states its text check |
| Validator.ValidateInput | app.js:42-56 | null exactly when name and address are strings with a non-whitespace character and latitude and longitude are numbers that are not NaN (an infinity passes); otherwise the message of the first failing field in the order name, address, latitude, longitude; every message is non-empty, so `if (error)` takes it |
| Validator.ValidateInputExamples | app.js:43-51 | an empty or whitespace-only name is reported even when the latitude is also bad; a string or NaN latitude is reported once name and address pass |
| Schools.TableInvariant | app.js:19-28 | the AUTOINCREMENT and UNIQUE constraints: ids positive, at most the last id handed out, increasing in insertion order; no two rows with the same (name, address); stored fields validated. It entails that ids and pairs differ between any two distinct rows |
| Schools.FindByIdentity | app.js:83-88 | a row is found exactly when some stored row has that name and that address, and a found row is such a row |
| Schools.InsertPreservesInvariant | app.js:19-28 | appending a validated row with a new (name, address) and id lastId + 1 keeps ids unique, increasing and bounded, and pairs unique |
| Schools.RegisterStep | app.js:72-102 | the functional model of `/register`: the reply is plain text with status 200, 400 or 500; the table gains exactly one row when the status is 200, and otherwise rows and last id are unchanged; the last id never decreases and grows by at most one |
| Schools.RegisterOutcomes | app.js:72-102 | invalid input gives 400 with the validator's message and no change; a driver failure gives 500 "Database error" and no change; an existing pair gives 400 "School already exists." and no change; otherwise 200 "School registered successfully" and exactly one appended row with the submitted fields and the next id |
| Schools.RegisterPreservesInvariant | app.js:92-98 | every registration keeps the table invariant, leaves existing rows as they were, adds at most one row, and an added row's id exceeds every stored id |
| Schools.Annotate | app.js:126-128 | one listing entry per table row, in table order, each carrying that row and the distance of its own coordinates |
| Schools.ListingHasEveryRowOnce | app.js:121-132 | a listing that is a permutation of the annotated table has as many entries as the table has rows, holds each row exactly once with its distance, and holds nothing that is not a row |
| Schools.SortByDistance | app.js:130 | the array ends sorted by non-decreasing distance and is a permutation of what it held; when ids increase along the input, entries with equal distance end in increasing id order, that is, in their input order (stability) |
| Schools.InsertIntoSorted | app.js:130 | one insertion pass: a sorted prefix of length i becomes a sorted prefix of length i + 1, as a permutation, leaving the rest of the array alone; it moves the new entry only past strictly farther entries, so ties stay in id order |
| Schools.SchoolStore.constructor | app.js:19-28 | a new table is empty and satisfies the invariant |
| Schools.SchoolStore.Register | app.js:72-102 | the response and the new table are those of `RegisterStep` on the old table, and the invariant holds afterwards |
| Schools.SchoolStore.Insert | app.js:92-97 | for a validated pair that is not yet stored, the table gains exactly one row with the given fields and id lastId + 1, and the invariant still holds |
| Schools.SchoolStore.List | app.js:116-136 | a driver failure gives 500; an empty table gives 200 with the plain text "The database is empty"; otherwise 200 with a JSON list that is sorted by distance and is a permutation of the annotated table: it has one entry per row, holds each row exactly once with its own distance and nothing else, and rows with equal distance keep their table order |
| Schools.RegisterOnEmptyTable | app.js:92-98 | a valid registration on a new table answers 200 and stores the submitted fields as row 1 |
| Schools.RegisterTwice | app.js:83-98 | on a new table, registering the same valid (name, address) twice succeeds and then gives 400 "School already exists.", leaving one row |
| Schools.RegisterThenList | app.js:92-132 | on a new table, registering one school and then listing returns exactly that row, with id 1, the submitted fields and its distance |

## Left out

- HTTP plumbing (app.js:1-7, 30-32): Express, routing, JSON body parsing, `app.listen` on port 3001 and how responses are written out. The handlers take the four body fields as `JsVal`s and return a `Response` value.
- Opening SQLite, `CREATE TABLE IF NOT EXISTS` and `process.exit(1)` on a failed start (app.js:9-39): these are I/O in a foreign library. The constructor models a newly created table. A table already in the file enters the model only through the invariant it must satisfy.
- SQL evaluation: the duplicate lookup is exact string equality on name and address, which is SQLite's default BINARY collation.
- Database errors (app.js:99-101, 133-135): these come from inside the driver. They are modelled only as the `dbFault` flag, which gives 500 and leaves the table unchanged.
- The race between the duplicate `SELECT` and the `INSERT` when requests interleave (app.js:86-97): concurrency is not modelled, and each registration is one atomic step.
- `calculateDistance` (app.js:59-69): floating-point trigonometry is replaced by the abstract key `dist`. The model does not state that a distance is non-negative or zero for identical points.
- The `parseFloat`/`isNaN` check on the hard-coded reference point (app.js:106-114): its inputs are constants, so the 400 branch cannot be taken.
- Numbers are modelled as exact reals, without IEEE-754 rounding. `dist` returns a real and never NaN. In JavaScript an infinite coordinate gives a NaN distance, and with NaN keys the sort order depends on the engine.
- Schools.SortByDistance: stability is stated through ids, for inputs whose ids strictly increase. Every listing is such an input, because the table's ids increase in insertion order. For an arbitrary array the sort is proved sorted and a permutation, but keeping the order of ties is not stated.
- JSON serialisation of the listing: each entry is modelled as the row paired with its distance, rather than as a flat object with a `distance` property.
- Strings and ids: a Dafny `string` is a sequence of Unicode scalar values, not of UTF-16 code units. A JSON string with an unpaired surrogate (such as `"\ud800"`, which `validateInput` accepts) cannot be represented. `trim` and the duplicate lookup's string equality are modelled exactly only on well-formed strings. Ids are unbounded `nat`s, whereas SQLite's AUTOINCREMENT is a 64-bit integer: once the id reaches 2^63-1 the next insert fails, which the service would answer with 500 "Database error". The model never runs out of ids.
