# Book collection service: a verified model

This project models the in-memory core of a small Express service. The service keeps a
collection of book records in one JSON file. It has five routes:

- `GET /books` lists everything.
- `GET /books/available` lists the records whose `available` is `true`.
- `POST /books` creates a record.
- `PUT /books/:id` partially updates a record.
- `DELETE /books/:id` deletes by id.

Every handler reads the whole file, applies one transform and, for writes, saves the whole
collection back.

Modules:

- `JsValues` (`values.dfy`): JSON values as `JSON.parse` returns them, with ToBoolean
  (`Truthy`) and property reads (`Get`). Data read from the file is never validated, so a
  collection is a `seq<Value>`. Its elements may be `null`, `false`, `0`, strings, arrays, or
  objects with any fields.
- `Numbers` (`numbers.dfy`): `parseInt(s, 10)` as section 19.2.5 of ECMA-262 defines it.
  Also `String.prototype.trim`, and how JavaScript writes an integer.
- `Collection` (`collection.dfy`):
  - the array methods the handlers call (`filter`, `findIndex`, `some`) and the max-id
    `reduce`;
  - the callbacks passed to them;
  - the spread-and-assign partial update;
  - the delete filter;
  - the fixed two-record seed;
  - the invariant that numeric ids are unique.
- `Persistence` (`persistence.dfy`): the data file as a class `DataFile` whose `state` the
  write methods update. `ReadResult` is `readBooks`' decision about what it read:
  - a missing file, white-space-only text, unparsable text and a non-array all give `[]`;
  - any other read error rejects;
  - a parsed array comes back unchanged.
- `Handlers` (`handlers.dfy`): the five routes as methods over a `DataFile`. Each one's
  contract gives the status, body and new file state in terms of the request, the file state
  and the write outcome, with the checks in `app.js`'s order. The contracts are stated with
  the functions of the other modules (`ReadResult`, `NextId`, `Updated`, `Deleted`); how
  closely those follow `app.js` is a matter of reading the code, and the rows below cite the
  lines each one models.
- `Scenarios` (`scenarios.dfy`): request sequences whose outcomes follow from the handlers'
  contracts alone. They cover:
  - create on an empty store gives id 1;
  - the available list on the seed data;
  - `DELETE /books/99` on the seed data gives 404;
  - `PUT /books/2 { available: true }` on the seed data.

Modelling choices:

- I/O outcomes are inputs: the file's state, what `JSON.parse` makes of its text, and how
  each `fs.writeFile` ends. A failed write leaves the file in a state the caller names.
- A successful `writeBooks(books)` leaves `Written(books)`. Reading that state back yields
  `books`, because `JSON.parse(JSON.stringify(books, null, 2) + '\n')` rebuilds the
  collection when every number is an integer.
- A `null` entry makes the create `reduce` throw (`b.id` of null). It is modelled as the 500
  outcome (`NextId` is `None`). It is not excluded by a precondition.
- Three behaviours of the code are easy to miss:
  - Delete's filter `b && b.id !== id` drops every falsy entry (`null`, `false`, `0`, `""`),
    not only the matching records. It keeps truthy non-objects, which have no id.
  - The unique-id invariant is not checked on loaded data. The lemmas show that each write
    route preserves it.
  - The write error during seeding is ignored, as the code ignores it.
- Id matching is strict `===` on numbers, so only an entry `{ id: n }` with `n` equal to the
  parsed id matches. `-0` and `0` are the same integer here, as they are under `===`.

## Model

| member | source | states |
|---|---|---|
| `Persistence.ReadResult` | app.js:12-22 | The load decision: it fails exactly for a read error other than ENOENT, and a non-empty collection comes only from a written collection or a parsed array. The full set of fall-backs is `LoadRules`. |
| `Persistence.LoadRules` | app.js:12-22 | Loading gives `[]` for a missing file, for text that is white space only, for text `JSON.parse` rejects and for a parsed non-array. It fails exactly for a read error other than ENOENT. A parsed array is returned unchanged. |
| `Persistence.LoadedFromArray` | app.js:18-20 | A non-empty collection can only come from a parsed array, or from a collection written earlier. |
| `Persistence.DataFile.ReadBooks` | app.js:10-26 | `readBooks()` returns the load decision for the current file and does not change it. |
| `Persistence.DataFile.WriteBooks` | app.js:28-36 | A successful write replaces the file with the collection, and reading it back yields that collection. A failed write reports failure and leaves what the write left. |
| `Persistence.DataFile.EnsureDataFile` | app.js:38-49 | An existing file is untouched. A missing file gets the seed collection, or whatever a failed, ignored write left. |
| `Numbers.TrimStart` | app.js:88 | The result is the input minus its longest white-space prefix. |
| `Numbers.TrimEnd` | app.js:18 | The result is the input minus its longest white-space suffix. |
| `Numbers.Trim` | app.js:18 | The result is a slice of the input with white space only before and after it, and it neither starts nor ends with white space. |
| `Numbers.TrimEmptyIffAllWhite` | app.js:18 | `data.trim()` is empty exactly when the text is white space only. |
| `Numbers.DigitPrefix` | app.js:88 | The result is the longest prefix of decimal digits. |
| `Numbers.ParseInt` | app.js:88-89 | The parse is finite exactly when, after leading white space, the text starts with a digit, possibly after one sign (`StartsNumber`); a negative result needs a leading `-`. The value is given by `ParseIntDigits`. |
| `Numbers.ParseSigned` | app.js:88 | After white space: finite exactly when the text starts with a digit, possibly after one sign; negative only after `-`. |
| `Numbers.ParseIntDigits` | app.js:88-89 | This shape parses to `±value(digits)`: white space, an optional sign, at least one digit, then anything not starting with a digit. Leading white space and trailing junk are ignored. |
| `Numbers.ParseIntNoDigit` | app.js:88-89 | This shape gives NaN (rejected with 400): white space, an optional sign, then no digit. Which of the two shapes a string has is decided by `ParseInt`'s own contract (`StartsNumber`). |
| `Numbers.ParseIntWithoutDigits` | app.js:88-89 | A string with no digit at all is NaN. For example `PUT /books/available` is an invalid id. |
| `Numbers.Decimal` | app.js:88 | Not code of the service: the way a client writes an id into the path, the inverse of the parse on this line. The decimal rendering of a natural number is a non-empty digit string with no leading zero. |
| `Numbers.DecimalValue` | app.js:88 | Client side, as for `Decimal`. Reading the digits of `Decimal(n)` gives back `n`. |
| `Numbers.ParseIntRoundTrip` | app.js:88 | Every integer, written as JavaScript writes it, parses back to itself. |
| `Collection.Filter` | app.js:63 | The result keeps exactly the elements satisfying the predicate, each with its original multiplicity. |
| `Collection.FilterConcat` | app.js:120 | Filtering commutes with concatenation. With `Filter`'s contract this fixes the result as the in-order subsequence of kept elements. |
| `Collection.FilterKeepsAll` | app.js:63 | A filter returns its input unchanged exactly when every element passes. |
| `Collection.FindIndex` | app.js:99-100 | The result is -1 exactly when no element matches. Otherwise it is the first matching index. |
| `Collection.AnyMatch` | app.js:118-119 | The result is true exactly when some element matches. |
| `Collection.MakeBook` | app.js:77 | The object literal `{ id, title, author, available }`; its use is stated by `NextId`, `CreateKeepsIdsUnique` and `Handlers.CreateBook`. |
| `Collection.Seed` | app.js:42-45 | The two sample records; `SeedAvailable`, `SeedNextId` and `SeedUniqueIds` state what follows from them. |
| `Collection.HasId` | app.js:99 | The callback `b && b.id === id`, also at app.js:118; characterised by `HasIdIsObjectWithId`. |
| `Collection.IsAvailable` | app.js:63 | The callback `b && b.available === true`; its effect is stated by `Available`. |
| `Collection.KeptByDelete` | app.js:120 | The callback `b && b.id !== id`; characterised by `KeptByDeleteIsTruthyWithoutId`. |
| `Collection.KeptByDeleteIsTruthyWithoutId` | app.js:118-120 | The delete filter keeps exactly the truthy entries that the callback of `some` rejects, so a truthy non-object and every object without that id survive, and every falsy entry is dropped. |
| `Collection.HasIdIsObjectWithId` | app.js:99 | `b && b.id === id` holds exactly for objects whose `id` field is the number `id`. |
| `Collection.Available` | app.js:63 | The available list holds exactly the objects whose `available` is `true`, with their multiplicities, in collection order. |
| `Collection.SeedAvailable` | app.js:42-45 | On the seed collection only the "Atomic Habits" record is available. |
| `Collection.ReduceMaxId` | app.js:76 | The reduce throws exactly when an entry is null. Otherwise its result is at least the start value and every numeric id. It is the start value or one of those ids. |
| `Collection.NextId` | app.js:76-77 | The next id is 1 for an empty collection and at least 1 in general. It is larger than every numeric id, no entry has it, and it is 1 or one more than an existing id. |
| `Collection.SeedNextId` | app.js:42-45 | The next id on the seed collection is 3. |
| `Collection.ApplyPatch` | app.js:101-104 | The copy has the original keys plus the supplied ones. Supplied fields hold the new values, and every other field (the id included) is copied. |
| `Collection.Updated` | app.js:99-105 | No result exactly when no entry has the id. Otherwise only the first entry with the id is replaced by its patched copy. The length and the other indices are unchanged. |
| `Collection.Deleted` | app.js:120 | The saved collection has no entry with the id and no falsy entry. It keeps every other entry with its multiplicity. |
| `Collection.DeletedLength` | app.js:120 | The entries kept plus the entries dropped make up the original length. |
| `Collection.SeedUniqueIds` | app.js:42-45 | The seed collection's ids are unique. |
| `Collection.CreateKeepsIdsUnique` | app.js:76-78 | Appending a record with the next id keeps numeric ids unique. |
| `Collection.UpdateKeepsIdsUnique` | app.js:99-105 | An update keeps every entry's id, so unique ids stay unique. |
| `Collection.DeleteKeepsIdsUnique` | app.js:120 | The delete filter keeps numeric ids unique. |
| `Scenarios.SeedUpdated` | app.js:99-105 | On the seed collection, updating id 2 with `{ available: true }` changes only "Deep Work", which becomes available. |
| `Handlers.CreateFields` | app.js:71-72 | A create body is accepted exactly when it is an object whose `title` and `author` are strings and whose `available` is a boolean, and the fields are those values. Any other body, including a falsy one replaced by `{}`, is rejected. |
| `Handlers.PatchOf` | app.js:90-97 | Each of `title`, `author` and `available` is supplied exactly when the body is an object that has it with the right type, and it then carries that value. |
| `Handlers.ListBooks` | app.js:51-58 | `GET /books` returns 200 with the loaded collection, or 500 when loading fails. |
| `Handlers.ListAvailable` | app.js:60-67 | `GET /books/available` returns 200 with the available list, or 500 when loading fails. |
| `Handlers.CreateBook` | app.js:69-84 | 400 unless `title` and `author` are strings and `available` is a boolean, decided before loading. 500 on a load failure, a null entry or a write failure, with the file as the failure left it. Otherwise the collection plus `{ id: next, title, author, available }` is saved and 201 returns that record. |
| `Handlers.UpdateBook` | app.js:86-111 | Checks run in this order: 400 for an unparsable id, 400 when no field is correctly typed, 500 on a load failure, 404 when no entry has the id. Otherwise `Updated`'s collection is saved and 200 returns the patched record; 500 if the write fails. |
| `Handlers.DeleteBook` | app.js:113-126 | 400 for an unparsable id, before loading. 500 on a load failure. 404 when no entry has the id. Otherwise `Deleted`'s collection is saved: 204, or 500 if the write fails. |

## Left out

- HTTP plumbing: Express routing, the `express.json()` middleware and its own 400 for
  malformed JSON, `res.status/json/send`, `app.listen` and `PORT`. Responses are a status
  plus a JSON body.
- File I/O and async machinery: the `fs` callbacks and the Promise wrappers. They become a
  file state and per-call write outcomes.
- `JSON.parse` and `JSON.stringify(…, null, 2)`: library serializers whose code is not part
  of this model. Parsing is an abstract outcome attached to the file's text. The whitespace,
  indentation and key order of the saved text are not modelled. Objects are maps, so key
  order is lost.
- Concurrent requests racing between load and save: no guarantee exists in the code to state.
- JavaScript number corner cases: non-integer ids, magnitudes beyond 2^53, and `parseInt`
  returning Infinity for very long digit strings. Numbers are unbounded integers.
- Property reads use only an object's own keys. No prototype, string or array property is
  named `id`, `title`, `author` or `available`, so this matches JavaScript for the keys the
  handlers read.
- `Numbers.IsWhite` lists the Zs category as of current Unicode. A later Unicode version
  could add space separators.
- `EnsureDataFile` treats "exists" (`fs.access` with `F_OK`) as "not Missing". A file that
  exists but cannot be read is left alone. The code seeds whenever `fs.access` fails, for
  any error code, so a file that is `Unreadable` because `access` itself fails with an error
  other than ENOENT gets a write attempt there and none in the model.
