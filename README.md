# Library catalog data-access layer, modelled in Dafny

This project models the Author/Book data-access layer of a small library-catalog
service (`database/database.go`). The service keeps two document collections,
`authors` and `books`. A book document stores its author's id as the external
hex string. Every read that returns a Book resolves that string with an author
point read.

The layer is modelled as a class `Database.DB` holding the two collections as
sequences of decoded records (`AuthorDB`, `BookDB`) in the store's iteration
order. Its methods mirror the Go methods: `AddAuthor`, `FindAuthorByID`,
`AllAuthors`, `AddBook`, `FindBookByID`, `AllBooks`, `AllBooksByAuthor`. The
inserting methods change the collections and say exactly how. The reading
methods change nothing and are proved against pure specification functions
(`LookupAuthor`, `LookupBook`, `ResolvedBooks`, `FilterByAuthor`). The lemmas
in `DatabaseProperties` relate several operations to each other.

Modules, leaves first:

- `Wrappers` (wrappers.dfy): `Option` and `Result`.
- `ObjectIds` (object_ids.dfy): the 12-byte object id. `Hex` writes it as 24
  lower-case hex digits. `FromHex` is `ObjectIDFromHex`, which accepts 24 hex
  digits of either case and fails otherwise.
- `Dates` (dates.dfy): the birthdate layout `"02-01-2006"` (DD-MM-YYYY).
  `Parse` follows Go's `time.Parse` for it: two-digit day, two-digit month,
  four-digit year, literal dashes, a month from 1 to 12, and a day that exists
  in that month and year. `Format` writes a date back in the same layout.
- `Model` (model.dfy): the query layer's `AuthorInput`, `BookInput`, `Author`
  and `Book`.
- `Database` (database.go's records, mappers, point reads and the `DB` class).
- `DatabaseProperties`: cross-operation lemmas and an example session.

The model follows the code where it is laxer than the service's stated design:

- A birthdate that fails to parse is not an error. The zero time
  (0001-01-01) is stored, and later reads return `"01-01-0001"`. `AddAuthor`
  still echoes the input string.
- `AddBook` does not check that the author exists. It fails only when the
  author id is malformed, and then it writes nothing.
- A point read that finds nothing gives the zero-valued record, because the
  decode error is ignored. For an author this is the `ZeroAuthor`: empty id,
  empty name, birthdate `"01-01-1970"` (the zero `primitive.DateTime`).
- `FindBookByID` on a well-formed id that names no book reads the zero
  `BookDB`. Its empty author id then fails to decode. So the request ends in
  the `InvalidObjectId("")` failure, not in a "not found" result.
- `log.Fatal` after a malformed id is the failure `InvalidObjectId(id)`. It is
  an outcome, not a process exit.
- Lookups match the lower-case form of the id (`CanonicalHex`). Returned
  Authors carry the stored lower-case id. So `AllBooksByAuthor` with an
  upper-case id matches nothing, even though `FindAuthorByID` accepts that id.

The store-assigned id of an insert is a parameter, `newId: ObjectId`. The
precondition that it is fresh in its collection is the store's own guarantee.

## Model

| member | source | states |
|---|---|---|
| `ObjectIds.FromHex` | database/database.go:78-81 | decoding succeeds exactly on 24 hex digits of either case |
| `ObjectIds.Hex` | database/database.go:71 | the external id is 24 lower-case hex digits |
| `ObjectIds.CanonicalHex` | database/database.go:78 | a well-formed id selects a key of 24 lower-case hex digits |
| `ObjectIds.FromHexHex` | database/database.go:71 | decoding the external form of an id gives the same id |
| `ObjectIds.HexFromHex` | database/database.go:71-78 | a lower-case external id survives decoding and re-encoding unchanged |
| `ObjectIds.HexInjective` | database/database.go:136 | distinct store ids have distinct external forms |
| `ObjectIds.CanonicalHexOfCanonical` | database/database.go:78-87 | a lower-case id is its own lookup key |
| `Dates.Parse` | database/database.go:59 | an accepted string is 10 characters long and names a real calendar day |
| `Dates.ParseOrZero` | database/database.go:59 | a parse failure is swallowed and yields the zero time |
| `Dates.Format` | database/database.go:200 | formatting writes a 10-character DD-MM-YYYY string |
| `Dates.ParseFormat` | database/database.go:200 | parsing a formatted date gives the date back |
| `Dates.FormatParse` | database/database.go:59 | formatting what a string parses to reproduces the string exactly |
| `Dates.FormatParseOrZero` | database/database.go:59-62 | a stored-then-formatted birthdate equals the input exactly when the input parses |
| `Database.FindOne` | database/database.go:87 | the point read finds nothing exactly when no document has the key, else a document with that key |
| `Database.FindOneUnique` | database/database.go:152 | with unique ids, the point read returns the one document carrying the key |
| `Database.ConvertAuthorType` | database/database.go:196-202 | keeps id and name; the birthdate text is 10 characters and parses back to the stored date |
| `Database.LookupAuthor` | database/database.go:77-92 | fails exactly on a malformed id; otherwise returns the stored author with that id, or the zero Author when none has it |
| `Database.LookupBook` | database/database.go:142-159 | fails exactly on a malformed id or a missing book (then with the empty author id); otherwise the stored book with its author resolved |
| `Database.FilterByAuthor` | database/database.go:185-194 | keeps only books whose author id matches, and is no longer than its input |
| `Database.FilterComplete` | database/database.go:188-191 | no matching book is dropped |
| `Database.FilterIsSubsequence` | database/database.go:188-191 | the kept books stay in their original order |
| `Database.FilterSpec` | database/database.go:185-194 | a book is kept exactly when it matches; the result is an ordered subsequence; it is empty when none matches |
| `Database.AppendAuthorValid` | database/database.go:60-65 | inserting under a fresh id keeps author ids unique and birthdates writable |
| `Database.AppendBookValid` | database/database.go:125-130 | inserting under a fresh id keeps book ids unique and author ids well-formed |
| `Database.DB.constructor` | database/database.go:15-17 | a new handle starts with two empty, valid collections |
| `Database.DB.AddAuthor` | database/database.go:54-75 | appends one record with the input name and parsed-or-zero birthdate; books unchanged; returns the new id with the input name and birthdate verbatim |
| `Database.DB.FindAuthorByID` | database/database.go:77-92 | reads only; fails exactly on a malformed id; returns the matching stored author, or the zero Author |
| `Database.DB.AllAuthors` | database/database.go:94-116 | one Author per stored record, in store order, each the converted record |
| `Database.DB.AddBook` | database/database.go:118-140 | a malformed author id fails with nothing written; otherwise appends one record with the given author id and title, authors unchanged, and returns the new id, the title and the looked-up author (the zero Author when none exists) |
| `Database.DB.FindBookByID` | database/database.go:142-159 | reads only; fails exactly on a malformed id or a missing book; returns the stored book with the author its stored author id resolves to |
| `Database.DB.AllBooks` | database/database.go:161-183 | one Book per stored record, in store order, each with the author its stored author id resolves to |
| `Database.DB.AllBooksByAuthor` | database/database.go:185-194 | the ordered subsequence of the full list whose author id equals the given id; membership both ways; at most as long as the book list; empty when nothing matches |
| `DatabaseProperties.FindAfterAddAuthor` | database/database.go:54-92 | fetching a created author returns the input name, and the input birthdate exactly when it was a valid date |
| `DatabaseProperties.AddAuthorKeepsOtherLookups` | database/database.go:65 | an author insert changes no lookup of any other id |
| `DatabaseProperties.FindAfterAddBook` | database/database.go:118-159 | fetching a created book returns its title and the attached author; that author has the requested id exactly when such an author was stored |
| `DatabaseProperties.ListAfterAddBook` | database/database.go:130 | after a book insert, each author's list gains the new book exactly when its resolved author id matches; an orphan is listed only under the empty id |
| `DatabaseProperties.ScanAgreesWithFindAuthor` | database/database.go:104-115 | each listed author equals what a point read of its id returns |
| `DatabaseProperties.ScanAgreesWithFindBook` | database/database.go:171-182 | each listed book equals what a point read of its id returns and keeps the record's id and title |

`convertBookType` is `Database.ConvertBookType`. It attaches the given author
unchanged. Its behaviour is stated through `LookupBook`, `FindBookByID` and
`ScanAgreesWithFindBook`. `ResolvedBooks` is the list `AllBooks` returns. It
resolves each record with `ResolvedBook`.

## Left out

- `Connect` and the MongoDB client, database and collection handles. The two collections are in-memory sequences. `DB`'s constructor starts them empty.
- The timeouts `short`, `medium` and `long`. They bound wall-clock latency, which the model does not have.
- Store failures of `InsertOne`, `Find`, cursor iteration and cursor `Decode`, each a `log.Fatal` in the source. An in-memory collection cannot fail. Process termination itself is not modelled. The one fatal path that remains, a malformed id, is the `InvalidObjectId` failure.
- Object-id generation (timestamp, random value, counter). The fresh id is a parameter of the inserting methods, and its freshness is a precondition.
- The millisecond and time-zone arithmetic of `time.Time` and `primitive.DateTime`. A stored birthdate is the calendar `Date` itself. The model assumes the process runs in UTC: `DateTime.Time()` converts to the local zone, so elsewhere the formatted day could shift.
- Store iteration order. The model appends inserts at the end and scans in that order. The store does not promise insertion order.
- Nil pointers passed for `input` or `idAuthor`, which would make Go panic. The model takes the values they point to.
- Nil versus empty result slices from `AllAuthors`, `AllBooks` and `AllBooksByAuthor`. The model returns the empty sequence.
- `graph/schema.resolvers.go` (one-line delegations to a global `DB`), `server.go` (HTTP routing) and concurrent requests sharing the connection.
- The `graph/model` package is not part of this model. Its four types are reconstructed from the fields `database/database.go` uses.
