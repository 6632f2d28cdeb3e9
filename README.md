# Book API server: request handling

This project models, in Dafny, the request handling of the book catalogue's Go
API server (`server/main.go`):

- **Listing query validation** (`validateRequest`): `offset` must parse as an
  integer that is not negative, `limit` as an integer from 1 to 1000. Each failing
  check contributes a fixed message; the messages, offset first, are joined with
  `", "` behind `"validation failed: "`. The handler answers such a request with
  400 and the text `"Validation failed: "` followed by that error, and queries nothing.
- **Listing filter** (`getBooksHandler`): from `search`, `published-after`,
  `published-before` and `authors` the handler builds an ordered MongoDB filter:
  a quoted `$text` search, a `publication_year` `$gte` and `$lte` bound for each
  year that parses as an integer (a year that does not parse is silently
  dropped), and an `authors` `$in` list that is the comma-split of the raw value.
  The reply envelope carries `data`, `offset`, `limit` and `totalCount`, the
  number of books in `data`.
- **Book-id checks** (`getBookByIdHandler`): the id is the path without the
  `/api/books/` prefix; an empty id is answered 400 `Book ID is required`; an id
  that is not an ObjectID in hex is answered 400 `Invalid Book ID format`.

Go's `strconv.Atoi` (64-bit), `strings.Join`, `strings.Split`,
`strings.TrimPrefix` and `url.Values.Get` are modelled as functions in their own
modules, since the validation rules are only exact with them. The listing handler
reads offset and limit again with `strconv.ParseInt(s, 10, 64)` (main.go:110-111);
on a 64-bit platform this accepts the same strings and gives the same values as
`Atoi`, so `Atoi` models both. The server never
calls `strconv.Itoa`; `GoStrconv.Itoa` is there as the reference inverse of
`Atoi`, with which Atoi's round trips are stated.

Files and modules:

| file | module | contents |
|---|---|---|
| `wrappers.dfy` | `Wrappers` | `Option` |
| `go_strconv.dfy` | `GoStrconv` | `Atoi`, `Itoa`, their round trips, what Atoi rejects |
| `go_strings.dfy` | `GoStrings` | `Join`, `Split`, `TrimPrefix`, split/join round trips |
| `url_values.dfy` | `UrlValues` | `Values`, `Get` |
| `server.dfy` | `Server` | validation, filter, listing handler, book-id handler |

How the model represents the server:

- The database calls are parameters: `find` answers the listing query with the
  books found, a failed query or a document that failed to decode, `findOne` answers a lookup by key. A handler run is
  an `Exchange`: the query it issued (if any) and the writes it made to the
  response, in order. `StatusOf` gives the status the client sees: net/http keeps
  the first status written.
- `primitive.ObjectIDFromHex` succeeding is the parameter `isObjectIdHex`; when it
  fails the handler's key is the nil ObjectID (`NilObjectId`), which is what the
  driver function returns on error.
- BSON keys are the enumeration `Key`, whose `Name()` is the exact string the
  driver is given (`"$text"`, `"$search"`, `"publication_year"`, `"$gte"`,
  `"$lte"`, `"authors"`, `"$in"`); distinct keys have distinct names.
- `validateRequest` and the filter construction build their lists step by step;
  `ValidateRequest` and `BuildFilter` are methods that do the same with a `seq`
  accumulator, proved equal to the specification functions `ValidationError` and
  `FilterFor`, about which the lemmas are stated.
- When nothing matches, the handler's slice of books stays nil and is encoded as
  `"data": null`; `Page.data` is then `None` and `totalCount` is 0.

The server accepts more than its web client uses: the search page
(`client/src/components/common/SearchResults.tsx`, lines 20-24) sends only
`offset`, `limit` and `search`, while the handler also reads `published-after`,
`published-before` and `authors`, and all six are modelled. The same page turns
a `null` `data` into an empty list (line 30), which is why the nil slice of an
empty result does no harm there.

## Model

| member | source | states |
|---|---|---|
| `UrlValues.Get` | server/main.go:71 | the result is the first value given for the key when there is one; an absent key, or one without values, reads as "" |
| `GoStrconv.Atoi` | server/main.go:71 | a successful parse is an int64 value, comes from a string of digits after an optional sign, and is negative only after a `-` |
| `GoStrconv.AtoiOfItoa` | server/main.go:71 | Atoi reads back every int64 that Itoa writes |
| `GoStrconv.ItoaOfAtoi` | server/main.go:71 | for a canonical string (no `+`, no leading zero, no `-0`) Itoa writes back exactly what Atoi read |
| `GoStrconv.ItoaIsCanonical` | server/main.go:71 | Itoa writes only canonical strings |
| `GoStrconv.AtoiRejectsNoDigits` | server/main.go:71 | "" and a lone sign are errors |
| `GoStrconv.AtoiRejectsStrayCharacter` | server/main.go:71 | any character other than a digit or a leading sign is an error |
| `GoStrconv.AtoiRejectsOverflow` | server/main.go:71-75 | digits after an optional sign whose signed value lies outside the int64 range are an error, for either sign |
| `GoStrconv.DecimalValueLeadingZeros` | server/main.go:71 | leading zeros do not change the value of a digit string |
| `GoStrconv.AtoiOfPadded` | server/main.go:71-75 | every string made of an optional `+` or `-`, any number of zeros and a decimal number in the int64 range parses to that number, negated after `-` |
| `GoStrings.JoinShape` | server/main.go:80 | a join starts with the first part, ends with the last, and is as long as the parts plus one separator between each consecutive pair |
| `GoStrings.Split` | server/main.go:146 | at least one piece, and no piece contains the separator |
| `GoStrings.JoinSplit` | server/main.go:146 | joining the split pieces with the separator gives back the raw string |
| `GoStrings.SplitJoin` | server/main.go:146 | splitting a join of separator-free pieces gives back the pieces |
| `GoStrings.SplitCount` | server/main.go:146 | the split has one more piece than the string has separators, empty pieces included |
| `GoStrings.TrimPrefix` | server/main.go:194 | with the prefix present, prefix + result is the input; otherwise the input is unchanged |
| `Server.HttpError` | server/main.go:197 | `http.Error` writes a text reply with the given status whose body is the message followed by one newline |
| `Server.StatusOf` | server/main.go:201-223 | the status the client sees is that of the first write when it is a text reply, and 200 when a JSON body comes first or nothing is written |
| `Server.StatusIgnoresLaterWrites` | server/main.go:201-223 | once something is written, later writes do not change the status |
| `Server.FailureMessages` | server/main.go:69-77 | given the two checks' verdicts: no failure exactly when both pass; the offset message is present iff the offset check fails, the limit message iff the limit check fails |
| `Server.ValidateRequest` | server/main.go:68-83 | the step-by-step validation returns nil exactly when offset parses to >= 0 and limit to 1..1000, and otherwise the specified error |
| `Server.ValidationMessages` | server/main.go:69-80 | the exact error for each of the four combinations of verdicts: none when both pass, otherwise offset message before limit message, joined by ", " behind "validation failed: " |
| `Server.MissingParameterRejected` | server/main.go:71-76 | an absent offset (or limit) always yields that parameter's message |
| `Server.ValidationAcceptsWrittenBounds` | server/main.go:71-82 | any offset in 0..2^63-1 and limit in 1..1000, written in decimal, passes |
| `Server.ChecksOfWrittenNumbers` | server/main.go:71-77 | on a decimal int64, the offset check holds iff n >= 0 and the limit check iff 1 <= n <= 1000 |
| `Server.KeyNamesDistinct` | server/main.go:119-150 | the filter's distinct keys are distinct strings |
| `Server.BuildFilter` | server/main.go:116-152 | the step-by-step filter construction yields the specified filter |
| `Server.FilterOrder` | server/main.go:116-152 | entries appear in the order search, published-after, published-before, authors, each at most once, so at most four |
| `Server.SearchEntry` | server/main.go:118-125 | a `$text` entry exists iff search is non-empty; it is first and its `$search` value is the search string in double quotes |
| `Server.YearEntries` | server/main.go:127-143 | a `$gte`/`$lte` year entry with value y is present iff the bound parses to y; a bound that does not parse adds nothing |
| `Server.UnparsableYearIgnored` | server/main.go:127-143 | a year bound that does not parse gives the same filter as an absent one |
| `Server.AuthorsEntries` | server/main.go:145-152 | an `authors` entry exists iff authors is non-empty; it is last and its `$in` list is the comma-split, joining back to the raw value, with one piece per comma plus one |
| `Server.NoParametersNoFilter` | server/main.go:116 | without any of the four parameters the filter is empty |
| `Server.PageOf` | server/main.go:177-182 | the envelope's rows are the books found, `totalCount` is their number, `data` is null exactly when none were found, offset and limit are echoed |
| `Server.ListingQuery` | server/main.go:110-155 | a valid request queries with the built filter, skip = the parsed offset (>= 0) and limit = the parsed limit (1..1000) |
| `Server.GetBooksHandler` | server/main.go:99-189 | an invalid request is answered 400 with the validation error and runs no query; a valid one runs the listing query and answers 500 "Error fetching books: ..." when the query fails, 500 "Error decoding book: ..." when a document fails to decode, or the envelope; exactly one write; status 400 iff validation fails |
| `Server.BookIdOfPath` | server/main.go:194 | the id is what follows "/api/books/"; it is empty exactly for "" and the bare prefix |
| `Server.LookupReply` | server/main.go:214-230 | one write per lookup outcome: the found book as JSON (status 200), exactly the `http.Error` write 404 "Book not found" for no document, exactly the `http.Error` write 500 "Internal server error" for any other error |
| `Server.GetBookByIdAsWritten` | server/main.go:191-232 | as written: a lookup runs iff the id is non-empty, under `HexId(id)` when the id is well-formed and under `NilObjectId` otherwise; the lookup's reply is the last write; the status is 400 for an empty or malformed id |
| `Server.GetBookById` | server/main.go:191-232 | corrected: a lookup runs iff the id is non-empty and well-formed, under that id, and its reply is the whole response; an empty id gets exactly the 400 "Book ID is required" write and a malformed one exactly the 400 "Invalid Book ID format" write; always one write |
| `Server.EmptyIdRejected` | server/main.go:196-199 | an empty id is answered 400 "Book ID is required" and nothing is looked up |
| `Server.AsWrittenLooksUpMalformedId` | server/main.go:201-223 | as written, a malformed id looks up the nil ObjectID, and the response is the 400 "Invalid Book ID format" write followed by exactly that lookup's reply; the status stays 400 |
| `Server.GetBookByIdStatus` | server/main.go:196-223 | with the return added, the status is 400 for a missing or malformed id, else 200, 404 or 500 by the lookup's outcome |
| `Server.AsWrittenAgreesOnOtherIds` | server/main.go:194-223 | the code as written and the corrected handler agree on every request whose id is empty or well-formed |

## Findings

| source | as written | input that shows it | evidently intended | confidence | as-written member | corrected member |
|---|---|---|---|---|---|---|
| server/main.go:201-204 | after writing 400 "Invalid Book ID format" the handler does not return: it looks up the nil ObjectID and writes that lookup's reply into the same response, so the body gains "Book not found" (or the JSON of a book stored under the nil id) behind a 400 | the path `/api/books/abc`, whose id is not 24 hex digits | return right after the 400, as after every other `http.Error` in the file | high (not executed) | `Server.GetBookByIdAsWritten`, shown by `Server.AsWrittenLooksUpMalformedId` | `Server.GetBookById`, whose contract states the corrected behaviour, with `Server.GetBookByIdStatus` |

## Left out

- MongoDB: connecting (`initMongo`), `collection.Find` and `FindOne`, cursor iteration and decoding are foreign driver calls over the network; the model takes their outcomes as the parameters `find` and `findOne`. A decode error in the middle of the cursor is the outcome `DecodeFailed`; the books read before it are not represented, since the reply does not depend on them.
- HTTP serving, routing, the CORS middleware, the `Content-Type` header and the headers `http.Error` sets are library plumbing; the model covers the handlers for any request path, not which paths the router sends to them.
- JSON encoding: JSON bodies are recorded as the value written (`PageWrite`, `BookWrite`), not as text, and the branches for an encoding failure are not modelled.
- Parsing the raw query string into `url.Values` is not modelled; the handlers take the parsed values.
- `primitive.ObjectIDFromHex` is library code not part of this model; its success is the parameter `isObjectIdHex`.
- `GoStrconv.Atoi` does not keep Go's error kind (syntax or range), because the server only tests whether an error occurred; 32-bit platforms, where Go's `int` is narrower, are not modelled.
- Go strings are byte strings; the model's strings are sequences of Unicode characters, so query values that are not valid UTF-8 cannot be represented.
- `GoStrings.Split` takes a one-character separator, the only kind the server uses.
- The web client is a presentation layer of React components with asynchronous fetches and is not part of this model.
