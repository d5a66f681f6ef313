# keyvaluestore: the in-memory record store

This project models the storage core of a small HTTP key-value service
(`main.go`). The server holds one ordered slice of records (`Storage`),
seeded at start-up with the record `{id: "1", data: "hello world"}`. Four
handlers work on it directly:

- **get** builds a map from id to record by inserting every record in
  order, then looks the requested id up. When ids repeat, the record at the
  largest position wins.
- **create** appends the decoded request record, with no check on its id.
- **update** scans the whole slice, keeps the last position whose id equals
  the request's id, and overwrites the record there.
- **delete** does the same scan and splices out that one element.

The model has three modules:

- `Json` (`json.dfy`): the untyped `data` payload as a JSON value. The store
  never looks inside it.
- `Records` (`records.dfy`): the `Record` type, the seed record, and a
  specification of the store as a `seq<Record>`. `LastIndex` is the position
  a scan that keeps overwriting its index ends on. `IndexById` is the map the
  get handler builds. `Lookup` is what get answers. The lemmas say what
  append, same-id overwrite and removal do to every lookup.
- `Server` (`server.dfy`): the `Store` class with the `storage` field and one
  method per handler, the scan loop `FindLast`, and four `Walkthrough`
  methods that run a few example request sequences through the handlers'
  contracts: a get of the seed, a get of an unknown id, a create round trip,
  an update of an existing id that leaves its neighbour alone, an update of
  a missing id, a malformed body, and duplicate ids deleted until none is
  left.

The HTTP side is abstracted away. A handler gets the query id, or a `Body`
that says whether reading and decoding the request body failed or which
record it gave. A `marshalOk` flag says whether encoding the answer
succeeds. Each handler returns a `Response`: one of the statuses 200, 201,
404 or 500, and the record whose indented JSON would be written. In create
and update the encoding step comes after the store is changed, as in the
source. So an encoding failure answers 500 but leaves the change in place,
and the contracts say so.

`update` and `delete` repeat the same scan loop in the source
(`main.go:129-134` and `main.go:169-174`). The model writes it once, as
`FindLast`, and both methods call it. The get handler keeps its own loop,
which builds the map.

## Model

| member | source | states |
|---|---|---|
| `Records.LastIndex` | main.go:126-134 | None exactly when no record carries the id; otherwise the largest position whose record carries it |
| `Records.Lookup` | main.go:53-58 | None exactly when no record carries the id; otherwise a record with that id at its last matching position |
| `Records.IndexById` | main.go:47-51 | every stored id is a key of the map, and every key is bound to a stored record carrying that id |
| `Records.IndexByIdIsLookup` | main.go:47-53 | the map built by inserting the records in order holds exactly the ids present, each bound to the record at its last matching position |
| `Records.RemoveAt` | main.go:182 | the splice removes one element: length drops by one, earlier positions stay, later ones shift down by one (`RemovedAt`) |
| `Records.LastIndexConcat` | main.go:129-134 | the scan over a concatenation ends in the second part when that part has a match, and otherwise where the scan of the first part ends |
| `Records.LookupAfterAppend` | main.go:92 | create then get: after appending r, r.id looks up to r even when earlier records share r.id; every other id looks up as before |
| `Records.LastIndexAfterSameIdWrite` | main.go:142-145 | overwriting a position with a record of the same id does not move any scan |
| `Records.LookupAfterUpdate` | main.go:126-145 | update then get: replacing the last match of r.id makes r.id look up to r; every other id keeps its record |
| `Records.LastIndexAfterDeleteSame` | main.go:166-182 | after removing the last match of d, a scan for d ends where it would on the records before the removed one |
| `Records.LastIndexAfterDeleteOther` | main.go:166-182 | after removing a record with id d, a scan for any other id finds nothing if it found nothing before, and otherwise ends on the same record, one position lower if it lay past the removed one |
| `Records.LookupAfterDelete` | main.go:166-182 | delete then get: d now looks up to its previous duplicate, or to nothing; every other id keeps its record |
| `Records.DeleteRemovesOne` | main.go:166-182 | delete removes exactly one record carrying d, so a second delete of d finds nothing exactly when d occurred once |
| `Server.FindLast` | main.go:129-134 | found exactly when some record carries the id; then index is the last matching position; otherwise index keeps its zero value |
| `Server.Store.constructor` | main.go:20-27 | the store starts as exactly one record, id "1" with data "hello world", and "1" looks up to it |
| `Server.Store.Get` | main.go:45-67 | 404 exactly when no record carries the id; otherwise 200 with the record at the last matching position, or 500 when encoding fails; the store is not changed |
| `Server.Store.Create` | main.go:77-101 | a read or decode failure answers 500 and changes nothing; otherwise the record is appended whatever its id, and the answer is 201 with that record, or 500 when encoding fails after the append |
| `Server.Store.Update` | main.go:111-154 | a read or decode failure answers 500 and changes nothing; no matching id answers 404 and changes nothing; otherwise only the last matching position is replaced by the request, the length stays, and the answer is 200 echoing the request, or 500 when encoding fails after the write |
| `Server.Store.Delete` | main.go:164-184 | no matching id answers 404 and changes nothing; otherwise exactly the last matching element is removed, the others keep their order, and the answer is 200 with no body |

## Left out

- The HTTP multiplexer, the listener on port 8080, the start-up log line and the fatal exit when binding fails (main.go:29-40): network I/O.
- Query-string parsing and `io.ReadAll` (main.go:45, 77, 111, 164): the request id is a parameter, and a body read failure is the `ReadError` input.
- JSON decoding and the tab-indented encoding (main.go:86, 94, 120, 147, 60): library code. Decoding is an input that has already succeeded (`Decoded`) or failed (`Malformed`); encoding is the `marshalOk` flag, and a `Response` names the record that would be encoded rather than its bytes.
- Writing the response body and logging a failed write (main.go:68-71, 102-105, 155-158): I/O after the status is set. The log line prints the encoding error variable rather than the write error; no state depends on it.
- Concurrent requests: the source shares `Storage` across handler goroutines with no lock. Each handler is modelled as one atomic step on a single-threaded store.
- HTTP methods: every path accepts any method; there is no logic to model.
- Ids are Dafny strings (sequences of characters), while Go strings are byte strings. Equality agrees for valid UTF-8, which covers every id decoded from JSON and the seed id; a query id that is not valid UTF-8 (such as `?id=%FF`) has no counterpart in the model. The store only compares ids for equality.
- `Json.Value` numbers are exact reals; the rounding of Go's `float64` is not modelled, since the store never inspects the payload.
