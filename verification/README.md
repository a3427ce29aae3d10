# protosvr entity readers — a Dafny model

protosvr is a small Go HTTP server that serves the rows of PostgreSQL tables
("entities") as JSON. This project models its three pieces of logic in
`internal/` and proves properties of the model:

- **Error-text utilities** (`internal/errors.go`). An error carries its
  own call stack inside its text, one `[at] file:line ` entry per wrap with
  the newest entry first. `WrapError` and `WrapErrorN` add an entry.
  `WrappedErrorMsg` and `WrappedErrorStack` split the text at the first
  `[at]`. `PrettyPrintError` puts each entry on its own tab-indented line.
- **Row decoder** (`internal/db_utils.go`). `ConvertDbRowToMap` turns the
  cursor's current row into a map from column name to value.
- **Entity readers** (`internal/entities.go`):
  - `GetCanonicalEntityName` validates a table name and canonicalises it.
  - `GetAllEntities` builds a paged `select`, sends it and decodes every row.
  - `GetSingleEntity` selects by id and decodes the first row.
  - The `EntityGetAll` and `EntityGet` handlers in `cmd/protosvr/main.go`
    canonicalise the route's entity name before calling a reader. That path
    is modelled too.

Files:

- `nullable.dfy`: `Option`, standing for Go's nil.
- `strings.dfy`: the parts of Go's `strings` and `strconv` that the code uses.
- `errors.dfy`, `db_utils.dfy`, `entities.dfy`: one module per source file.

How the model stands in for Go:

- An error is `Error(text, inner)`. `inner` is what `errors.Unwrap`
  returns.
- A Go pair `(T, error)` is `Returned(value, err)`.
- `runtime.Caller` becomes a `Frame` parameter. The readers and the decoder
  pass the frame of their own call site: `buildDir + "internal/entities.go"`
  and the line of the `WrapError` call.
- The database is a `Driver` value with two uninterpreted functions:
  - `sanitize` stands for `pgx.Identifier{name}.Sanitize()`;
  - `query` stands for `Db.Query`.
- A query either fails or opens a `Cursor`. A cursor is the sequence of rows
  it yields plus the error `rows.Err()` reports at its end.
- Each row either scans into named column values or fails to scan with an
  error.
- `ConvertDbRowToMap`, `GetAllEntities` and `GetSingleEntity` are methods,
  because the source builds their results step by step:
  - a slot array the decoder fills in a loop;
  - a map it fills in a loop;
  - a query string and argument list the reader extends;
  - a result list it appends to in its `for rows.Next()` loop.

  Each method is proved equal to a specification function of its inputs.
  The lemmas are about those functions.
- The rest is pure and is written as functions.

## Model

| member | source | states |
|---|---|---|
| Errors.WrapError | internal/errors.go:10-18 | the wrapped error unwraps to the root (`Unwrap(err)`, or `err` when that is nil), and its text starts with the root's text followed by a `[` |
| Errors.WrapErrorN | internal/errors.go:22-30 | identical to `WrapError` with the frame `n` levels up the stack, and with an empty frame when the stack is shallower |
| Errors.WrappedErrorMsg | internal/errors.go:32-39 | the result is a prefix of the text that contains no `[at]`; it is the whole text, or the text is followed there by `[at]`, so it is the text before the first `[at]` |
| Errors.WrappedErrorStack | internal/errors.go:41-49 | message + stack is the whole text; the stack is "" or starts with `[at]` |
| Errors.SplitAtMarker | internal/errors.go:32-49 | for a marker-free `a` and a `b` opening with `[at]`, the message of `a + b` is `a` and the stack is `b` |
| Errors.WrapKeepsMessage | internal/errors.go:16-17 | one wrap keeps the root's marker-free message and puts the new entry in front of the old stack |
| Errors.WrapAddsOneEntry | internal/errors.go:16-17 | one wrap adds exactly one `[at]` to the stack |
| Errors.WrapTwice | internal/errors_test.go:24-36 | two wraps unwrap to the root and keep its message; the stack is the newer entry, then the older one, then the old stack |
| Errors.WrapAllShape | internal/errors_test.go:10-36 | a plain error wrapped once per frame has text = message + entries newest first, unwraps to the original, and keeps its message |
| Errors.StackTextCount | internal/errors.go:17 | a stack built from marker-free file names has one `[at]` per frame |
| Errors.WrapAllCount | internal/errors_test.go:10-22 | `n` wraps of a plain error leave exactly `n` markers in its text |
| Errors.PrettyNewlines | internal/errors.go:51-53 | the replacement adds one newline per `[at]` |
| Errors.PrettyPrintError | internal/errors.go:51-53 | the result opens with `[Error] `, has one newline per `[at]` of the text besides the text's own newlines, and is `[Error] ` followed by the text unchanged when the text holds no `[at]` (every `[at]` replaced by `\n\t[at]`; see `PrettyLineCount` and `PrettyPrintWrapAll` for the lines) |
| Errors.PrettyLineCount | internal/errors.go:51-53 | the pretty form splits into 1 + (number of `[at]`) + (number of newlines already in the text) lines |
| Errors.FrameTextCount | internal/errors.go:17 | a stack entry with a marker-free file name holds exactly one `[at]` |
| Errors.FrameTextPretty | internal/errors.go:52 | pretty-printing one entry puts a newline and a tab in front of it |
| Errors.StackTextPretty | internal/errors.go:52 | pretty-printing a stack gives each entry a newline and a tab in front, newest first |
| Errors.SplitPrettyStack | internal/errors_test.go:47 | splitting a newline-free line followed by a pretty stack gives that line and one line per entry |
| Errors.PrettyBody | internal/errors.go:51-53 | the pretty form of a wrapped plain error is `[Error] `, its message, then each entry on its own line after a newline and a tab, newest first |
| Errors.PrettyPrintWrapAll | internal/errors_test.go:38-54 | a wrapped plain error pretty-prints as `[Error] message`, then one `\t[at] file:line ` line per wrap, newest first |
| Errors.PrettyPrintThreeWraps | internal/errors_test.go:38-54 | `original error` wrapped at lines 41, 42 and 43 prints the lines 43, 42 and 41, in that order, after `[Error] original error` |
| Errors.WrapDropsOuterContext | internal/errors.go:12-17 | an error that another wrapper gave context (`ctx: base`) is wrapped under the inner message `base` only |
| Errors.EntryTailHasNoMarker | internal/errors.go:17 | the `file:line ` part of an entry with a marker-free file name holds no `[at]` |
| Strings.Index | internal/errors.go:34 | -1 exactly when the pattern does not occur, otherwise the first position where it occurs |
| Strings.Split | internal/errors_test.go:47 | one part more than separators, no part contains the separator, and joining the parts gives the input back |
| Strings.NatToStringRoundTrip | internal/errors.go:17 | the decimal digits `%d` prints for a natural number read back as that number |
| Strings.ReplaceCharPointwise | internal/entities.go:53 | replacing a one-character pattern with one character keeps the length and changes exactly the matching positions |
| Strings.ReplaceConcat | internal/errors.go:52 | with no occurrence across the seam, replacing in `a + b` is replacing in `a` and in `b` |
| Strings.CountConcat | internal/errors.go:52 | with no occurrence across the seam, the occurrences in `a + b` are those of `a` plus those of `b` |
| DbUtils.RowMap | internal/db_utils.go:21-24 | the keys of the decoded record are exactly the column names |
| DbUtils.ConvertResult | internal/db_utils.go:5-27 | an error exactly when the scan fails, and then no map; otherwise a map whose keys are the column names |
| DbUtils.AllocateSlots | internal/db_utils.go:8-14 | one fresh slot per column description, each holding nil |
| DbUtils.Scan | internal/db_utils.go:16 | a failed scan returns its error; otherwise every slot holds its column's value |
| DbUtils.ConvertDbRowToMap | internal/db_utils.go:5-27 | the returned map and error are those of `ConvertResult`: a nil map and the wrapped scan error, or each column's scanned value under its name |
| DbUtils.RowMapLastWins | internal/db_utils.go:21-24 | a repeated column name maps to the value of its last column |
| DbUtils.RowMapSize | internal/db_utils.go:21-24 | the map has at most one entry per column, and exactly one per column iff the names are distinct |
| DbUtils.DistinctSnoc | internal/db_utils.go:21-24 | column names are distinct iff the earlier ones are and the last name is new |
| DbUtils.ConvertEmptyRow | internal/db_utils.go:6 | a row without columns decodes to an empty, non-nil map |
| DbUtils.ConvertScanError | internal/db_utils.go:16-19 | a failed scan gives a nil map and the error with its message kept and the db_utils.go:18 entry in front of its stack |
| Entities.GetCanonicalEntityName | internal/entities.go:40-57 | success exactly when every character is in `[a-zA-Z0-9_-]` (the empty name included); on success the same length with `-` turned into `_` and ASCII upper case into lower case at every position; on failure "" and `ErrInvalidEntityName` wrapped at entities.go:49 |
| Entities.CanonicalCharset | internal/entities.go:52-54 | a canonicalised name holds only characters of `[a-z0-9_]` |
| Entities.CanonicalFixedPoints | internal/entities.go:42-54 | the names canonicalisation accepts unchanged are exactly those of `[a-z0-9_]*` |
| Entities.CanonicalIdempotent | internal/entities.go:42-54 | canonicalising a canonicalised name succeeds and returns it unchanged |
| Entities.CanonicalRejection | internal/entities.go:35 | a rejected name gives "" and an error that unwraps to `ErrInvalidEntityName`, with message `invalid entity name` and the one entry for entities.go:49 |
| Entities.CanonicalEmpty | internal/entities.go:42-56 | the empty name is accepted as "" |
| Entities.CanonicalExamples | internal/entities.go:40-57 | `Foo-Bar` becomes `foo_bar`, and `foo;bar` is rejected |
| Entities.BuildGetAllQuery | internal/entities.go:92-104 | the query text and argument list built step by step are `GetAllQuery` and `GetAllArgs` |
| Entities.RenderSnoc | internal/entities.go:98-103 | appending one clause appends it with the next placeholder number |
| Entities.GetAllQueryCases | internal/entities.go:92-104 | both counts positive give ` offset $1 limit $2` with args `[skip, take]`, only skip gives ` offset $1` with `[skip]`, only take gives ` limit $1` with `[take]`, and nil options or no positive count give the bare select with no args |
| Entities.FirstScanFailure | internal/entities.go:114-118 | none exactly when every row scans; otherwise a failing row with every earlier row scanning |
| Entities.FirstScanFailureIs | internal/entities.go:114-118 | a failing row with only scanning rows before it is the first scan failure |
| Entities.GetAllEntities | internal/entities.go:90-123 | the result is `GetAllOutcome` of what the driver returns for the built query and arguments |
| Entities.GetAllRecords | internal/entities.go:91-122 | with every row decodable: no error, one record per row in cursor order, each the row's column map; no rows give an empty, non-nil list |
| Entities.GetAllNoPartialList | internal/entities.go:106-122 | a list exactly when there is no error; a failed query gives a nil list and an error, and so does any row that fails to decode |
| Entities.GetAllQueryError | internal/entities.go:106-111 | a failed query gives a nil list and the query error, unwrapping to its root, with its message kept and the entities.go:110 entry in front of its stack |
| Entities.GetAllRowError | internal/entities.go:115-117 | a row that fails to decode is reported with its message kept and the entries for entities.go:117 and then db_utils.go:18 in front of its stack |
| Entities.ErrorThroughDecoder | internal/entities.go:82-85 | a scan error passed through the decoder and a reader's wrap keeps its message and gains the reader's entry, then the decoder's |
| Entities.GetSingleEntity | internal/entities.go:68-88 | the result is `GetSingleOutcome` of what the driver returns for `select * from <name> where id=$1` with args `[id]` |
| Entities.GetSingleAbsent | internal/entities.go:77-80 | once the query ran, the result is (nil, nil) exactly when the cursor has no rows |
| Entities.GetSingleFirstRowOnly | internal/entities.go:77-87 | the rows after the first, and the cursor's final error, change nothing |
| Entities.GetSingleQueryError | internal/entities.go:69-74 | a failed query gives a non-nil empty map and the query error with its message kept and the entities.go:73 entry in front |
| Entities.GetSingleRowError | internal/entities.go:82-85 | a first row that fails to decode gives a nil map and the scan error with the entities.go:84 and db_utils.go:18 entries in front |
| Entities.GetSingleDecodes | internal/entities.go:82-87 | a first row that decodes is returned as its column map with a nil error |
| Entities.SingleIsFirstOfAll | internal/entities.go:68-123 | on a cursor of decodable rows, `GetSingleEntity` returns the first record of the list with a nil error |
| Entities.EntityGetAllRequest | cmd/protosvr/main.go:64-101 | the `EntityGetAll` handler sends a query exactly when the route's entity name matches `[A-Za-z0-9_-]*` |
| Entities.EntityGetRequest | cmd/protosvr/main.go:111-129 | the `EntityGet` handler sends a query exactly when the route's entity name matches `[A-Za-z0-9_-]*` |
| Entities.EntityGetAllPath | cmd/protosvr/main.go:64-101 | a rejected name sends no query and yields the wrapped `ErrInvalidEntityName`; otherwise the name is canonical when it reaches `sanitize`, and the outcome is `GetAllEntities` on the canonical name |
| Entities.EntityGetPath | cmd/protosvr/main.go:111-129 | a rejected name sends no query and yields the wrapped `ErrInvalidEntityName`; otherwise the canonical name reaches `sanitize` and the outcome is `GetSingleEntity` on it |
| Entities.CursorErrorHidden | internal/entities.go:77-122 | as written, a cursor that ends in an error before any row reads as absent, and one that ends in an error after some rows reads as a complete list of them |
| Entities.CheckedReportsCursorError | internal/entities.go:77-122 | with `rows.Err()` consulted, an entity is absent only on a cleanly ended empty cursor, a cursor error always fails `GetAllEntities` with no list, and the error unwraps to the cursor error's root when no earlier row fails to scan; on clean cursors and failed queries nothing changes |

## Left out

- `GetEntityMetaList` (internal/entities.go:59-66): a single library call with no logic of its own.
- `GetEntityMeta`, `CreateEntityMeta` and the commented-out `CreateEntity`: they are empty or not compiled.
- The regular-expression compile error (internal/entities.go:44-46): the pattern is a constant that compiles, so the branch never runs.
- `pgx.Identifier.Sanitize`: it is library code, so `sanitize` is uninterpreted and the model assumes nothing about how it quotes names.
- `Db.Query`, `rows.Next`, `rows.Scan` and their dynamic typing: `query` is uninterpreted, and a cursor is a given sequence of rows. `Value` stands for the Go values a scan can produce.
- `rows.Close()`: releasing the cursor is not modelled.
- The slots hold `*interface{}` pointers that the map stores (internal/db_utils.go:13, 23): the model stores the scanned value the pointer leads to.
- `runtime.Caller`: the frame is a parameter. `Errors.Caller` only picks a frame from a given call stack.
- The cmd/protosvr handlers beyond their path into the readers: routing, `strconv.ParseInt` of `take`, `skip` and `id` and its error, `HandleError` and the JSON encoding. `Entities.EntityGetAll` and `Entities.EntityGet` take the parsed values as parameters. The readers themselves accept any name, as the source does.
- The pool setup in internal/db.go and the concurrency around the shared pool: both are I/O.
- Go map iteration order: a record is an unordered Dafny `map`, as a Go map is.
- `Strings.ToLower`: it lowers only ASCII letters. The canonicaliser lowers only names that already passed the ASCII-only pattern, so this loses nothing there.
- `Strings.Count`, `Strings.ReplaceAll`: they require a non-empty pattern. The code only uses `[at]`, `-` and `\n`.
- `Errors.WrapError`: a nil error argument is not modelled. `WrapError(nil)` panics at internal/errors.go:42, where `WrappedErrorStack` calls `Error()` on the nil interface. Every caller passes a non-nil error.
- `GetAllOptions.take`, `GetAllOptions.skip`: they are `int64` in the source and unbounded here. The code only compares them with 0 and passes them on, so nothing wraps around.

## Findings

| source | as written | input that shows it | evidently intended | confidence | as-written member | corrected member |
|---|---|---|---|---|---|---|
| internal/entities.go:77-80 | an empty `rows.Next()` is read as "no such entity" without asking `rows.Err()` | a query whose cursor fails before its first row: `Cursor([], Some(e))` gives (nil, nil) | report the cursor's error instead of "absent" | medium — not executed; pgx reports errors that arrive after `Query` returns through `rows.Err()` | Entities.CursorErrorHidden | Entities.GetSingleOutcomeChecked, with Entities.CheckedReportsCursorError |
| internal/entities.go:114-122 | the `for rows.Next()` loop ends the same way on an error as at the end of the rows, and `rows.Err()` is never consulted | a cursor that yields some rows and then fails: `Cursor(rows, Some(e))` gives the rows so far as a complete list and no error | fail with the cursor's error and no list | medium — not executed; pgx reports errors that arrive after `Query` returns through `rows.Err()` | Entities.CursorErrorHidden | Entities.GetAllOutcomeChecked, with Entities.CheckedReportsCursorError |
