# MySQL_Manager request engine, modelled in Dafny

MySQL_Manager exposes every table of a MySQL database over HTTP. At start-up it builds a
catalog: for each table, its column names and the column metadata the driver reports. Each
request then goes through the same steps:

- A router picks one of six handlers by regular expression and method.
- The handler resolves the table from the path and works out an id column from the column
  names.
- It validates the JSON values of a write against the column metadata.
- It assembles the SQL text and arguments, and coerces the scanned cells of a read back into
  integers, floats and strings.

This project models that engine (`db_explorer.go`) as pure functions over immutable data and
proves what it does. The database, the request body decoder and the regular-expression engine
are parameters.

Go maps are ranged over in an unspecified order. Wherever the engine ranges over a map (the
catalog in `GetTables`, the value map in `PutRecord`, the body in `UpdateRecord`), the model
takes that order as an argument that enumerates the key set. Every property is proved for
every such order.

Modules, leaves first:

| file | module | contents |
|---|---|---|
| `wrappers.dfy` | `Wrappers` | `Option`, `Result` |
| `go_strings.dfy` | `GoStrings` | `strings.Contains`, `HasPrefix`, `ToLower`, `Split`, `Join`, `Replace` (one-character target), `strconv.Atoi`/`Itoa`, Go's `<` on strings |
| `schema.dfy` | `Schema` | decoded JSON values, column metadata, tables, the catalog, map enumeration, `CheckColumn`, `CheckType` |
| `coercion.dfy` | `Coercion` | scanned cells, `CastingValues`, a row as a JSON object |
| `sorting.dfy` | `Sorting` | `sort.Slice` with `<` on table names |
| `router.dfy` | `Router` | `PathDefinition`, the route table, the languages of its patterns |
| `requests.dfy` | `Requests` | `CheckTable`, pagination defaulting, id-column inference, the table listing |
| `payload.dfy` | `Payload` | the `INSERT` and `UPDATE` assembly of `PutRecord` and `UpdateRecord` |
| `mux.dfy` | `Mux` | the path canonicalisation of net/http's `ServeMux` the engine is registered on |
| `handlers.dfy` | `Handlers` | the six handlers as (statements sent, response written), and the dispatch |

What the code does that a reader might not expect:

- **Which id column.** The inference loop overwrites `idName` on every match, so it keeps the
  LAST column whose name contains "id", not the first (`IdColumn`).
- **The `SET` clause.** It is joined by `,` with no space after it (`SetClauseIsJoin`).
- **The existence check in `UpdateRecord`.** It runs before the body is validated. So a
  refused field still costs one `SELECT EXISTS` query, and no other statement is sent
  (`UpdateRecordRejects`).
- **The update and delete routes.** Their pattern admits slashes in the table part, e.g.
  `/a/b/5` (`RecordPatternAdmitsNestedPath`). The id is then the third `/`-segment (`b`), not
  the trailing digits.
- **The ServeMux in front of the router.** The engine's closure is registered on an
  `http.ServeMux` (db_explorer.go:94-95). The mux answers a path with a doubled slash or a `.`
  or `..` segment with a 301 to the cleaned path, so such a path never reaches
  `PathDefinition`, even where a pattern would match it (`/a//5`, `Serve`).

## Model

| member | source | states |
|---|---|---|
| GoStrings.ContainsIffOccurs | db_explorer.go:342 | `strings.Contains` holds exactly when the substring occurs at some position |
| GoStrings.LowerKeepsLowerOccurrence | db_explorer.go:568 | lower-casing a name keeps every occurrence of an already lower-case substring |
| GoStrings.Split | db_explorer.go:131 | `strings.Split` yields at least one part and no part contains the separator |
| GoStrings.JoinSplit | db_explorer.go:131 | joining the parts of a split with the separator gives the original path back |
| GoStrings.SplitAtFirst | db_explorer.go:131-134 | a separator-free prefix is peeled off as the first segment |
| GoStrings.SplitFindsSeparator | db_explorer.go:133-137 | a split has a second segment exactly when the separator occurs |
| GoStrings.SplitJoin | db_explorer.go:262 | splitting a join of separator-free parts gives the parts back |
| GoStrings.ReplaceRuneSkips | db_explorer.go:636 | a counted `strings.Replace` leaves text without the target unchanged and carries on after it |
| GoStrings.Atoi | db_explorer.go:182-183 | `strconv.Atoi` succeeds exactly on an optionally signed digit string whose value fits in an int64, and then returns that signed decimal value (leading zeros and a '+' allowed); the error carries the input |
| GoStrings.AtoiItoa | db_explorer.go:182-183 | `Atoi` reads back the canonical decimal text of every int64 |
| GoStrings.LessTotal | db_explorer.go:207-209 | Go's `<` on strings orders any two different strings |
| GoStrings.LessTransitive | db_explorer.go:207-209 | Go's `<` on strings is transitive |
| Schema.EnumerationLength | db_explorer.go:203 | a range over a map visits as many keys as the map holds |
| Schema.CheckColumn | db_explorer.go:428-435 | true exactly when some column of the table has the name |
| Schema.ColumnAcceptsByKind | db_explorer.go:529-546 | against one column: a null needs a nullable column; a string needs scan type `RawBytes`; a bool always passes; a number, array or object needs a scan type name that occurs in "float64 int32" |
| Schema.CheckType | db_explorer.go:531-549 | a non-null value is accepted exactly when every column of that name accepts it; a null exactly when the first column of that name is nullable; a key naming no column passes (the loop itself is `CheckTypeFrom`, specified by the three lemmas below) |
| Schema.CheckTypeFromUnknown | db_explorer.go:531-549 | a key naming no column is accepted whatever its value |
| Schema.CheckTypeFromValue | db_explorer.go:531-549 | a non-null value is accepted exactly when every column of that name accepts it |
| Schema.CheckTypeFromNull | db_explorer.go:535-541 | a null is decided by the first column of that name alone: accepted exactly when that column is nullable |
| Schema.CheckTypeNamedColumn | db_explorer.go:531-549 | with distinct column names, `CheckType` on a column's name is that column's test: null iff nullable, string iff `RawBytes`, number iff the scan type name occurs in "float64 int32" |
| Schema.CheckTypeUnknownKey | db_explorer.go:531-549 | `CheckType` accepts every value for a key that is not a column of the table |
| Coercion.BytesToStringVerbatim | db_explorer.go:192 | the text of a byte cell keeps every byte, so the bytes can be read back from it |
| Coercion.CastingValues | db_explorer.go:163-198 | the row coerces exactly when every cell does; then there is one value per cell, and each is the coercion of its own cell by its own column's scan type name |
| Coercion.CastCellSucceeds | db_explorer.go:170-194 | a cell that coerces points at nil or bytes; null stays null and nothing else becomes null; bytes are read as an int, a float or verbatim text by the scan type name |
| Coercion.CastingValuesCells | db_explorer.go:170-194 | in a row that coerces, every cell pointed at nil or bytes; null stays null and nothing else becomes null; bytes become an int when the scan type name contains "int", else a float when it contains "float", else the verbatim text |
| Coercion.CastingValuesFailure | db_explorer.go:170-197 | a row fails with the error of its first failing cell: `ErrCastingType` for a cell that is not a pointer to nil or bytes, otherwise the error of the failed `Atoi` or `ParseFloat` |
| Coercion.RecordOfCells | db_explorer.go:292-297 | in the JSON object of a row that coerces, each column name holds the value read from the cell of the last column carrying it: null for a null cell, an int, a float or the text by the scan type name |
| Coercion.RecordOfKeys | db_explorer.go:292-297 | a row's JSON object has exactly the column names as keys |
| Coercion.RecordOfValues | db_explorer.go:292-297 | each column name maps to the value of the last column carrying it |
| Sorting.Insert | db_explorer.go:207-209 | inserting into a sorted list keeps it sorted and adds exactly the one name |
| Sorting.Sort | db_explorer.go:207-209 | the result is sorted by Go's `<` and is a permutation of the input |
| Sorting.SortedUnique | db_explorer.go:207-209 | two sorted arrangements of the same names are equal |
| Sorting.SortPermutationInvariant | db_explorer.go:203-209 | sorting any two orders of the same names gives the same list |
| Router.PathDefinition | db_explorer.go:116-128 | the handler of the first rule in list order whose pattern compiles and matches and whose method is equal; none when no rule qualifies or a pattern met earlier fails to compile |
| Router.RouteTableDispatch | db_explorer.go:85-92 | with an engine that compiles each installed pattern to its language, routing yields exactly the endpoint read off the route table |
| Router.RowsAndRecordPathsDisjoint | db_explorer.go:86-91 | a one-segment list path never matches the get-row, insert, update or delete patterns |
| Router.RecordPatternAdmitsNestedPath | db_explorer.go:88-91 | `/a/b/5` matches the update and delete pattern but not the get-row pattern |
| Requests.CheckTable | db_explorer.go:130-159 | 400 exactly when the path has no '/'; on success the table is one of the catalog's |
| Requests.CheckTableResolves | db_explorer.go:130-159 | a path `/name` or `/name/...` resolves to the table stored under `name`, and answers 404 when there is none; in an engine-built catalog that table is named `name` |
| Requests.Pagination | db_explorer.go:238-260 | limit and offset are always non-empty digit strings: the supplied text if it is all digits, else "5" and "0" |
| Requests.PaginationIdempotent | db_explorer.go:238-260 | defaulting a defaulted page changes nothing |
| Requests.ListRowsQueryWords | db_explorer.go:262 | splitting the list statement at spaces gives SELECT * FROM, the table name, LIMIT, the limit, OFFSET and the offset, for every defaulted page |
| Requests.IdColumnFrom | db_explorer.go:341-345 | after the loop `idName` is the last column that passes the test, or its starting value when none passes |
| Requests.IdColumn | db_explorer.go:330-349 | the inferred id column is empty exactly when no column passes the test, and otherwise the last one that does |
| Requests.IdLikeIsFolded | db_explorer.go:342 | every column `GetRecord` would take as an id also passes the lower-cased test of `UpdateRecord` and `DeleteRecord` |
| Requests.IdInferenceDiffersByCase | db_explorer.go:341-345 | with columns `user_id` and `ID`, `GetRecord` picks `user_id` and `UpdateRecord`/`DeleteRecord` pick `ID` |
| Requests.TableNames | db_explorer.go:201-209 | the listing is sorted and holds the collected table names |
| Requests.EnumerationsArePermutations | db_explorer.go:203 | two orders of one map's keys are permutations of each other |
| Requests.TableNamesListCatalog | db_explorer.go:201-209 | the listing names every table of the catalog, and each of them exactly once |
| Requests.TableNamesOrderIndependent | db_explorer.go:201-209 | the listing is the same for every order in which the catalog map is ranged over |
| Payload.InsertValues | db_explorer.go:452-463 | after seeding, merging and deleting, the keys are exactly the table's columns, each holding the body's value or else null |
| Payload.DecodedInsertValues | db_explorer.go:458-468 | an undecodable body leaves no value map (500); a JSON null leaves an empty one; an object leaves one keyed by exactly the columns |
| Payload.AssembleInsert | db_explorer.go:470-485 | the column list, the placeholders and the arguments have one length, at most one per visited key; what each holds is stated by `AssembleInsertShape`, `AssembleInsertArgs`, `AssembleInsertCovers`, `AssembleInsertDistinct` and `AssembleInsertIdName` |
| Payload.AssembleInsertShape | db_explorer.go:470-487 | one field, one "?" placeholder and one argument per listed key |
| Payload.AssembleInsertArgs | db_explorer.go:474-483 | each field is a visited key without "id" in its name, and its argument is the value `CheckType` lets through or "" |
| Payload.AssembleInsertCovers | db_explorer.go:474-483 | every visited key without "id" in its name is a field |
| Payload.AssembleInsertDistinct | db_explorer.go:474-483 | no field repeats when no key is visited twice |
| Payload.AssembleInsertIdName | db_explorer.go:484-485 | the id key is the last visited key with "id" in its name, empty when there is none |
| Payload.PutRecordColumns | db_explorer.go:452-487 | for every order: the fields are exactly the columns without "id" in their name, each once, with the body's value or null when accepted and "" otherwise; the id key is such a column, empty iff none has "id" in its name |
| Payload.AssembleUpdate | db_explorer.go:614-634 | a rejected update names a visited key that is refused; which key, and what an accepted update holds, is stated by `AssembleUpdateRejects` and `AssembleUpdateAssembled` |
| Payload.AssembleUpdateRejects | db_explorer.go:614-634 | the update is refused exactly when some visited key fails `CheckType` or names the id column, and the key reported is the first such key in visiting order |
| Payload.AssembleUpdateAssembled | db_explorer.go:614-634 | an update that is not refused holds the run-together `key = ?` assignments of every key in visiting order, and the values of those keys as arguments in the same order |
| Payload.ReplaceAfterHead | db_explorer.go:636 | a counted replacement of '?' passes over text without question marks and rewrites the first '?' after it, leaving one replacement fewer for the rest |
| Payload.SetClauseIsJoin | db_explorer.go:636 | when no key contains '?', the counted replacement turns the run-together assignments into their join by "," |
| Payload.UpdateRecordFields | db_explorer.go:614-637 | for every order: refused exactly when some field of the body is refused; otherwise, with no '?' in a key, the `SET` clause is the ","-join of `key = ?` and there is one argument per key |
| Handlers.IdSegment | db_explorer.go:329-338 | an id is read exactly when the path splits into at least three '/'-segments, and it holds no '/' |
| Handlers.IdSegmentReads | db_explorer.go:329-335 | in `/name/id` or `/name/id/...` the id read is the text between the second slash and the third (or the end) |
| Handlers.IdSegmentMissing | db_explorer.go:333-338 | a path `/name` has no id segment |
| Handlers.GetTables | db_explorer.go:201-227 | no statement; 200 with the sorted names, each table exactly once |
| Handlers.CastRows | db_explorer.go:271-298 | every row is scanned and coerced; success iff every row has the table's width and coerces; one record per row |
| Handlers.CastRowsKeys | db_explorer.go:290-298 | every record has exactly the column names as keys |
| Handlers.GetTableValues | db_explorer.go:229-320 | an unresolved table sends nothing and answers as `CheckTable` does; otherwise exactly one statement, the list query of the defaulted page, and the answer is 200 exactly when that query succeeds and every row it returns scans and coerces, with the records `CastRows` makes of those rows; any other answer is 500 |
| Handlers.ScanLast | db_explorer.go:375-391 | the destinations end as pointers to the last row's cells, or stay nil without rows; any row of the wrong width fails |
| Handlers.FetchRecord | db_explorer.go:351-425 | the existence check comes first; a failed check answers 500 and a missing record 404, after the check alone; an existing record is fetched, as the second and last statement; the answer is 200 exactly when the fetch succeeds and its rows scan and coerce, and then the record is the JSON object of the coerced cells the scan leaves, keyed by exactly the column names; any other answer is 500 |
| Handlers.FetchRecordFound | db_explorer.go:351-403 | an existing record whose fetch returns rows of the table's width, the last of which coerces, answers 200 after the check and the fetch, each column name holding the value read from that column's cell of the last row |
| Handlers.FetchWithoutRowFails | db_explorer.go:375-399 | an existing record whose fetch returns no row answers 500 with `ErrCastingType` |
| Handlers.GetRecord | db_explorer.go:322-349 | no table answers as `CheckTable` does; no third segment answers 400 "bad request"; no column with "id" in its name answers 400 "unknown parameter", with no statement sent; otherwise the record is fetched by the last such column, its existence check first |
| Handlers.GetRecordFetches | db_explorer.go:322-349 | for `/name/id` naming a table with a column whose name contains "id", the record `id` of that table is fetched by the last such column |
| Handlers.GetRecordNotFound | db_explorer.go:322-372 | for `/name/id` whose record does not exist, the only statement is the existence check by the last id-like column, and the answer is 404 {"error": "record not found"} |
| Handlers.InsertValuesInto | db_explorer.go:470-515 | one execution of the `INSERT` with the assembled arguments; the answer is 200 exactly when the execution and `LastInsertId` succeed, and then it maps the assembled id key to the id the database reports; any other answer is 500 |
| Handlers.PutRecord | db_explorer.go:437-468 | no table answers as `CheckTable` does; an unreadable body answers 400 and an undecodable one 500, both with no statement sent; an object body sends exactly the assembled `INSERT`; a decoded body answers as `InsertValuesInto` does for its value map |
| Handlers.PutRecordArguments | db_explorer.go:452-500 | for every order, an object body sends one argument per column without "id" in its name, each column once |
| Handlers.ApplyUpdate | db_explorer.go:614-649 | nothing beyond the existence check is sent exactly when some field is refused, and then the answer is 400 naming a refused field; otherwise exactly one `UPDATE` follows, with the counted-replacement `SET` clause and the values in visiting order, and the answer is 200 exactly when that execution and `RowsAffected` succeed, carrying the affected-row count the database reports |
| Handlers.UpdateRecord | db_explorer.go:551-649 | no table answers as `CheckTable` does; no third segment answers 400; otherwise the first statement is the existence check on the lower-cased id column; a failed check answers 500, a missing record 404 {"error": "record not found"}, an unreadable body 400 and an undecodable one 500, each after the check alone; a decoded body answers as `ApplyUpdate` does |
| Handlers.UpdateRecordNotFound | db_explorer.go:551-594 | for `/name/id` whose record does not exist, the only statement is the existence check by the last column whose lower-cased name contains "id", and the answer is 404 {"error": "record not found"}, whatever the body |
| Handlers.UpdateRecordSends | db_explorer.go:551-649 | once the record exists and no field is refused (no key holding a '?'), exactly two statements: the existence check, then the `UPDATE` whose `SET` clause is the ","-join of `key = ?` in visiting order, with one argument per key, the value of that key |
| Handlers.UpdateRecordRejects | db_explorer.go:614-630 | once the record exists and the body is an object: 400 after the existence check alone exactly when some field fails `CheckType` or names the id column, for every order |
| Handlers.DeleteRecord | db_explorer.go:667-717 | no table answers as `CheckTable` does; no third segment answers 400; otherwise exactly one statement, the `DELETE` on the lower-cased id column with the id as its argument, and the answer is 200 exactly when that execution and `RowsAffected` succeed, carrying the affected-row count the database reports; any other answer is 500 |
| Handlers.Handle | db_explorer.go:85-92 | every handler but the table list resolves the table first, so a path naming no table is answered as `CheckTable` does with no statement sent; the table list sends nothing and answers 200 |
| Handlers.Serve | db_explorer.go:94-103 | a non-canonical path (other than in a CONNECT) is redirected with 301 to its canonical form, with nothing sent; otherwise the handler `PathDefinition` picks runs, and with none the response is an empty 200 |
| Handlers.ServeDispatch | db_explorer.go:85-103 | with an engine that compiles the installed patterns to their languages, each request the mux lets through reaches the handler read off the route table, and an unrouted one gets an empty 200 |
| Handlers.DoubledSlashNeverReachesHandlers | db_explorer.go:88-95 | an update or delete of `/a//5` is redirected to `/a/5`, and an insert at `/a//` to `/a/`, although the route table alone admits them |
| Mux.CanonicalPath | db_explorer.go:94-95 | the path the mux serves is rooted; `CanonicalIff` states when it differs from the request path |
| Mux.ResolveShrinks | db_explorer.go:94-95 | cleaning the segments never lengthens the path, and shortens it when an empty, "." or ".." segment is present |
| Mux.CanonicalPathFixes | db_explorer.go:94-95 | a canonical path is served unchanged |
| Mux.CanonicalPathMoves | db_explorer.go:94-95 | a path that is not canonical is changed by cleaning, so the mux redirects it |
| Mux.CanonicalIff | db_explorer.go:94-95 | the mux serves a path unchanged exactly when it is rooted, has no "." or ".." segment, and no empty segment except a trailing one |
| Mux.DoubledSlashBeforeIdRedirects | db_explorer.go:94-95 | `/a//5` is cleaned to `/a/5` |
| Mux.DoubledTrailingSlashRedirects | db_explorer.go:94-95 | `/a//` is cleaned to `/a/`, the trailing slash kept |

## Left out

- Schema discovery in `NewDBExplorer` (db_explorer.go:31-83) is database I/O. The catalog is
  an input. `ValidCatalog` states what discovery guarantees: each table is stored under its
  own name, and its column names and metadata line up.
- `main.go` is not part of this model. It is configuration and I/O plumbing: it loads the
  connection settings, opens the database and listens.
- The regular-expression engine is a parameter (`Compiler`).
  - The languages of the six installed patterns are written out as character predicates,
    read from the pattern text. Nothing proves them against an engine.
  - The list pattern's optional tail matches only characters its first part already allows,
    so the pattern is read as a slash followed by one or more characters other than '/' and
    '?'.
  - The `^\d+$` test in `GetTableValues` is the `IsDigitString` predicate. Its
    compile-error branches cannot fire for that constant pattern, so they are not modelled.
- The `ServeMux` is modelled only in its path cleaning (`cleanPath` and `path.Clean`, read on
  the '/'-segments of the path). Host matching, percent-encoded paths, the query string in the
  redirect's `Location` and the redirect's HTML body are not modelled; `Redirected` carries the
  cleaned path alone.
- Floats are opaque: `Float64` is a bit pattern. `strconv.ParseFloat` is a parameter that
  either succeeds or fails.
- `Atoi` does not distinguish syntax errors from range errors. The error keeps the rejected
  text only.
- `ToLower` folds ASCII letters only. Column names are assumed ASCII.
- JSON decoding is abstract (`Decoded`): the body is an object, a JSON null or undecodable.
  - JSON encoding is represented by the `Body` variants.
  - `json.Marshal` failing on a NaN float (db_explorer.go:307-311, 413-418) is not modelled.
- Every database call is a parameter (`Database`). `Prepare` and `Exec` of `PutRecord` are
  folded into one execution result.
- The error text of a failed `ResponseWriter.Write` is not modelled. Neither are `log`
  output, the `fmt.Println` at db_explorer.go:219, `CloseCheck`, or concurrency between
  requests.
- `UpdateQuery`, `DeleteQuery` and the other statement texts are plain concatenation.
  `UpdateRecord` passes the table name and the id through `fmt.Sprintf` as part of the
  format. The routed patterns admit no '%' in either, so nothing is reinterpreted.
