/**
  The six handlers of db_explorer.go and the dispatch in front of them, with the database, the
  request body and the regular-expression engine as parameters. A handler's effect is the
  list of statements it sends to the database and the response it writes.
 */
module Handlers {
  import opened Wrappers
  import opened GoStrings
  import opened Schema
  import opened Coercion
  import opened Router
  import opened Sorting
  import opened Requests
  import opened Payload
  import opened Mux

  // ---------------------------------------------------------------------------------------
  // Requests, responses and the database
  // ---------------------------------------------------------------------------------------

  /** The request body: unreadable (io.ReadAll failed with the error text), or read and decoded. */
  datatype RequestBody = Unreadable(message: string) | Read(decoded: Decoded)

  /** The parts of an *http.Request the engine looks at; absent query parameters are empty. */
  datatype Request = Request(verb: string, path: string, limit: string, offset: string, body: RequestBody)

  /** Why a handler answered 500: a database error, a row of the wrong width, or a failed coercion. */
  datatype InternalError = DbError(message: string) | ScanMismatch | CastFailed(cause: CastError)

  /** What is written as the response body. */
  datatype Body =
    | NoBody
      /** http.Error's plain-text message. */
    | ErrorText(message: string)
      /** A JSON object {"error": message}. */
    | ErrorJson(message: string)
      /** The plain-text message of an internal error. */
    | Internal(error: InternalError)
    | TablesJson(tables: seq<string>)
    | RecordsJson(records: seq<map<string, OutValue>>)
    | RecordJson(record: map<string, OutValue>)
    | InsertedJson(idName: string, id: int)
    | UpdatedJson(updated: int)
    | DeletedJson(deleted: int)
      /** The ServeMux's 301 to the canonical path (the query string kept). */
    | Redirected(location: string)

  datatype Response = Response(status: int, body: Body)

  /** A statement sent to the database: a query for rows, a single-row query, or an execution. */
  datatype Statement = Query(text: string) | QueryRow(text: string, arg: string) | Exec(text: string, args: seq<JsonValue>)

  datatype Outcome = Outcome(statements: seq<Statement>, response: Response)

  /** The result of an execution: LastInsertId and RowsAffected, each of which may fail. */
  datatype ExecResult = ExecResult(lastInsertId: Result<int, string>, rowsAffected: Result<int, string>)

  /**
    The database as seen by the handlers: the rows a query returns (each the cells Scan stores),
    the boolean a SELECT EXISTS returns, and the result of an execution (Prepare and Exec).
   */
  datatype Database = Database(
    query: string -> Result<seq<seq<Scanned>>, string>,
    queryExists: (string, string) -> Result<bool, string>,
    exec: (string, seq<JsonValue>) -> Result<ExecResult, string>)

  /** The order in which a Go `range` visits a map's keys: any enumeration of the key set. */
  type Enumerator = set<string> -> seq<string>

  /** The enumerator lists every key set exactly once. */
  ghost predicate EnumeratesAll(enumerate: Enumerator) {
    forall keys :: Enumerates(enumerate(keys), keys)
  }

  function ServerError(e: InternalError): Response {
    Response(500, Internal(e))
  }

  /** What CheckTable writes when it gives up. */
  function TableErrorResponse(e: TableError): (resp: Response)
    ensures e == BadRequest ==> resp.status == 400
    ensures e == UnknownTable ==> resp == Response(404, ErrorJson("unknown table"))
  {
    match e
    case BadRequest => Response(400, ErrorText("Bad Request"))
    case UnknownTable => Response(404, ErrorJson("unknown table"))
  }

  /** The path segment after the table name, read as the record id; none when the path has no third segment. */
  function IdSegment(path: string): (id: Option<string>)
    ensures id.Some? <==> |Split(path, '/')| >= 3
    ensures id.Some? ==> '/' !in id.value
  {
    var segments := Split(path, '/');
    if |segments| >= 3 then Some(segments[2]) else None
  }

  /**
    In a path `/name/id` or `/name/id/...`, the id read is the text between the second and the
    third slash (or the end), whatever the table name.
   */
  lemma IdSegmentReads(name: string, id: string, rest: string)
    requires '/' !in name && '/' !in id
    requires rest == "" || rest[0] == '/'
    ensures IdSegment("/" + name + "/" + id + rest) == Some(id)
  {
    var path := "/" + name + "/" + id + rest;
    SplitAtFirst("", '/', name + "/" + id + rest);
    assert path == "" + ['/'] + (name + "/" + id + rest);
    SplitAtFirst(name, '/', id + rest);
    assert name + "/" + id + rest == name + ['/'] + (id + rest);
    SplitFirstPart(id, rest);
  }

  /** The first part of `id + rest`, where `rest` is empty or starts a new segment, is `id`. */
  lemma SplitFirstPart(id: string, rest: string)
    requires '/' !in id
    requires rest == "" || rest[0] == '/'
    ensures Split(id + rest, '/')[0] == id
  {
    if rest == "" {
      SplitNoSeparator(id, '/');
      assert id + rest == id;
    } else {
      SplitAtFirst(id, '/', rest[1..]);
      assert id + rest == id + ['/'] + rest[1..];
    }
  }

  /** A path with fewer than two slashes has no id segment. */
  lemma IdSegmentMissing(name: string)
    requires '/' !in name
    ensures IdSegment("/" + name).None?
  {
    SplitAtFirst("", '/', name);
    assert "/" + name == "" + ['/'] + name;
    SplitNoSeparator(name, '/');
  }

  // ---------------------------------------------------------------------------------------
  // GetTables
  // ---------------------------------------------------------------------------------------

  /** GetTables: the sorted table names, without touching the database. */
  function GetTables(catalog: Catalog, enumerate: Enumerator): (o: Outcome)
    requires EnumeratesAll(enumerate)
    requires ValidCatalog(catalog)
    ensures o.statements == [] && o.response.status == 200
    ensures o.response.body.TablesJson?
    ensures Sorted(o.response.body.tables)
    ensures forall x :: x in o.response.body.tables <==> x in catalog
    ensures |o.response.body.tables| == |catalog|
  {
    var order := enumerate(catalog.Keys);
    TableNamesListCatalog(catalog, order);
    Outcome([], Response(200, TablesJson(TableNames(catalog, order))))
  }

  // ---------------------------------------------------------------------------------------
  // GetTableValues
  // ---------------------------------------------------------------------------------------

  /** The scanned cells of a row, each behind its own pointer. */
  function Pointers(row: seq<Scanned>): (cells: seq<Cell>)
    ensures |cells| == |row|
    ensures forall i :: 0 <= i < |row| ==> cells[i] == Pointer(row[i])
  {
    seq(|row|, i requires 0 <= i < |row| => Pointer(row[i]))
  }

  /** The row is as wide as the table and all its cells coerce. */
  predicate RowCasts(t: Table, row: seq<Scanned>, parseFloat: string -> Option<Float64>)
    requires t.Valid()
  {
    |row| == |t.columns| && CastingValues(t.columnTypes, Pointers(row), parseFloat).Success?
  }

  /** The JSON object of a row that scans and coerces. */
  function RowRecord(t: Table, row: seq<Scanned>, parseFloat: string -> Option<Float64>): map<string, OutValue>
    requires t.Valid() && RowCasts(t, row, parseFloat)
  {
    RecordOf(t.columnTypes, CastingValues(t.columnTypes, Pointers(row), parseFloat).value)
  }

  /** A row after the first that does not coerce is a row of the whole page that does not. */
  lemma CastRowsTailFails(t: Table, rows: seq<seq<Scanned>>, parseFloat: string -> Option<Float64>)
    requires t.Valid() && |rows| > 0
    requires !forall i :: 0 <= i < |rows| - 1 ==> RowCasts(t, rows[1..][i], parseFloat)
    ensures !forall i :: 0 <= i < |rows| ==> RowCasts(t, rows[i], parseFloat)
  {
    var j :| 0 <= j < |rows| - 1 && !RowCasts(t, rows[1..][j], parseFloat);
    assert rows[1..][j] == rows[j + 1];
  }

  /** The record of the first row in front of the records of the rest are the records of the page. */
  lemma CastRowsCons(t: Table, rows: seq<seq<Scanned>>, parseFloat: string -> Option<Float64>, records: seq<map<string, OutValue>>)
    requires t.Valid() && |rows| > 0 && RowCasts(t, rows[0], parseFloat)
    requires forall i :: 0 <= i < |rows| - 1 ==> RowCasts(t, rows[1..][i], parseFloat)
    requires |records| == |rows| - 1
    requires forall i :: 0 <= i < |rows| - 1 ==> records[i] == RowRecord(t, rows[1..][i], parseFloat)
    ensures forall i :: 0 <= i < |rows| ==> RowCasts(t, rows[i], parseFloat)
    ensures var all := [RowRecord(t, rows[0], parseFloat)] + records;
            forall i :: 0 <= i < |rows| ==> all[i] == RowRecord(t, rows[i], parseFloat)
  {
    assert forall i :: 1 <= i < |rows| ==> rows[1..][i - 1] == rows[i];
  }

  /**
    The rows loop of GetTableValues: each row is scanned and coerced in turn, and the first row
    that is too narrow or too wide, or that does not coerce, ends the request.
   */
  function CastRows(t: Table, rows: seq<seq<Scanned>>, parseFloat: string -> Option<Float64>)
    : (r: Result<seq<map<string, OutValue>>, InternalError>)
    requires t.Valid()
    ensures r.Success? <==> forall i :: 0 <= i < |rows| ==> RowCasts(t, rows[i], parseFloat)
    ensures r.Success? ==> |r.value| == |rows|
    ensures r.Success? ==> forall i :: 0 <= i < |rows| ==> r.value[i] == RowRecord(t, rows[i], parseFloat)
    decreases |rows|
  {
    if |rows| == 0 then Success([])
    else if |rows[0]| != |t.columns| then Failure(ScanMismatch)
    else if CastingValues(t.columnTypes, Pointers(rows[0]), parseFloat).Failure? then
      Failure(CastFailed(CastingValues(t.columnTypes, Pointers(rows[0]), parseFloat).error))
    else
      match CastRows(t, rows[1..], parseFloat)
      case Failure(e) =>
        CastRowsTailFails(t, rows, parseFloat);
        Failure(e)
      case Success(records) =>
        CastRowsCons(t, rows, parseFloat, records);
        Success([RowRecord(t, rows[0], parseFloat)] + records)
  }

  /** Every record of a listed page has exactly the table's column names as keys. */
  lemma {:induction false} CastRowsKeys(t: Table, rows: seq<seq<Scanned>>, parseFloat: string -> Option<Float64>)
    requires t.Valid()
    requires CastRows(t, rows, parseFloat).Success?
    ensures forall i, k :: 0 <= i < |rows| ==> (k in CastRows(t, rows, parseFloat).value[i] <==> k in t.columns)
  {
    var records := CastRows(t, rows, parseFloat).value;
    forall i | 0 <= i < |rows|
      ensures forall k :: k in records[i] <==> k in t.columns
    {
      RecordOfKeys(t.columnTypes, CastingValues(t.columnTypes, Pointers(rows[i]), parseFloat).value);
    }
  }

  /**
    GetTableValues: resolve the table, default the page, list one page of rows and answer them
    as records.
   */
  function GetTableValues(catalog: Catalog, db: Database, parseFloat: string -> Option<Float64>, req: Request): (o: Outcome)
    requires ValidCatalog(catalog)
    ensures CheckTable(catalog, req.path).Failure? ==>
              o == Outcome([], TableErrorResponse(CheckTable(catalog, req.path).error))
    ensures CheckTable(catalog, req.path).Success? ==>
              o.statements == [Query(ListRowsQuery(CheckTable(catalog, req.path).value.name, Pagination(req.limit, req.offset)))]
    ensures o.response.status == 200 ==> o.response.body.RecordsJson?
    ensures CheckTable(catalog, req.path).Success? ==>
              var t := CheckTable(catalog, req.path).value;
              var listed := db.query(ListRowsQuery(t.name, Pagination(req.limit, req.offset)));
              && (o.response.status == 200 <==> listed.Success? && CastRows(t, listed.value, parseFloat).Success?)
              && (o.response.status == 200 ==> o.response.body == RecordsJson(CastRows(t, listed.value, parseFloat).value))
              && (o.response.status != 200 ==> o.response.status == 500)
  {
    match CheckTable(catalog, req.path)
    case Failure(e) => Outcome([], TableErrorResponse(e))
    case Success(t) =>
      var text := ListRowsQuery(t.name, Pagination(req.limit, req.offset));
      var statements := [Query(text)];
      match db.query(text)
      case Failure(message) => Outcome(statements, ServerError(DbError(message)))
      case Success(rows) =>
        match CastRows(t, rows, parseFloat)
        case Failure(e) => Outcome(statements, ServerError(e))
        case Success(records) => Outcome(statements, Response(200, RecordsJson(records)))
  }

  // ---------------------------------------------------------------------------------------
  // GetRecord
  // ---------------------------------------------------------------------------------------

  /** GetRecord's existence check. */
  function RecordExistsQuery(table: string, idName: string): string {
    "SELECT EXISTS(SELECT * FROM " + table + " WHERE " + idName + " = ?" + ")"
  }

  /** GetRecord's fetch, with the id pasted into the text. */
  function RecordQuery(table: string, idName: string, id: string): string {
    "SELECT * FROM " + table + " WHERE " + idName + " = " + id
  }

  /**
    GetRecord's rows loop: the destinations start out as nil interfaces and each row scanned
    replaces them with pointers to its cells, so the last row wins and no row at all leaves the
    nils. A row of the wrong width fails the scan.
   */
  function ScanLast(width: nat, rows: seq<seq<Scanned>>, cells: seq<Cell>): (r: Result<seq<Cell>, InternalError>)
    ensures r.Success? <==> forall i :: 0 <= i < |rows| ==> |rows[i]| == width
    ensures r.Success? && |rows| == 0 ==> r.value == cells
    ensures r.Success? && |rows| > 0 ==> r.value == Pointers(rows[|rows| - 1])
    decreases |rows|
  {
    if |rows| == 0 then Success(cells)
    else if |rows[0]| != width then Failure(ScanMismatch)
    else
      assert forall i :: 1 <= i < |rows| ==> rows[1..][i - 1] == rows[i];
      ScanLast(width, rows[1..], Pointers(rows[0]))
  }

  /** `n` nil interface values, as `make([]interface{}, n)` leaves them. */
  function Nils(n: nat): (cells: seq<Cell>)
    ensures |cells| == n && forall i :: 0 <= i < n ==> cells[i] == NotPointer
  {
    seq(n, _ => NotPointer)
  }

  /** The part of GetRecord after the id column is known. */
  function FetchRecord(t: Table, idName: string, id: string, db: Database, parseFloat: string -> Option<Float64>): (o: Outcome)
    requires t.Valid()
    ensures |o.statements| >= 1 && o.statements[0] == QueryRow(RecordExistsQuery(t.name, idName), id)
    ensures |o.statements| == 2 ==> o.statements[1] == Query(RecordQuery(t.name, idName, id))
    ensures |o.statements| <= 2
    ensures db.queryExists(RecordExistsQuery(t.name, idName), id) == Success(false) ==>
              o == Outcome([QueryRow(RecordExistsQuery(t.name, idName), id)], Response(404, ErrorJson("record not found")))
    ensures db.queryExists(RecordExistsQuery(t.name, idName), id).Failure? ==>
              o == Outcome([QueryRow(RecordExistsQuery(t.name, idName), id)],
                           ServerError(DbError(db.queryExists(RecordExistsQuery(t.name, idName), id).error)))
    ensures db.queryExists(RecordExistsQuery(t.name, idName), id) == Success(true) ==> |o.statements| == 2
    ensures var fetched := db.query(RecordQuery(t.name, idName, id));
            o.response.status == 200 <==>
              && db.queryExists(RecordExistsQuery(t.name, idName), id) == Success(true)
              && fetched.Success?
              && ScanLast(|t.columns|, fetched.value, Nils(|t.columns|)).Success?
              && CastingValues(t.columnTypes, ScanLast(|t.columns|, fetched.value, Nils(|t.columns|)).value, parseFloat).Success?
    ensures var fetched := db.query(RecordQuery(t.name, idName, id));
            o.response.status == 200 ==>
              && fetched.Success?
              && ScanLast(|t.columns|, fetched.value, Nils(|t.columns|)).Success?
              && var cells := ScanLast(|t.columns|, fetched.value, Nils(|t.columns|)).value;
                 && CastingValues(t.columnTypes, cells, parseFloat).Success?
                 && o.response.body == RecordJson(RecordOf(t.columnTypes, CastingValues(t.columnTypes, cells, parseFloat).value))
    ensures o.response.status == 200 ==> o.response.body.RecordJson? && forall k :: k in o.response.body.record <==> k in t.columns
    ensures o.response.status != 200 && o.response.status != 404 ==> o.response.status == 500
  {
    var check := RecordExistsQuery(t.name, idName);
    var checked := [QueryRow(check, id)];
    match db.queryExists(check, id)
    case Failure(message) => Outcome(checked, ServerError(DbError(message)))
    case Success(false) => Outcome(checked, Response(404, ErrorJson("record not found")))
    case Success(true) =>
      var text := RecordQuery(t.name, idName, id);
      var statements := checked + [Query(text)];
      match db.query(text)
      case Failure(message) => Outcome(statements, ServerError(DbError(message)))
      case Success(rows) =>
        match ScanLast(|t.columns|, rows, Nils(|t.columns|))
        case Failure(e) => Outcome(statements, ServerError(e))
        case Success(cells) =>
          match CastingValues(t.columnTypes, cells, parseFloat)
          case Failure(e) => Outcome(statements, ServerError(CastFailed(e)))
          case Success(values) =>
            RecordOfKeys(t.columnTypes, values);
            Outcome(statements, Response(200, RecordJson(RecordOf(t.columnTypes, values))))
  }

  /**
    A record whose existence check passes but whose fetch returns no row leaves the nil
    destinations in place, and their coercion answers 500 (for a table with columns).
   */
  lemma FetchWithoutRowFails(t: Table, idName: string, id: string, db: Database, parseFloat: string -> Option<Float64>)
    requires t.Valid() && |t.columns| > 0
    requires db.queryExists(RecordExistsQuery(t.name, idName), id) == Success(true)
    requires db.query(RecordQuery(t.name, idName, id)) == Success([])
    ensures FetchRecord(t, idName, id, db, parseFloat).response == ServerError(CastFailed(ErrCastingType))
  {
    var cells := Nils(|t.columns|);
    assert CastsBefore(t.columnTypes, cells, parseFloat, 0);
    assert !IsBytesOrNull(cells[0]);
  }

  /**
    A record that exists and whose fetch returns at least one row of the table's width answers
    200 with the last row's cells coerced, when those cells coerce: each column name holds the
    value read from that column's cell (the last column of that name, should two share it).
   */
  lemma FetchRecordFound(t: Table, idName: string, id: string, db: Database, parseFloat: string -> Option<Float64>,
                         rows: seq<seq<Scanned>>)
    requires t.Valid()
    requires db.queryExists(RecordExistsQuery(t.name, idName), id) == Success(true)
    requires db.query(RecordQuery(t.name, idName, id)) == Success(rows)
    requires |rows| > 0 && forall i :: 0 <= i < |rows| ==> |rows[i]| == |t.columns|
    requires RowCasts(t, rows[|rows| - 1], parseFloat)
    ensures FetchRecord(t, idName, id, db, parseFloat) ==
              Outcome([QueryRow(RecordExistsQuery(t.name, idName), id), Query(RecordQuery(t.name, idName, id))],
                      Response(200, RecordJson(RecordOf(t.columnTypes,
                        CastingValues(t.columnTypes, Pointers(rows[|rows| - 1]), parseFloat).value))))
    ensures var record := FetchRecord(t, idName, id, db, parseFloat).response.body.record;
            forall i | 0 <= i < |t.columns| && LastNamed(t.columnTypes, i) ::
              && t.columns[i] in record
              && CastCellMeaning(t.columnTypes[i].scanTypeName, Pointer(rows[|rows| - 1][i]), parseFloat, record[t.columns[i]])
  {
    var cells := Pointers(rows[|rows| - 1]);
    assert ScanLast(|t.columns|, rows, Nils(|t.columns|)) == Success(cells);
    var record := RecordOf(t.columnTypes, CastingValues(t.columnTypes, cells, parseFloat).value);
    assert FetchRecord(t, idName, id, db, parseFloat) ==
             Outcome([QueryRow(RecordExistsQuery(t.name, idName), id), Query(RecordQuery(t.name, idName, id))],
                     Response(200, RecordJson(record)));
    RecordOfCells(t.columnTypes, cells, parseFloat);
  }

  /**
    GetRecord: resolve the table, take the id from the third path segment and the id column by
    the case-sensitive test, check that the record exists, then fetch and coerce it.
   */
  function GetRecord(catalog: Catalog, db: Database, parseFloat: string -> Option<Float64>, req: Request): (o: Outcome)
    requires ValidCatalog(catalog)
    ensures CheckTable(catalog, req.path).Failure? ==>
              o == Outcome([], TableErrorResponse(CheckTable(catalog, req.path).error))
    ensures CheckTable(catalog, req.path).Success? && IdSegment(req.path).None? ==>
              o == Outcome([], Response(400, ErrorText("bad request")))
    ensures CheckTable(catalog, req.path).Success? && IdSegment(req.path).Some? &&
            (forall c :: c in CheckTable(catalog, req.path).value.columns ==> !IdLike(c)) ==>
              o == Outcome([], Response(400, ErrorText("unknown parameter")))
    ensures o.statements != [] ==>
              var t := CheckTable(catalog, req.path).value;
              var idName := IdColumn(t.columns, false);
              && IdLike(idName)
              && o.statements[0] == QueryRow(RecordExistsQuery(t.name, idName), IdSegment(req.path).value)
    ensures CheckTable(catalog, req.path).Success? && IdSegment(req.path).Some? &&
            (exists c :: c in CheckTable(catalog, req.path).value.columns && IdLike(c)) ==>
              var t := CheckTable(catalog, req.path).value;
              o == FetchRecord(t, IdColumn(t.columns, false), IdSegment(req.path).value, db, parseFloat)
  {
    match CheckTable(catalog, req.path)
    case Failure(e) => Outcome([], TableErrorResponse(e))
    case Success(t) =>
      match IdSegment(req.path)
      case None => Outcome([], Response(400, ErrorText("bad request")))
      case Some(id) =>
        var idName := IdColumn(t.columns, false);
        if idName == "" then Outcome([], Response(400, ErrorText("unknown parameter")))
        else FetchRecord(t, idName, id, db, parseFloat)
  }

  /**
    For `/name/id` naming a table with a column whose name contains "id", GetRecord goes on to
    fetch the record `id` of that table by the last such column.
   */
  lemma GetRecordFetches(catalog: Catalog, db: Database, parseFloat: string -> Option<Float64>, req: Request,
                         name: string, id: string)
    requires ValidCatalog(catalog)
    requires '/' !in name && '/' !in id && name in catalog
    requires req.path == "/" + name + "/" + id
    requires exists c :: c in catalog[name].columns && IdLike(c)
    ensures catalog[name].Valid()
    ensures GetRecord(catalog, db, parseFloat, req) ==
              FetchRecord(catalog[name], IdColumn(catalog[name].columns, false), id, db, parseFloat)
  {
    var t := catalog[name];
    CheckTableResolves(catalog, name, "/" + id);
    assert req.path == "/" + name + ("/" + id);
    assert CheckTable(catalog, req.path) == Success(t);
    IdSegmentReads(name, id, "");
    assert req.path == "/" + name + "/" + id + "";
    assert IdSegment(req.path) == Some(id);
  }

  /**
    For `/name/id` naming a table with a column whose name contains "id", GetRecord asks whether
    the record exists by the last such column, and a record that does not exist answers 404
    after that single query.
   */
  lemma GetRecordNotFound(catalog: Catalog, db: Database, parseFloat: string -> Option<Float64>, req: Request,
                          name: string, id: string)
    requires ValidCatalog(catalog)
    requires '/' !in name && '/' !in id && name in catalog
    requires req.path == "/" + name + "/" + id
    requires exists c :: c in catalog[name].columns && IdLike(c)
    ensures db.queryExists(RecordExistsQuery(name, IdColumn(catalog[name].columns, false)), id) == Success(false) ==>
              GetRecord(catalog, db, parseFloat, req) ==
                Outcome([QueryRow(RecordExistsQuery(name, IdColumn(catalog[name].columns, false)), id)],
                        Response(404, ErrorJson("record not found")))
  {
    GetRecordFetches(catalog, db, parseFloat, req, name, id);
    assert catalog[name].name == name;
  }

  // ---------------------------------------------------------------------------------------
  // PutRecord
  // ---------------------------------------------------------------------------------------

  /** The part of PutRecord after the value map is built. */
  function InsertValuesInto(t: Table, values: map<string, JsonValue>, enumerate: Enumerator, db: Database): (o: Outcome)
    requires EnumeratesAll(enumerate)
    ensures var p := AssembleInsert(t, values, enumerate(values.Keys));
            o.statements == [Exec(InsertQuery(t.name, p), p.args)]
    ensures o.response.status == 200 ==>
              && o.response.body.InsertedJson?
              && o.response.body.idName == AssembleInsert(t, values, enumerate(values.Keys)).idName
    ensures var p := AssembleInsert(t, values, enumerate(values.Keys));
            var e := db.exec(InsertQuery(t.name, p), p.args);
            && (o.response.status == 200 <==> e.Success? && e.value.lastInsertId.Success?)
            && (o.response.status == 200 ==> o.response.body == InsertedJson(p.idName, e.value.lastInsertId.value))
            && (o.response.status != 200 ==> o.response.status == 500)
  {
    var order := enumerate(values.Keys);
    assert Enumerates(order, values.Keys);
    var p := AssembleInsert(t, values, order);
    var text := InsertQuery(t.name, p);
    var statements := [Exec(text, p.args)];
    match db.exec(text, p.args)
    case Failure(message) => Outcome(statements, ServerError(DbError(message)))
    case Success(result) =>
      match result.lastInsertId
      case Failure(message) => Outcome(statements, ServerError(DbError(message)))
      case Success(id) => Outcome(statements, Response(200, InsertedJson(p.idName, id)))
  }

  /**
    PutRecord: resolve the table, read and decode the body over the null-seeded columns, and
    insert one row.
   */
  function PutRecord(catalog: Catalog, db: Database, enumerate: Enumerator, req: Request): (o: Outcome)
    requires ValidCatalog(catalog) && EnumeratesAll(enumerate)
    ensures CheckTable(catalog, req.path).Failure? ==>
              o == Outcome([], TableErrorResponse(CheckTable(catalog, req.path).error))
    ensures CheckTable(catalog, req.path).Success? && req.body.Unreadable? ==> o.statements == [] && o.response.status == 400
    ensures CheckTable(catalog, req.path).Success? && req.body.Read? && req.body.decoded.Undecodable? ==> o.statements == [] && o.response.status == 500
    ensures CheckTable(catalog, req.path).Success? && req.body.Read? && req.body.decoded.DecodedObject? ==>
              var t := CheckTable(catalog, req.path).value;
              var values := InsertValues(t, req.body.decoded.fields);
              var p := AssembleInsert(t, values, enumerate(values.Keys));
              o.statements == [Exec(InsertQuery(t.name, p), p.args)]
    ensures CheckTable(catalog, req.path).Success? && req.body.Read? &&
            DecodedInsertValues(CheckTable(catalog, req.path).value, req.body.decoded).Some? ==>
              o == InsertValuesInto(CheckTable(catalog, req.path).value,
                                    DecodedInsertValues(CheckTable(catalog, req.path).value, req.body.decoded).value, enumerate, db)
  {
    match CheckTable(catalog, req.path)
    case Failure(e) => Outcome([], TableErrorResponse(e))
    case Success(t) =>
      match req.body
      case Unreadable(message) => Outcome([], Response(400, ErrorText(message)))
      case Read(decoded) =>
        match DecodedInsertValues(t, decoded)
        case None => Outcome([], Response(500, ErrorText(decoded.message)))
        case Some(values) => InsertValuesInto(t, values, enumerate, db)
  }

  /**
    For every order of the value map, PutRecord on an object body sends one argument per
    column without "id" in its name, each column listed once.
   */
  lemma PutRecordArguments(catalog: Catalog, db: Database, enumerate: Enumerator, req: Request)
    requires ValidCatalog(catalog) && EnumeratesAll(enumerate)
    requires CheckTable(catalog, req.path).Success?
    requires req.body.Read? && req.body.decoded.DecodedObject?
    ensures var t := CheckTable(catalog, req.path).value;
            var values := InsertValues(t, req.body.decoded.fields);
            var p := AssembleInsert(t, values, enumerate(values.Keys));
            && PutRecord(catalog, db, enumerate, req).statements == [Exec(InsertQuery(t.name, p), p.args)]
            && |p.args| == |p.fields|
            && Distinct(p.fields)
            && forall c :: c in p.fields <==> c in t.columns && !IdLike(c)
  {
    var t := CheckTable(catalog, req.path).value;
    var values := InsertValues(t, req.body.decoded.fields);
    assert Enumerates(enumerate(values.Keys), values.Keys);
    PutRecordColumns(t, req.body.decoded.fields, enumerate(values.Keys));
  }

  // ---------------------------------------------------------------------------------------
  // UpdateRecord
  // ---------------------------------------------------------------------------------------

  /** UpdateRecord's existence check. */
  function UpdateExistsQuery(table: string, idName: string): string {
    "SELECT EXISTS (SELECT * FROM " + table + " WHERE " + idName + "=?)"
  }

  /** The fields UpdateRecord decodes: an object's, none for a JSON null, or a decoding error. */
  function UpdateFields(decoded: Decoded): Option<map<string, JsonValue>> {
    match decoded
    case DecodedObject(fields) => Some(fields)
    case DecodedNull => Some(map[])
    case Undecodable(_) => None
  }

  /** The part of UpdateRecord after the body is decoded. */
  function ApplyUpdate(t: Table, idName: string, id: string, fields: map<string, JsonValue>, enumerate: Enumerator,
                       db: Database, checked: seq<Statement>): (o: Outcome)
    requires EnumeratesAll(enumerate)
    ensures (exists k | k in fields :: UpdateRefuses(t, idName, k, fields[k])) <==> o.statements == checked
    ensures (exists k | k in fields :: UpdateRefuses(t, idName, k, fields[k])) ==>
              o.response.status == 400 && o.response.body.ErrorJson?
    ensures o.response.body.ErrorJson? ==>
              exists k | k in fields :: UpdateRefuses(t, idName, k, fields[k]) && o.response.body.message == "field " + k + " have invalid type"
    ensures var p := AssembleUpdate(t, idName, fields, enumerate(fields.Keys));
            p.Assembled? ==>
              && |o.statements| == |checked| + 1
              && o.statements[..|checked|] == checked
              && o.statements[|checked|] == Exec(UpdateQuery(t.name, SetClause(p.fields, |fields|), idName, id), p.args)
    ensures var p := AssembleUpdate(t, idName, fields, enumerate(fields.Keys));
            o.response.status == 200 ==>
              && p.Assembled?
              && var result := db.exec(UpdateQuery(t.name, SetClause(p.fields, |fields|), idName, id), p.args);
                 && result.Success?
                 && result.value.rowsAffected.Success?
                 && o.response.body == UpdatedJson(result.value.rowsAffected.value)
    ensures var p := AssembleUpdate(t, idName, fields, enumerate(fields.Keys));
            p.Assembled? ==>
              var result := db.exec(UpdateQuery(t.name, SetClause(p.fields, |fields|), idName, id), p.args);
              result.Success? && result.value.rowsAffected.Success? ==> o.response.status == 200
  {
    var order := enumerate(fields.Keys);
    UpdateRecordFields(t, idName, fields, order);
    match AssembleUpdate(t, idName, fields, order)
    case Rejected(key) => Outcome(checked, Response(400, ErrorJson("field " + key + " have invalid type")))
    case Assembled(assignments, args) =>
      var text := UpdateQuery(t.name, SetClause(assignments, |fields|), idName, id);
      var statements := checked + [Exec(text, args)];
      match db.exec(text, args)
      case Failure(message) => Outcome(statements, ServerError(DbError(message)))
      case Success(result) =>
        match result.rowsAffected
        case Failure(message) => Outcome(statements, ServerError(DbError(message)))
        case Success(n) => Outcome(statements, Response(200, UpdatedJson(n)))
  }

  /**
    UpdateRecord: resolve the table, take the id from the third path segment and the id column
    by the lower-cased test, check that the record exists, then validate every field and update.
   */
  function UpdateRecord(catalog: Catalog, db: Database, enumerate: Enumerator, req: Request): (o: Outcome)
    requires ValidCatalog(catalog) && EnumeratesAll(enumerate)
    ensures CheckTable(catalog, req.path).Failure? ==>
              o == Outcome([], TableErrorResponse(CheckTable(catalog, req.path).error))
    ensures CheckTable(catalog, req.path).Success? && IdSegment(req.path).None? ==>
              o == Outcome([], Response(400, ErrorText("bad request")))
    ensures CheckTable(catalog, req.path).Success? && IdSegment(req.path).Some? ==>
              var t := CheckTable(catalog, req.path).value;
              |o.statements| >= 1 &&
              o.statements[0] == QueryRow(UpdateExistsQuery(t.name, IdColumn(t.columns, true)), IdSegment(req.path).value)
    ensures CheckTable(catalog, req.path).Success? && IdSegment(req.path).Some? ==>
              var t := CheckTable(catalog, req.path).value;
              var check := UpdateExistsQuery(t.name, IdColumn(t.columns, true));
              var id := IdSegment(req.path).value;
              var found := db.queryExists(check, id);
              && (found.Failure? ==> o == Outcome([QueryRow(check, id)], ServerError(DbError(found.error))))
              && (found == Success(false) ==> o == Outcome([QueryRow(check, id)], Response(404, ErrorJson("record not found"))))
              && (found == Success(true) && req.body.Unreadable? ==>
                    o == Outcome([QueryRow(check, id)], Response(400, ErrorText(req.body.message))))
              && (found == Success(true) && req.body.Read? && req.body.decoded.Undecodable? ==>
                    o == Outcome([QueryRow(check, id)], Response(500, ErrorText(req.body.decoded.message))))
              && (found == Success(true) && req.body.Read? && UpdateFields(req.body.decoded).Some? ==>
                    o == ApplyUpdate(t, IdColumn(t.columns, true), id, UpdateFields(req.body.decoded).value, enumerate, db,
                                     [QueryRow(check, id)]))
  {
    match CheckTable(catalog, req.path)
    case Failure(e) => Outcome([], TableErrorResponse(e))
    case Success(t) =>
      match IdSegment(req.path)
      case None => Outcome([], Response(400, ErrorText("bad request")))
      case Some(id) =>
        var idName := IdColumn(t.columns, true);
        var check := UpdateExistsQuery(t.name, idName);
        var checked := [QueryRow(check, id)];
        match db.queryExists(check, id)
        case Failure(message) => Outcome(checked, ServerError(DbError(message)))
        case Success(false) => Outcome(checked, Response(404, ErrorJson("record not found")))
        case Success(true) =>
          match req.body
          case Unreadable(message) => Outcome(checked, Response(400, ErrorText(message)))
          case Read(decoded) =>
            match UpdateFields(decoded)
            case None => Outcome(checked, Response(500, ErrorText(decoded.message)))
            case Some(fields) => ApplyUpdate(t, idName, id, fields, enumerate, db, checked)
  }

  /**
    For `/name/id`, UpdateRecord asks whether the record exists by the last column whose
    lower-cased name contains "id" (by the empty name when there is none), and a record that does
    not exist answers 404 after that single query, whatever the body.
   */
  lemma UpdateRecordNotFound(catalog: Catalog, db: Database, enumerate: Enumerator, req: Request, name: string, id: string)
    requires ValidCatalog(catalog) && EnumeratesAll(enumerate)
    requires '/' !in name && '/' !in id && name in catalog
    requires req.path == "/" + name + "/" + id
    ensures db.queryExists(UpdateExistsQuery(name, IdColumn(catalog[name].columns, true)), id) == Success(false) ==>
              UpdateRecord(catalog, db, enumerate, req) ==
                Outcome([QueryRow(UpdateExistsQuery(name, IdColumn(catalog[name].columns, true)), id)],
                        Response(404, ErrorJson("record not found")))
  {
    CheckTableResolves(catalog, name, "/" + id);
    assert req.path == "/" + name + ("/" + id);
    IdSegmentReads(name, id, "");
    assert req.path == "/" + name + "/" + id + "";
  }

  /**
    Once the record exists and the body decodes to an object, UpdateRecord answers 400 and
    sends nothing after the existence check exactly when some field fails CheckType or names
    the id column, whatever the order in which the body is visited.
   */
  lemma UpdateRecordRejects(catalog: Catalog, db: Database, enumerate: Enumerator, req: Request)
    requires ValidCatalog(catalog) && EnumeratesAll(enumerate)
    requires CheckTable(catalog, req.path).Success? && IdSegment(req.path).Some?
    requires req.body.Read? && req.body.decoded.DecodedObject?
    ensures var t := CheckTable(catalog, req.path).value;
            var idName := IdColumn(t.columns, true);
            var fields := req.body.decoded.fields;
            var o := UpdateRecord(catalog, db, enumerate, req);
            db.queryExists(UpdateExistsQuery(t.name, idName), IdSegment(req.path).value) == Success(true) ==>
              ((exists k | k in fields :: UpdateRefuses(t, idName, k, fields[k])) <==>
                 (|o.statements| == 1 && o.response.status == 400))
  {
  }

  /**
    Once the record exists and no field of the body is refused (and no key holds a '?'),
    UpdateRecord sends the existence check and then one UPDATE whose SET clause is the
    ","-join of `key = ?` over the keys in the order visited, with their values as arguments
    in the same order.
   */
  lemma UpdateRecordSends(catalog: Catalog, db: Database, enumerate: Enumerator, req: Request)
    requires ValidCatalog(catalog) && EnumeratesAll(enumerate)
    requires CheckTable(catalog, req.path).Success? && IdSegment(req.path).Some?
    requires req.body.Read? && UpdateFields(req.body.decoded).Some?
    requires var t := CheckTable(catalog, req.path).value;
             var fields := UpdateFields(req.body.decoded).value;
             forall k | k in fields :: !UpdateRefuses(t, IdColumn(t.columns, true), k, fields[k]) && '?' !in k
    ensures var t := CheckTable(catalog, req.path).value;
            var idName := IdColumn(t.columns, true);
            var id := IdSegment(req.path).value;
            var fields := UpdateFields(req.body.decoded).value;
            var order := enumerate(fields.Keys);
            var o := UpdateRecord(catalog, db, enumerate, req);
            db.queryExists(UpdateExistsQuery(t.name, idName), id) == Success(true) ==>
            && |o.statements| == 2
            && o.statements[0] == QueryRow(UpdateExistsQuery(t.name, idName), id)
            && o.statements[1].Exec?
            && o.statements[1].text == UpdateQuery(t.name, Join(Assignments(order), ","), idName, id)
            && |o.statements[1].args| == |order|
            && forall i :: 0 <= i < |order| ==> o.statements[1].args[i] == fields[order[i]]
  {
    var t := CheckTable(catalog, req.path).value;
    var idName := IdColumn(t.columns, true);
    var fields := UpdateFields(req.body.decoded).value;
    var order := enumerate(fields.Keys);
    assert Enumerates(order, fields.Keys);
    UpdateRecordFields(t, idName, fields, order);
    AssembleUpdateAssembled(t, idName, fields, order);
  }

  // ---------------------------------------------------------------------------------------
  // DeleteRecord
  // ---------------------------------------------------------------------------------------

  /** DeleteRecord's statement, the id passed as its argument. */
  function DeleteQuery(table: string, idName: string): string {
    "DELETE FROM " + table + " WHERE " + idName + " = ? "
  }

  /**
    DeleteRecord: resolve the table, take the id from the third path segment and the id column
    by the lower-cased test, and delete.
   */
  function DeleteRecord(catalog: Catalog, db: Database, req: Request): (o: Outcome)
    requires ValidCatalog(catalog)
    ensures CheckTable(catalog, req.path).Failure? ==>
              o == Outcome([], TableErrorResponse(CheckTable(catalog, req.path).error))
    ensures CheckTable(catalog, req.path).Success? && IdSegment(req.path).None? ==>
              o == Outcome([], Response(400, ErrorText("bad request")))
    ensures CheckTable(catalog, req.path).Success? && IdSegment(req.path).Some? ==>
              var t := CheckTable(catalog, req.path).value;
              o.statements == [Exec(DeleteQuery(t.name, IdColumn(t.columns, true)), [Str(IdSegment(req.path).value)])]
    ensures o.response.status == 200 ==> o.response.body.DeletedJson?
    ensures CheckTable(catalog, req.path).Success? && IdSegment(req.path).Some? ==>
              var t := CheckTable(catalog, req.path).value;
              var e := db.exec(DeleteQuery(t.name, IdColumn(t.columns, true)), [Str(IdSegment(req.path).value)]);
              && (o.response.status == 200 <==> e.Success? && e.value.rowsAffected.Success?)
              && (o.response.status == 200 ==> o.response.body == DeletedJson(e.value.rowsAffected.value))
              && (o.response.status != 200 ==> o.response.status == 500)
  {
    match CheckTable(catalog, req.path)
    case Failure(e) => Outcome([], TableErrorResponse(e))
    case Success(t) =>
      match IdSegment(req.path)
      case None => Outcome([], Response(400, ErrorText("bad request")))
      case Some(id) =>
        var idName := IdColumn(t.columns, true);
        var text := DeleteQuery(t.name, idName);
        var statements := [Exec(text, [Str(id)])];
        match db.exec(text, [Str(id)])
        case Failure(message) => Outcome(statements, ServerError(DbError(message)))
        case Success(result) =>
          match result.rowsAffected
          case Failure(message) => Outcome(statements, ServerError(DbError(message)))
          case Success(n) => Outcome(statements, Response(200, DeletedJson(n)))
  }

  // ---------------------------------------------------------------------------------------
  // Dispatch
  // ---------------------------------------------------------------------------------------

  /**
    The handler bound to an endpoint. Every handler but the table list first resolves the table,
    so a path naming no table is answered by CheckTable before any statement is sent; the table
    list never touches the database.
   */
  function Handle(e: Endpoint, catalog: Catalog, db: Database, enumerate: Enumerator,
                  parseFloat: string -> Option<Float64>, req: Request): (o: Outcome)
    requires ValidCatalog(catalog) && EnumeratesAll(enumerate)
    ensures e != ListTables && CheckTable(catalog, req.path).Failure? ==>
              o == Outcome([], TableErrorResponse(CheckTable(catalog, req.path).error))
    ensures e == ListTables ==> o.statements == [] && o.response.status == 200
  {
    match e
    case ListTables => GetTables(catalog, enumerate)
    case ListRows => GetTableValues(catalog, db, parseFloat, req)
    case GetRow => GetRecord(catalog, db, parseFloat, req)
    case InsertRow => PutRecord(catalog, db, enumerate, req)
    case UpdateRow => UpdateRecord(catalog, db, enumerate, req)
    case DeleteRow => DeleteRecord(catalog, db, req)
  }

  /**
    The engine's handler behind the ServeMux it is registered on. A request whose path is not
    canonical (a doubled slash, a "." or ".." segment) is redirected with 301 to the canonical
    path before the engine sees it, unless it is a CONNECT. Otherwise the first rule whose pattern
    matches the path and whose method is the request's runs; when none does, nothing is written
    and the response is an empty 200.
   */
  function Serve(catalog: Catalog, db: Database, enumerate: Enumerator, parseFloat: string -> Option<Float64>,
                 compile: Compiler, req: Request): (o: Outcome)
    requires ValidCatalog(catalog) && EnumeratesAll(enumerate)
    ensures req.verb != "CONNECT" && !Canonical(req.path) ==>
              o == Outcome([], Response(301, Redirected(CanonicalPath(req.path))))
    ensures (req.verb == "CONNECT" || Canonical(req.path)) && PathDefinition(req.path, req.verb, Routes, compile).None? ==>
              o == Outcome([], Response(200, NoBody))
    ensures (req.verb == "CONNECT" || Canonical(req.path)) && PathDefinition(req.path, req.verb, Routes, compile).Some? ==>
              o == Handle(PathDefinition(req.path, req.verb, Routes, compile).value, catalog, db, enumerate, parseFloat, req)
  {
    CanonicalIff(req.path);
    if req.verb != "CONNECT" && CanonicalPath(req.path) != req.path then
      Outcome([], Response(301, Redirected(CanonicalPath(req.path))))
    else
      match PathDefinition(req.path, req.verb, Routes, compile)
      case None => Outcome([], Response(200, NoBody))
      case Some(e) => Handle(e, catalog, db, enumerate, parseFloat, req)
  }

  /**
    With a regular-expression engine that compiles the installed patterns to their languages,
    a request the ServeMux lets through reaches the handler read off the route table, and a
    request no rule admits gets an empty 200.
   */
  lemma ServeDispatch(catalog: Catalog, db: Database, enumerate: Enumerator, parseFloat: string -> Option<Float64>,
                      compile: Compiler, req: Request)
    requires ValidCatalog(catalog) && EnumeratesAll(enumerate)
    requires CompilesRoutes(compile)
    ensures (req.verb == "CONNECT" || Canonical(req.path)) && Expected(req.path, req.verb).None? ==>
              Serve(catalog, db, enumerate, parseFloat, compile, req) == Outcome([], Response(200, NoBody))
    ensures (req.verb == "CONNECT" || Canonical(req.path)) && Expected(req.path, req.verb).Some? ==>
              Serve(catalog, db, enumerate, parseFloat, compile, req) ==
                Handle(Expected(req.path, req.verb).value, catalog, db, enumerate, parseFloat, req)
  {
    RouteTableDispatch(req.path, req.verb, compile);
  }

  /**
    An update or delete of `/a//5`, which the route table alone would send to the update or
    delete handler, is redirected to `/a/5` instead; an insert at `/a//` is redirected to `/a/`.
   */
  lemma DoubledSlashNeverReachesHandlers(catalog: Catalog, db: Database, enumerate: Enumerator,
                                         parseFloat: string -> Option<Float64>, compile: Compiler, req: Request)
    requires ValidCatalog(catalog) && EnumeratesAll(enumerate)
    requires req.verb in {"POST", "DELETE", "PUT"} && req.path in {"/a//5", "/a//"}
    ensures req.path == "/a//5" ==>
              Serve(catalog, db, enumerate, parseFloat, compile, req) == Outcome([], Response(301, Redirected("/a/5")))
    ensures req.path == "/a//" ==>
              Serve(catalog, db, enumerate, parseFloat, compile, req) == Outcome([], Response(301, Redirected("/a/")))
  {
    DoubledSlashBeforeIdRedirects();
    DoubledTrailingSlashRedirects();
  }
}
