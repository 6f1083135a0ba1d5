/**
  The per-request decisions of the handlers in db_explorer.go that do not depend on the request
  body: which table a path names (`CheckTable`), the page a list request asks for
  (`GetTableValues`), which column is taken as the record identifier (`GetRecord`,
  `UpdateRecord`, `DeleteRecord`), and the sorted table listing (`GetTables`).
 */
module Requests {
  import opened Wrappers
  import opened GoStrings
  import opened Schema
  import opened Sorting

  // ---------------------------------------------------------------------------------------
  // CheckTable
  // ---------------------------------------------------------------------------------------

  /** Why CheckTable gave up: no second path segment (400), or no table of that name (404). */
  datatype TableError = BadRequest | UnknownTable

  /** CheckTable: the table named by the second '/'-separated segment of the path. */
  function CheckTable(catalog: Catalog, path: string): (r: Result<Table, TableError>)
    ensures r == Failure(BadRequest) <==> '/' !in path
    ensures r.Success? ==> r.value in catalog.Values
  {
    var segments := Split(path, '/');
    SplitFindsSeparator(path, '/');
    if |segments| >= 2 then
      if segments[1] in catalog then Success(catalog[segments[1]]) else Failure(UnknownTable)
    else Failure(BadRequest)
  }

  /**
    A path `/name` or `/name/...` resolves to the table stored under `name`, and to 404 when
    there is none; in a catalog built by the engine that table carries the name itself.
   */
  lemma CheckTableResolves(catalog: Catalog, name: string, rest: string)
    requires '/' !in name
    requires rest == "" || rest[0] == '/'
    ensures name in catalog ==> CheckTable(catalog, "/" + name + rest) == Success(catalog[name])
    ensures name !in catalog ==> CheckTable(catalog, "/" + name + rest) == Failure(UnknownTable)
    ensures ValidCatalog(catalog) && name in catalog ==> CheckTable(catalog, "/" + name + rest).value.name == name
  {
    var path := "/" + name + rest;
    SplitAtFirst("", '/', name + rest);
    assert path == "" + ['/'] + (name + rest);
    if rest == "" {
      SplitNoSeparator(name, '/');
      assert name + rest == name;
    } else {
      SplitAtFirst(name, '/', rest[1..]);
      assert name + rest == name + ['/'] + rest[1..];
    }
  }

  // ---------------------------------------------------------------------------------------
  // Pagination in GetTableValues
  // ---------------------------------------------------------------------------------------

  /** The page requested by the `limit` and `offset` query parameters, as text. */
  datatype Page = Page(limit: string, offset: string)

  /** A query parameter that is empty or does not match `^\d+$` is replaced by the default. */
  function PageParameter(query: string, default: string): string {
    if query == "" || !IsDigitString(query) then default else query
  }

  /**
    The pagination defaulting: the limit falls back to "5" and the offset to "0" unless the
    supplied text is one or more digits.
   */
  function Pagination(limitQuery: string, offsetQuery: string): (p: Page)
    ensures IsDigitString(p.limit) && IsDigitString(p.offset)
    ensures IsDigitString(limitQuery) ==> p.limit == limitQuery
    ensures !IsDigitString(limitQuery) ==> p.limit == "5"
    ensures IsDigitString(offsetQuery) ==> p.offset == offsetQuery
    ensures !IsDigitString(offsetQuery) ==> p.offset == "0"
  {
    Page(PageParameter(limitQuery, "5"), PageParameter(offsetQuery, "0"))
  }

  /** Defaulting an already defaulted page changes nothing. */
  lemma PaginationIdempotent(limitQuery: string, offsetQuery: string)
    ensures var p := Pagination(limitQuery, offsetQuery); Pagination(p.limit, p.offset) == p
  {
  }

  /** The statement GetTableValues sends for one page of a table. */
  function ListRowsQuery(table: string, p: Page): string {
    "SELECT * FROM " + table + " LIMIT " + p.limit + " OFFSET " + p.offset
  }

  /** The words of the list statement. */
  function ListRowsWords(table: string, p: Page): seq<string> {
    ["SELECT", "*", "FROM", table, "LIMIT", p.limit, "OFFSET", p.offset]
  }

  /** A digit string has no space in it. */
  lemma DigitsHaveNoSpace(s: string)
    requires IsDigitString(s)
    ensures ' ' !in s
  {
    assert forall i | 0 <= i < |s| :: s[i] != ' ' by {
      assert AllDigits(s);
    }
  }

  /** The list statement, regrouped word by word. */
  lemma ListRowsQueryRegrouped(table: string, p: Page)
    ensures ListRowsQuery(table, p) ==
              "SELECT" + " " + ("*" + " " + ("FROM" + " " + (table + " " + ("LIMIT" + " " + (p.limit + " " + ("OFFSET" + " " + p.offset))))))
  {
    var offset := "OFFSET" + " " + p.offset;
    var limit := "LIMIT" + " " + (p.limit + " " + offset);
    assert " OFFSET " + p.offset == " " + offset;
    assert " LIMIT " + p.limit + (" OFFSET " + p.offset) == " " + limit;
    assert "SELECT * FROM " + table + (" LIMIT " + p.limit + (" OFFSET " + p.offset)) ==
             "SELECT" + " " + ("*" + " " + ("FROM" + " " + (table + " " + limit)));
  }

  /** Joining the words with single spaces spells out the list statement. */
  lemma ListRowsQueryIsJoin(table: string, p: Page)
    ensures Join(ListRowsWords(table, p), " ") == ListRowsQuery(table, p)
  {
    var s := " ";
    JoinCons("OFFSET", [p.offset], s);
    JoinCons(p.limit, ["OFFSET", p.offset], s);
    JoinCons("LIMIT", [p.limit, "OFFSET", p.offset], s);
    JoinCons(table, ["LIMIT", p.limit, "OFFSET", p.offset], s);
    JoinCons("FROM", [table, "LIMIT", p.limit, "OFFSET", p.offset], s);
    JoinCons("*", ["FROM", table, "LIMIT", p.limit, "OFFSET", p.offset], s);
    JoinCons("SELECT", ["*", "FROM", table, "LIMIT", p.limit, "OFFSET", p.offset], s);
    ListRowsQueryRegrouped(table, p);
  }

  /** The fixed words of the list statement have no space in them. */
  lemma ListRowsKeywords()
    ensures ' ' !in "SELECT" && ' ' !in "*" && ' ' !in "FROM" && ' ' !in "LIMIT" && ' ' !in "OFFSET"
  {
  }

  /**
    The list statement is the space-separated words SELECT * FROM table LIMIT limit OFFSET offset:
    splitting it at spaces gives the table name and the page back, for every defaulted page and
    every table name without a space.
   */
  lemma ListRowsQueryWords(table: string, limitQuery: string, offsetQuery: string)
    requires ' ' !in table
    ensures var p := Pagination(limitQuery, offsetQuery);
            Split(ListRowsQuery(table, p), ' ') == ListRowsWords(table, p)
  {
    var p := Pagination(limitQuery, offsetQuery);
    DigitsHaveNoSpace(p.limit);
    DigitsHaveNoSpace(p.offset);
    ListRowsKeywords();
    ListRowsQueryIsJoin(table, p);
    SplitJoin(ListRowsWords(table, p), ' ');
  }

  // ---------------------------------------------------------------------------------------
  // Id-column inference
  // ---------------------------------------------------------------------------------------

  /** GetRecord's test: the column name contains "id", case-sensitively. */
  predicate IdLike(name: string) {
    Contains(name, "id")
  }

  /** UpdateRecord's and DeleteRecord's test: the lower-cased column name contains "id". */
  predicate IdLikeFolded(name: string) {
    Contains(ToLower(name), "id")
  }

  /** The test in force: lower-cased when `folded`. */
  predicate NamesId(name: string, folded: bool) {
    if folded then IdLikeFolded(name) else IdLike(name)
  }

  /** Column `i` passes the test and no later column does. */
  ghost predicate LastIdColumn(columns: seq<string>, folded: bool, i: int) {
    && 0 <= i < |columns|
    && NamesId(columns[i], folded)
    && forall j :: i < j < |columns| ==> !NamesId(columns[j], folded)
  }

  /**
    The inference loop: `idName` is overwritten by every column that passes the test, so after
    the loop it holds the last such column, or its starting value when none passes.
   */
  function IdColumnFrom(columns: seq<string>, folded: bool, idName: string): (r: string)
    ensures (forall i :: 0 <= i < |columns| ==> !NamesId(columns[i], folded)) ==> r == idName
    ensures forall i | LastIdColumn(columns, folded, i) :: r == columns[i]
    decreases |columns|
  {
    if |columns| == 0 then idName
    else
      var next := if NamesId(columns[0], folded) then columns[0] else idName;
      assert forall i :: 1 <= i < |columns| ==> columns[1..][i - 1] == columns[i];
      assert forall i | LastIdColumn(columns, folded, i) && i > 0 :: LastIdColumn(columns[1..], folded, i - 1);
      IdColumnFrom(columns[1..], folded, next)
  }

  /** A name that passes either test is at least two characters long, hence not empty. */
  lemma NamesIdNonEmpty(name: string, folded: bool)
    requires NamesId(name, folded)
    ensures |name| >= 2
  {
    if folded {
      ContainsLength(ToLower(name), "id");
    } else {
      ContainsLength(name, "id");
    }
  }

  /** If some column passes the test, one of them is the last to do so. */
  lemma {:induction false} SomeLastIdColumn(columns: seq<string>, folded: bool, i: int)
    requires 0 <= i < |columns| && NamesId(columns[i], folded)
    ensures exists k :: LastIdColumn(columns, folded, k)
    decreases |columns| - i
  {
    if !LastIdColumn(columns, folded, i) {
      var j :| i < j < |columns| && NamesId(columns[j], folded);
      SomeLastIdColumn(columns, folded, j);
    }
  }

  /** When some column passes the test, a last one does, and its name is not empty. */
  lemma LastIdColumnExists(columns: seq<string>, folded: bool)
    requires exists i :: 0 <= i < |columns| && NamesId(columns[i], folded)
    ensures exists k :: LastIdColumn(columns, folded, k) && columns[k] != ""
  {
    var i :| 0 <= i < |columns| && NamesId(columns[i], folded);
    SomeLastIdColumn(columns, folded, i);
    var k :| LastIdColumn(columns, folded, k);
    NamesIdNonEmpty(columns[k], folded);
  }

  /**
    The inferred id column: empty exactly when no column passes the test, and otherwise the
    last column that does.
   */
  function IdColumn(columns: seq<string>, folded: bool): (r: string)
    ensures r == "" <==> forall i :: 0 <= i < |columns| ==> !NamesId(columns[i], folded)
    ensures r != "" ==> exists i :: LastIdColumn(columns, folded, i) && columns[i] == r
  {
    var r := IdColumnFrom(columns, folded, "");
    assert (exists i :: 0 <= i < |columns| && NamesId(columns[i], folded)) ==>
             exists k :: LastIdColumn(columns, folded, k) && columns[k] != "" by {
      if exists i :: 0 <= i < |columns| && NamesId(columns[i], folded) {
        LastIdColumnExists(columns, folded);
      }
    }
    r
  }

  /** "id" is its own lower-case form. */
  lemma LowerId()
    ensures ToLower("id") == "id"
  {
  }

  /** Every column GetRecord would take as an id is also one UpdateRecord would. */
  lemma IdLikeIsFolded(name: string)
    requires IdLike(name)
    ensures IdLikeFolded(name)
  {
    LowerId();
    LowerKeepsLowerOccurrence(name, "id");
  }

  /**
    GetRecord and UpdateRecord/DeleteRecord can settle on different columns of one table: with
    columns user_id and ID the former picks user_id and the latter ID.
   */
  lemma IdInferenceDiffersByCase()
    ensures IdColumn(["user_id", "ID"], false) == "user_id"
    ensures IdColumn(["user_id", "ID"], true) == "ID"
  {
    var cols := ["user_id", "ID"];
    assert cols[0][5..7] == "id";
    ContainsIffOccurs(cols[0], "id");
    assert OccursAt(cols[0], "id", 5);
    assert ToLower(cols[1]) == "id";
    assert HasPrefix(ToLower(cols[1]), "id");
    NoOccurrence(cols[1], "id");
    assert LastIdColumn(cols, false, 0);
    assert LastIdColumn(cols, true, 1);
  }

  // ---------------------------------------------------------------------------------------
  // GetTables
  // ---------------------------------------------------------------------------------------

  /** The `name` field of each table, in the order the catalog is ranged over. */
  function NamesInOrder(catalog: Catalog, order: seq<string>): (names: seq<string>)
    requires forall i :: 0 <= i < |order| ==> order[i] in catalog
    ensures |names| == |order|
    ensures forall i :: 0 <= i < |order| ==> names[i] == catalog[order[i]].name
  {
    seq(|order|, i requires 0 <= i < |order| => catalog[order[i]].name)
  }

  /** GetTables: the table names collected while ranging over the catalog, sorted ascending. */
  function TableNames(catalog: Catalog, order: seq<string>): (names: seq<string>)
    requires forall i :: 0 <= i < |order| ==> order[i] in catalog
    ensures Sorted(names)
    ensures multiset(names) == multiset(NamesInOrder(catalog, order))
  {
    Sort(NamesInOrder(catalog, order))
  }

  /** A sequence without repetitions holds each of its elements once. */
  lemma {:induction false} DistinctMultiplicity(s: seq<string>, x: string)
    requires forall i, j :: 0 <= i < j < |s| ==> s[i] != s[j]
    ensures multiset(s)[x] == if x in s then 1 else 0
    decreases |s|
  {
    if |s| > 0 {
      var rest := s[1..];
      assert s == [s[0]] + rest;
      assert forall i, j :: 0 <= i < j < |rest| ==> rest[i] == s[i + 1] && rest[j] == s[j + 1];
      DistinctMultiplicity(rest, x);
      assert s[0] !in rest by {
        forall j | 0 <= j < |rest|
          ensures rest[j] != s[0]
        {
          assert rest[j] == s[j + 1];
        }
      }
    }
  }

  /** Two enumerations of one key set are arrangements of the same strings. */
  lemma EnumerationsArePermutations(a: seq<string>, b: seq<string>, keys: set<string>)
    requires Enumerates(a, keys) && Enumerates(b, keys)
    ensures multiset(a) == multiset(b)
  {
    forall x
      ensures multiset(a)[x] == multiset(b)[x]
    {
      DistinctMultiplicity(a, x);
      DistinctMultiplicity(b, x);
    }
  }

  /** In a catalog built by the engine, every table is listed under its own name. */
  lemma NamesInOrderAreKeys(catalog: Catalog, order: seq<string>)
    requires ValidCatalog(catalog)
    requires forall i :: 0 <= i < |order| ==> order[i] in catalog
    ensures NamesInOrder(catalog, order) == order
  {
  }

  /** The listing names every table of the catalog, and each of them once. */
  lemma {:induction false} TableNamesListCatalog(catalog: Catalog, order: seq<string>)
    requires ValidCatalog(catalog)
    requires Enumerates(order, catalog.Keys)
    ensures forall x :: x in TableNames(catalog, order) <==> x in catalog
    ensures |TableNames(catalog, order)| == |catalog|
  {
    NamesInOrderAreKeys(catalog, order);
    EnumerationLength(order, catalog.Keys);
    var names := TableNames(catalog, order);
    assert |names| == |multiset(names)| == |multiset(order)| == |order|;
    forall x
      ensures x in names <==> x in catalog
    {
      assert x in names <==> x in multiset(names);
      assert x in order <==> x in multiset(order);
    }
  }

  /** The listing is the same for every order in which the catalog map is ranged over. */
  lemma {:induction false} TableNamesOrderIndependent(catalog: Catalog, order: seq<string>, other: seq<string>)
    requires ValidCatalog(catalog)
    requires Enumerates(order, catalog.Keys) && Enumerates(other, catalog.Keys)
    ensures TableNames(catalog, order) == TableNames(catalog, other)
  {
    NamesInOrderAreKeys(catalog, order);
    NamesInOrderAreKeys(catalog, other);
    EnumerationsArePermutations(order, other, catalog.Keys);
    SortPermutationInvariant(order, other);
  }
}
