/**
  The schema catalog (tables, their columns and the column metadata reported by the SQL driver),
  the values a JSON request body decodes to, and the inbound validation of such a value against
  a column (`CheckColumn`, `CheckType` in db_explorer.go).
 */
module Schema {
  import opened GoStrings

  /** A float64, kept as its IEEE-754 bit pattern: the engine only passes floats along. */
  datatype Float64 = Float64(bits: bv64)

  /** What encoding/json stores in an interface{} when decoding a request body. */
  datatype JsonValue =
    | Null
    | Str(s: string)
    | Num(f: Float64)
    | Bool(b: bool)
      /** A JSON array or object, kept as its text. */
    | Other(raw: string)

  /** reflect.TypeOf(v).Name() for a decoded non-null value. */
  function TypeName(v: JsonValue): string
    requires !v.Null?
  {
    match v
    case Str(_) => "string"
    case Num(_) => "float64"
    case Bool(_) => "bool"
    // []interface{} and map[string]interface{} are unnamed types: their Name() is empty
    case Other(_) => ""
  }

  /** The parts of a *sql.ColumnType the engine reads: Name(), ScanType().Name(), Nullable(). */
  datatype ColumnMeta = ColumnMeta(name: string, scanTypeName: string, nullable: bool)

  /** One discovered table: its column names and, in the same order, their metadata. */
  datatype Table = Table(name: string, columns: seq<string>, columnTypes: seq<ColumnMeta>) {

    /** rows.Columns() and rows.ColumnTypes() describe the same columns, position by position. */
    predicate Valid() {
      && |columns| == |columnTypes|
      && forall i :: 0 <= i < |columns| ==> columnTypes[i].name == columns[i]
    }

    /** No two columns share a name, as in every SQL table. */
    predicate UniqueNames() {
      forall i, j :: 0 <= i < j < |columns| ==> columns[i] != columns[j]
    }
  }

  /** Table name to table, built once at start-up. */
  type Catalog = map<string, Table>

  /** Every entry is stored under its own name and is a valid table. */
  predicate ValidCatalog(catalog: Catalog) {
    forall k :: k in catalog ==> catalog[k].name == k && catalog[k].Valid()
  }

  // ---------------------------------------------------------------------------------------
  // Go map iteration
  // ---------------------------------------------------------------------------------------

  /** `order` lists each key of `keys` exactly once: one order a Go `range` over a map may take. */
  predicate Enumerates(order: seq<string>, keys: set<string>) {
    && (forall k :: k in order ==> k in keys)
    && (forall k :: k in keys ==> k in order)
    && (forall i, j :: 0 <= i < j < |order| ==> order[i] != order[j])
  }

  /** An enumeration visits as many keys as the set holds. */
  lemma {:induction false} EnumerationLength(order: seq<string>, keys: set<string>)
    requires Enumerates(order, keys)
    ensures |order| == |keys|
    decreases |order|
  {
    if |order| > 0 {
      var last := order[|order| - 1];
      var prefix := order[..|order| - 1];
      assert Enumerates(prefix, keys - {last}) by {
        forall k
          ensures k in prefix <==> k in keys - {last}
        {
          if k in prefix {
            var i :| 0 <= i < |prefix| && prefix[i] == k;
            assert order[i] == k;
          }
          if k in keys - {last} {
            var i :| 0 <= i < |order| && order[i] == k;
            assert i != |order| - 1;
            assert prefix[i] == k;
          }
        }
      }
      EnumerationLength(prefix, keys - {last});
    } else {
      assert forall k :: k !in keys;
      assert keys == {};
    }
  }

  // ---------------------------------------------------------------------------------------
  // Inbound validation
  // ---------------------------------------------------------------------------------------

  /** CheckColumn: the name is one of the table's columns, found by scanning them in order. */
  function CheckColumn(name: string, columns: seq<string>): (found: bool)
    ensures found <==> exists i :: 0 <= i < |columns| && columns[i] == name
    decreases |columns|
  {
    if |columns| == 0 then false
    else columns[0] == name || CheckColumn(name, columns[1..])
  }

  /** The type names a JSON number may be written to, as one string searched by substring. */
  const FloatIntString: string := "float64 int32"

  /**
    The tests CheckType makes of a value against one column whose name equals the key:
    a null needs a nullable column, a string needs the scan type RawBytes, and a value whose
    type name occurs in FloatIntString needs a scan type name that occurs there too.
   */
  predicate ColumnAccepts(c: ColumnMeta, v: JsonValue) {
    if v.Null? then c.nullable
    else
      && !(TypeName(v) == "string" && c.scanTypeName != "RawBytes")
      && !(!Contains(FloatIntString, c.scanTypeName) && Contains(FloatIntString, TypeName(v)))
  }

  lemma FloatIntStringHasFloat64()
    ensures Contains(FloatIntString, "float64")
  {
    assert FloatIntString[..7] == "float64";
    assert HasPrefix(FloatIntString, "float64");
  }

  lemma FloatIntStringHasEmpty()
    ensures Contains(FloatIntString, "")
  {
    assert HasPrefix(FloatIntString, "");
  }

  /** The type names "string" and "bool" do not occur in FloatIntString. */
  lemma FloatIntStringLacks(name: string)
    requires name == "string" || name == "bool"
    ensures !Contains(FloatIntString, name)
  {
    assert name[0] !in FloatIntString;
    NoOccurrence(FloatIntString, name);
  }

  /** A string whose first character never appears in `s` does not occur in `s`. */
  lemma NoOccurrence(s: string, sub: string)
    requires |sub| > 0 && sub[0] !in s
    ensures !Contains(s, sub)
  {
    ContainsIffOccurs(s, sub);
    assert forall i :: OccursAt(s, sub, i) ==> s[i] == sub[0];
  }

  /** Which JSON type names occur in FloatIntString. */
  lemma FloatIntStringFacts()
    ensures Contains(FloatIntString, "float64")
    ensures Contains(FloatIntString, "")
    ensures !Contains(FloatIntString, "string")
    ensures !Contains(FloatIntString, "bool")
  {
    FloatIntStringHasFloat64();
    FloatIntStringHasEmpty();
    FloatIntStringLacks("string");
    FloatIntStringLacks("bool");
  }

  /**
    What each kind of JSON value needs from a column: null a nullable column, a string the scan
    type RawBytes, a boolean nothing more, and a number, array or object a scan type name that is
    a substring of "float64 int32".
   */
  lemma ColumnAcceptsByKind(c: ColumnMeta, v: JsonValue)
    ensures v.Null? ==> (ColumnAccepts(c, v) <==> c.nullable)
    ensures v.Str? ==> (ColumnAccepts(c, v) <==> c.scanTypeName == "RawBytes")
    ensures v.Bool? ==> ColumnAccepts(c, v)
    ensures v.Num? || v.Other? ==> (ColumnAccepts(c, v) <==> Contains(FloatIntString, c.scanTypeName))
  {
    FloatIntStringFacts();
  }

  /** No column before position `i` is named `key`. */
  predicate FirstNamed(cols: seq<ColumnMeta>, key: string, i: int)
    requires 0 <= i <= |cols|
  {
    forall j :: 0 <= j < i ==> cols[j].name != key
  }

  /**
    CheckType's loop over the column metadata. A key that names no column is accepted. For a
    non-null value every column of that name must accept it; a null is decided by the first
    column of that name alone (a nullable one returns at once).
   */
  function CheckTypeFrom(key: string, v: JsonValue, cols: seq<ColumnMeta>): bool
    decreases |cols|
  {
    if |cols| == 0 then true
    else
      var c := cols[0];
      if key == c.name then
        if v == Null && c.nullable then true
        else if !c.nullable && v == Null then false
        else if TypeName(v) == "string" && c.scanTypeName != "RawBytes" then false
        else if !Contains(FloatIntString, c.scanTypeName) && Contains(FloatIntString, TypeName(v)) then false
        else CheckTypeFrom(key, v, cols[1..])
      else CheckTypeFrom(key, v, cols[1..])
  }

  /** CheckType accepts any value for a key that names no column. */
  lemma {:induction false} CheckTypeFromUnknown(key: string, v: JsonValue, cols: seq<ColumnMeta>)
    requires forall i :: 0 <= i < |cols| ==> cols[i].name != key
    ensures CheckTypeFrom(key, v, cols)
    decreases |cols|
  {
    if |cols| > 0 {
      assert forall i :: 0 <= i < |cols[1..]| ==> cols[1..][i] == cols[i + 1];
      CheckTypeFromUnknown(key, v, cols[1..]);
    }
  }

  /** One step of CheckType's loop for a non-null value. */
  lemma CheckTypeFromValueStep(key: string, v: JsonValue, cols: seq<ColumnMeta>)
    requires !v.Null? && |cols| > 0
    ensures CheckTypeFrom(key, v, cols) ==
              if cols[0].name == key then ColumnAccepts(cols[0], v) && CheckTypeFrom(key, v, cols[1..])
              else CheckTypeFrom(key, v, cols[1..])
  {
  }

  /** CheckType accepts a non-null value exactly when every column of that name accepts it. */
  lemma {:induction false} CheckTypeFromValue(key: string, v: JsonValue, cols: seq<ColumnMeta>)
    requires !v.Null?
    ensures CheckTypeFrom(key, v, cols) <==>
              forall i :: 0 <= i < |cols| && cols[i].name == key ==> ColumnAccepts(cols[i], v)
    decreases |cols|
  {
    if |cols| > 0 {
      var rest := cols[1..];
      CheckTypeFromValue(key, v, rest);
      CheckTypeFromValueStep(key, v, cols);
      assert forall i :: 1 <= i < |cols| ==> cols[i] == rest[i - 1];
      assert (forall i :: 0 <= i < |cols| && cols[i].name == key ==> ColumnAccepts(cols[i], v)) <==>
               && (cols[0].name == key ==> ColumnAccepts(cols[0], v))
               && (forall i :: 0 <= i < |rest| && rest[i].name == key ==> ColumnAccepts(rest[i], v));
    }
  }

  /**
    CheckType decides a null by the first column of that name alone: a nullable one returns true
    at once, a non-nullable one false.
   */
  lemma {:induction false} CheckTypeFromNull(key: string, cols: seq<ColumnMeta>)
    ensures CheckTypeFrom(key, Null, cols) <==>
              forall i :: 0 <= i < |cols| && cols[i].name == key && FirstNamed(cols, key, i) ==> cols[i].nullable
    decreases |cols|
  {
    if |cols| > 0 {
      var rest := cols[1..];
      CheckTypeFromNull(key, rest);
      assert forall i :: 1 <= i < |cols| ==> cols[i] == rest[i - 1];
      if cols[0].name == key {
        assert FirstNamed(cols, key, 0);
      } else {
        forall i | 1 <= i < |cols| && FirstNamed(cols, key, i)
          ensures FirstNamed(rest, key, i - 1)
        {
          assert forall j :: 0 <= j < i - 1 ==> rest[j] == cols[j + 1];
        }
        forall i | 0 <= i < |rest| && FirstNamed(rest, key, i)
          ensures FirstNamed(cols, key, i + 1)
        {
          assert forall j :: 1 <= j < i + 1 ==> cols[j] == rest[j - 1];
        }
      }
    }
  }

  /**
    CheckType(key, value, table): a non-null value must suit every column of that name, while a
    null is settled by the first column of that name alone; a key naming no column passes.
   */
  function CheckType(key: string, v: JsonValue, t: Table): (ok: bool)
    ensures !v.Null? ==>
              (ok <==> forall i :: 0 <= i < |t.columnTypes| && t.columnTypes[i].name == key ==> ColumnAccepts(t.columnTypes[i], v))
    ensures v.Null? ==>
              (ok <==> forall i :: 0 <= i < |t.columnTypes| && t.columnTypes[i].name == key && FirstNamed(t.columnTypes, key, i) ==>
                         t.columnTypes[i].nullable)
  {
    if v.Null? then
      CheckTypeFromNull(key, t.columnTypes);
      CheckTypeFrom(key, v, t.columnTypes)
    else
      CheckTypeFromValue(key, v, t.columnTypes);
      CheckTypeFrom(key, v, t.columnTypes)
  }

  /**
    In a table whose columns have distinct names, CheckType on a column's own name is exactly that
    column's test: a null is accepted exactly when the column is nullable, a string exactly when
    its scan type is RawBytes, a number exactly when its scan type name occurs in "float64 int32".
   */
  lemma {:induction false} CheckTypeNamedColumn(t: Table, i: int, v: JsonValue)
    requires t.Valid() && t.UniqueNames()
    requires 0 <= i < |t.columns|
    ensures CheckType(t.columns[i], v, t) == ColumnAccepts(t.columnTypes[i], v)
    ensures v.Null? ==> (CheckType(t.columns[i], v, t) <==> t.columnTypes[i].nullable)
    ensures v.Str? ==> (CheckType(t.columns[i], v, t) <==> t.columnTypes[i].scanTypeName == "RawBytes")
    ensures v.Num? ==> (CheckType(t.columns[i], v, t) <==> Contains(FloatIntString, t.columnTypes[i].scanTypeName))
  {
    ColumnAcceptsByKind(t.columnTypes[i], v);
    if v.Null? {
      CheckTypeFromNull(t.columns[i], t.columnTypes);
    } else {
      CheckTypeFromValue(t.columns[i], v, t.columnTypes);
    }
    forall j | 0 <= j < |t.columnTypes| && t.columnTypes[j].name == t.columns[i]
      ensures j == i
    {
      assert t.columns[j] == t.columns[i];
    }
  }

  /** A key that is none of the table's columns always passes CheckType. */
  lemma CheckTypeUnknownKey(t: Table, key: string, v: JsonValue)
    requires t.Valid()
    requires !CheckColumn(key, t.columns)
    ensures CheckType(key, v, t)
  {
    CheckTypeFromUnknown(key, v, t.columnTypes);
  }
}
