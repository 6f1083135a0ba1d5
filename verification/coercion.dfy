/**
  Outbound coercion (`CastingValues` in db_explorer.go): the cells a row scan produced are turned
  into null, integer, float or text values according to the scan type name of their column, and
  a row of values becomes a JSON object keyed by column name.
 */
module Coercion {
  import opened Wrappers
  import opened GoStrings
  import opened Schema

  newtype uint8 = b: int | 0 <= b < 256

  /** What the SQL driver's Scan stores behind an *interface{}: nil, a []byte, or some other type. */
  datatype Scanned = ScannedNull | ScannedBytes(bytes: seq<uint8>) | ScannedOther

  /** An element of the `values` slice: a pointer to a scanned interface{}, or anything else. */
  datatype Cell = Pointer(target: Scanned) | NotPointer

  /** A coerced value, as json.Marshal will write it. */
  datatype OutValue = OutNull | OutInt(i: int) | OutFloat(f: Float64) | OutText(s: string)

  /** ErrCastingType, or the error of the failed strconv call. */
  datatype CastError = ErrCastingType | ErrAtoi(atoi: AtoiError) | ErrParseFloat(input: string)

  /** string(bytes): one character per byte. */
  function BytesToString(b: seq<uint8>): string {
    seq(|b|, i requires 0 <= i < |b| => (b[i] as int) as char)
  }

  /** []byte(s) for a string of byte-sized characters. */
  function StringToBytes(s: string): seq<uint8>
    requires forall i :: 0 <= i < |s| ==> s[i] as int < 256
  {
    seq(|s|, i requires 0 <= i < |s| => s[i] as int as uint8)
  }

  /** The text of a byte cell is the bytes themselves: they can be read back from it. */
  lemma BytesToStringVerbatim(b: seq<uint8>)
    ensures |BytesToString(b)| == |b|
    ensures StringToBytes(BytesToString(b)) == b
  {
  }

  /** The coercion of one cell by the scan type name of its column. */
  function CastCell(scanTypeName: string, cell: Cell, parseFloat: string -> Option<Float64>): Result<OutValue, CastError> {
    match cell
    case NotPointer => Failure(ErrCastingType)
    case Pointer(ScannedNull) => Success(OutNull)
    case Pointer(ScannedOther) => Failure(ErrCastingType)
    case Pointer(ScannedBytes(b)) =>
      var text := BytesToString(b);
      if Contains(scanTypeName, "int") then
        match Atoi(text)
        case Success(n) => Success(OutInt(n))
        case Failure(e) => Failure(ErrAtoi(e))
      else if Contains(scanTypeName, "float") then
        match parseFloat(text)
        case Some(f) => Success(OutFloat(f))
        case None => Failure(ErrParseFloat(text))
      else Success(OutText(text))
  }

  /** The cell points at a []byte. */
  predicate HoldsBytes(cell: Cell) {
    cell.Pointer? && cell.target.ScannedBytes?
  }

  /** The cell points at nil or at a []byte: the only cells CastingValues accepts. */
  predicate IsBytesOrNull(cell: Cell) {
    cell.Pointer? && !cell.target.ScannedOther?
  }

  /** The text of a cell that holds bytes. */
  function CellText(cell: Cell): string
    requires HoldsBytes(cell)
  {
    BytesToString(cell.target.bytes)
  }

  /** What a successful coercion of one cell gives, by the kind of cell and the scan type name. */
  predicate CastCellMeaning(scanTypeName: string, cell: Cell, parseFloat: string -> Option<Float64>, v: OutValue) {
    && IsBytesOrNull(cell)
    && (v == OutNull <==> cell == Pointer(ScannedNull))
    && (HoldsBytes(cell) && Contains(scanTypeName, "int") ==> v.OutInt? && Atoi(CellText(cell)) == Success(v.i))
    && (HoldsBytes(cell) && !Contains(scanTypeName, "int") && Contains(scanTypeName, "float") ==>
          v.OutFloat? && parseFloat(CellText(cell)) == Some(v.f))
    && (HoldsBytes(cell) && !Contains(scanTypeName, "int") && !Contains(scanTypeName, "float") ==>
          v == OutText(CellText(cell)))
  }

  /** A cell that coerces points at nil or bytes, and its value is read by the scan type name. */
  lemma CastCellSucceeds(scanTypeName: string, cell: Cell, parseFloat: string -> Option<Float64>)
    requires CastCell(scanTypeName, cell, parseFloat).Success?
    ensures CastCellMeaning(scanTypeName, cell, parseFloat, CastCell(scanTypeName, cell, parseFloat).value)
  {
  }

  /** Every cell before position `i` coerces without error. */
  ghost predicate CastsBefore(types: seq<ColumnMeta>, cells: seq<Cell>, parseFloat: string -> Option<Float64>, i: int)
    requires 0 <= i <= |cells| <= |types|
  {
    forall j :: 0 <= j < i ==> CastCell(types[j].scanTypeName, cells[j], parseFloat).Success?
  }

  /**
    CastingValues: the cells are coerced left to right against the column metadata at the same
    position, and the first cell that cannot be coerced aborts the whole row with its error.
    `parseFloat` stands for strconv.ParseFloat(text, 64).
   */
  function CastingValues(types: seq<ColumnMeta>, cells: seq<Cell>, parseFloat: string -> Option<Float64>)
    : (r: Result<seq<OutValue>, CastError>)
    requires |cells| <= |types|
    // only the failure of a single cell makes the row fail
    ensures r.Success? <==> CastsBefore(types, cells, parseFloat, |cells|)
    // on success there is one value per cell, and it is that cell's own coercion
    ensures r.Success? ==> |r.value| == |cells|
    ensures r.Success? ==>
              forall i :: 0 <= i < |cells| ==> CastCell(types[i].scanTypeName, cells[i], parseFloat) == Success(r.value[i])
    decreases |cells|
  {
    if |cells| == 0 then Success([])
    else
      match CastCell(types[0].scanTypeName, cells[0], parseFloat)
      case Failure(e) => Failure(e)
      case Success(v) =>
        assert forall j :: 1 <= j < |cells| ==> cells[1..][j - 1] == cells[j] && types[1..][j - 1] == types[j];
        match CastingValues(types[1..], cells[1..], parseFloat)
        case Failure(e) => Failure(e)
        case Success(vs) => Success([v] + vs)
  }

  /**
    What a row that coerces holds: every cell pointed at nil or at bytes; null stays null and
    nothing else becomes null; bytes become an integer when the scan type name contains "int",
    else a float when it contains "float", else their verbatim text.
   */
  lemma CastingValuesCells(types: seq<ColumnMeta>, cells: seq<Cell>, parseFloat: string -> Option<Float64>)
    requires |cells| <= |types|
    ensures var r := CastingValues(types, cells, parseFloat);
            r.Success? ==>
              && |r.value| == |cells|
              && (forall i :: 0 <= i < |cells| ==> IsBytesOrNull(cells[i]))
              && (forall i :: 0 <= i < |cells| ==> (r.value[i] == OutNull <==> cells[i] == Pointer(ScannedNull)))
              && (forall i | 0 <= i < |cells| && HoldsBytes(cells[i]) && Contains(types[i].scanTypeName, "int") ::
                    r.value[i].OutInt? && Atoi(CellText(cells[i])) == Success(r.value[i].i))
              && (forall i | 0 <= i < |cells| && HoldsBytes(cells[i]) && !Contains(types[i].scanTypeName, "int")
                             && Contains(types[i].scanTypeName, "float") ::
                    r.value[i].OutFloat? && parseFloat(CellText(cells[i])) == Some(r.value[i].f))
              && (forall i | 0 <= i < |cells| && HoldsBytes(cells[i]) && !Contains(types[i].scanTypeName, "int")
                             && !Contains(types[i].scanTypeName, "float") ::
                    r.value[i] == OutText(CellText(cells[i])))
  {
    var r := CastingValues(types, cells, parseFloat);
    if r.Success? {
      forall i | 0 <= i < |cells|
        ensures CastCellMeaning(types[i].scanTypeName, cells[i], parseFloat, r.value[i])
      {
        CastCellSucceeds(types[i].scanTypeName, cells[i], parseFloat);
      }
    }
  }

  /**
    A row that fails reports the error of its first failing cell: `ErrCastingType` for a cell that
    is not a pointer to nil or to bytes, otherwise the error of the failed Atoi or ParseFloat.
   */
  lemma {:induction false} CastingValuesFailure(types: seq<ColumnMeta>, cells: seq<Cell>, parseFloat: string -> Option<Float64>, i: int)
    requires 0 <= i < |cells| <= |types|
    requires CastsBefore(types, cells, parseFloat, i)
    requires CastCell(types[i].scanTypeName, cells[i], parseFloat).Failure?
    ensures CastingValues(types, cells, parseFloat) == Failure(CastCell(types[i].scanTypeName, cells[i], parseFloat).error)
    ensures !IsBytesOrNull(cells[i]) ==> CastingValues(types, cells, parseFloat) == Failure(ErrCastingType)
    ensures HoldsBytes(cells[i]) && Contains(types[i].scanTypeName, "int") ==>
              CastingValues(types, cells, parseFloat) == Failure(ErrAtoi(Atoi(CellText(cells[i])).error))
    ensures HoldsBytes(cells[i]) && !Contains(types[i].scanTypeName, "int") && Contains(types[i].scanTypeName, "float") ==>
              CastingValues(types, cells, parseFloat) == Failure(ErrParseFloat(CellText(cells[i])))
    decreases i
  {
    if i > 0 {
      assert CastCell(types[0].scanTypeName, cells[0], parseFloat).Success?;
      assert forall j :: 1 <= j < |cells| ==> cells[1..][j - 1] == cells[j] && types[1..][j - 1] == types[j];
      CastingValuesFailure(types[1..], cells[1..], parseFloat, i - 1);
    }
  }

  /** No column after position `i` has the name of column `i`. */
  predicate LastNamed(types: seq<ColumnMeta>, i: int)
    requires 0 <= i < |types|
  {
    forall j :: i < j < |types| ==> types[j].name != types[i].name
  }

  /**
    The JSON object written for one row: column `i`'s name is assigned value `i`, left to right.
   */
  function RecordOf(types: seq<ColumnMeta>, values: seq<OutValue>): map<string, OutValue>
    requires |values| == |types|
    decreases |types|
  {
    if |types| == 0 then map[]
    else
      var n := |types| - 1;
      RecordOf(types[..n], values[..n])[types[n].name := values[n]]
  }

  /** A row's JSON object has exactly the column names as keys. */
  lemma {:induction false} RecordOfKeys(types: seq<ColumnMeta>, values: seq<OutValue>)
    requires |values| == |types|
    ensures forall k :: k in RecordOf(types, values) <==> exists i :: 0 <= i < |types| && types[i].name == k
    decreases |types|
  {
    if |types| > 0 {
      var n := |types| - 1;
      var tp, vp := types[..n], values[..n];
      RecordOfKeys(tp, vp);
      forall k
        ensures k in RecordOf(types, values) <==> exists i :: 0 <= i < |types| && types[i].name == k
      {
        if k in RecordOf(tp, vp) {
          var i :| 0 <= i < |tp| && tp[i].name == k;
          assert types[i].name == k;
        }
        if exists i :: 0 <= i < |types| && types[i].name == k {
          var i :| 0 <= i < |types| && types[i].name == k;
          if i < n {
            assert tp[i].name == k;
          }
        }
      }
    }
  }

  /**
    In the JSON object of a row that coerces, each column name holds the value read from the
    cell of the last column carrying it.
   */
  lemma RecordOfCells(types: seq<ColumnMeta>, cells: seq<Cell>, parseFloat: string -> Option<Float64>)
    requires |cells| == |types| && CastingValues(types, cells, parseFloat).Success?
    ensures var record := RecordOf(types, CastingValues(types, cells, parseFloat).value);
            forall i | 0 <= i < |types| && LastNamed(types, i) ::
              types[i].name in record && CastCellMeaning(types[i].scanTypeName, cells[i], parseFloat, record[types[i].name])
  {
    var values := CastingValues(types, cells, parseFloat).value;
    forall i | 0 <= i < |types| && LastNamed(types, i)
      ensures types[i].name in RecordOf(types, values)
      ensures CastCellMeaning(types[i].scanTypeName, cells[i], parseFloat, RecordOf(types, values)[types[i].name])
    {
      RecordOfValues(types, values, i);
      CastCellSucceeds(types[i].scanTypeName, cells[i], parseFloat);
    }
  }

  /** Each column name maps to the value of the last column carrying it. */
  lemma {:induction false} RecordOfValues(types: seq<ColumnMeta>, values: seq<OutValue>, i: int)
    requires |values| == |types|
    requires 0 <= i < |types| && LastNamed(types, i)
    ensures types[i].name in RecordOf(types, values)
    ensures RecordOf(types, values)[types[i].name] == values[i]
    decreases |types|
  {
    var n := |types| - 1;
    if i < n {
      var tp, vp := types[..n], values[..n];
      assert tp[i] == types[i] && vp[i] == values[i];
      assert LastNamed(tp, i);
      RecordOfValues(tp, vp, i);
      assert types[n].name != types[i].name;
    }
  }
}
