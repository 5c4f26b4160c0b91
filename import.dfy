/**
 * The record importer of src/import.rs: resolving the path and size columns
 * and turning each record into a `SizedFile`. Records arrive already split
 * into fields; tokenising, quoting and delimiters belong to the CSV reader
 * and are not part of this model.
 */
module Import {
  import opened Wrappers
  import opened FileTree

  /** Why an import fails. The text of the error messages is not modelled. */
  datatype ImportError =
    | MissingColumn(column: string)   // a named column is not in the header
    | MissingFields(line: nat)        // record number `line` has no field at a needed index
    | InvalidSize(field: string)      // the size field is not an unsigned integer

  /** The largest `usize` on a 64-bit target. */
  const USIZE_MAX: nat := 0xFFFF_FFFF_FFFF_FFFF

  // ----- column resolution -----

  /** `iter().position(|f| f == col)`: the first index holding `col`, if any. */
  function Position(headers: seq<string>, col: string): (r: Option<nat>)
    ensures r.None? <==> col !in headers
    ensures r.Some? ==> r.value < |headers| && headers[r.value] == col
    ensures r.Some? ==> forall j :: 0 <= j < r.value ==> headers[j] != col
  {
    if headers == [] then None
    else if headers[0] == col then Some(0)
    else
      match Position(headers[1..], col)
      case None => None
      case Some(i) => Some(i + 1)
  }

  /** `get_col_idx`: the column's first position, or an error naming the missing column. */
  function ColumnIndex(headers: seq<string>, col: string): (r: Result<nat, ImportError>)
    ensures r.Err? <==> col !in headers
    ensures r.Err? ==> r.error == MissingColumn(col)
    ensures r.Ok? ==> Position(headers, col) == Some(r.value)
  {
    match Position(headers, col)
    case None => Err(MissingColumn(col))
    case Some(i) => Ok(i)
  }

  // ----- `str::parse::<usize>` -----

  predicate IsDigit(c: char)
  {
    '0' <= c <= '9'
  }

  predicate AllDigits(s: string)
  {
    forall i :: 0 <= i < |s| ==> IsDigit(s[i])
  }

  /** The number a string of decimal digits denotes, most significant digit first. */
  function DigitsValue(s: string): nat
    requires AllDigits(s)
  {
    if s == [] then 0 else 10 * DigitsValue(s[..|s| - 1]) + (s[|s| - 1] as int - '0' as int)
  }

  /**
   * `usize::from_str`: an optional '+', then one or more ASCII digits whose
   * value fits in a `usize`; anything else (empty, a lone '+', a '-', any
   * other character, overflow) is an error.
   */
  function ParseUsize(s: string): (r: Option<nat>)
    ensures r.Some? ==> r.value <= USIZE_MAX
  {
    var digits := if |s| > 0 && s[0] == '+' then s[1..] else s;
    if digits == [] || !AllDigits(digits) then None
    else
      var v := DigitsValue(digits);
      if v <= USIZE_MAX then Some(v) else None
  }

  /** The canonical decimal spelling of `n`: no sign, no leading zeros. */
  function ToDecimal(n: nat): (s: string)
    ensures |s| > 0 && AllDigits(s)
  {
    if n < 10 then [('0' as int + n) as char]
    else ToDecimal(n / 10) + [('0' as int + n % 10) as char]
  }

  lemma {:induction false} DigitsValueOfDecimal(n: nat)
    ensures DigitsValue(ToDecimal(n)) == n
  {
    if n >= 10 {
      DigitsValueOfDecimal(n / 10);
      var s := ToDecimal(n);
      assert s[..|s| - 1] == ToDecimal(n / 10);
    }
  }

  /** Every `usize` printed in decimal, with or without a '+', parses back to itself. */
  lemma ParseDecimal(n: nat)
    requires n <= USIZE_MAX
    ensures ParseUsize(ToDecimal(n)) == Some(n)
    ensures ParseUsize("+" + ToDecimal(n)) == Some(n)
  {
    DigitsValueOfDecimal(n);
    assert ("+" + ToDecimal(n))[1..] == ToDecimal(n);
  }

  /** A number one past the largest `usize` is rejected as overflow. */
  lemma OverflowRejected()
    ensures ParseUsize(ToDecimal(USIZE_MAX + 1)) == None
  {
    DigitsValueOfDecimal(USIZE_MAX + 1);
  }

  /** A parse succeeds only on an optional '+' followed by digits, and what it yields is their value. */
  lemma ParseUsizeShape(s: string)
    requires ParseUsize(s).Some?
    ensures var digits := if s[0] == '+' then s[1..] else s;
            digits != [] && AllDigits(digits) && ParseUsize(s).value == DigitsValue(digits)
  {
  }

  /**
   * The converse: an optional '+' followed by one or more digits whose value
   * fits parses to that value, leading zeros included.
   */
  lemma ParseUsizeAccepts(sign: string, digits: string)
    requires sign == "" || sign == "+"
    requires digits != [] && AllDigits(digits) && DigitsValue(digits) <= USIZE_MAX
    ensures ParseUsize(sign + digits) == Some(DigitsValue(digits))
  {
    assert IsDigit(digits[0]);
    if sign == "+" {
      assert (sign + digits)[0] == '+' && (sign + digits)[1..] == digits;
    } else {
      assert sign + digits == digits;
    }
  }

  /** Leading zeros are accepted: "007" is 7. */
  lemma LeadingZerosAccepted()
    ensures ParseUsize("007") == Some(7)
  {
    assert DigitsValue("007"[..2]) == 0 by {
      assert "007"[..2] == "00" && "00"[..1] == "0" && "0"[..0] == "";
    }
  }

  /** The empty string, a lone sign and signed negatives never parse. */
  lemma ParseUsizeRejects(s: string)
    ensures ParseUsize("") == None && ParseUsize("+") == None
    ensures ParseUsize("-" + s) == None
  {
    assert !IsDigit(("-" + s)[0]);
  }

  // ----- record to file -----

  /**
   * One record as a `SizedFile`: the path field is looked up first, then the
   * size field, then the size is parsed; the first of these to fail is the error.
   */
  function RowToFile(line: nat, record: seq<string>, pathIdx: nat, sizeIdx: nat): (r: Result<SizedFile, ImportError>)
    ensures r.Ok? <==> pathIdx < |record| && sizeIdx < |record| && ParseUsize(record[sizeIdx]).Some?
    ensures r.Ok? ==> r.value.path == record[pathIdx] && ParseUsize(record[sizeIdx]) == Some(r.value.size)
    ensures r.Err? && (pathIdx >= |record| || sizeIdx >= |record|) ==> r.error == MissingFields(line)
    ensures r.Err? && pathIdx < |record| && sizeIdx < |record| ==> r.error == InvalidSize(record[sizeIdx])
  {
    if pathIdx >= |record| then Err(MissingFields(line))
    else if sizeIdx >= |record| then Err(MissingFields(line))
    else
      match ParseUsize(record[sizeIdx])
      case None => Err(InvalidSize(record[sizeIdx]))
      case Some(n) => Ok(SizedFile(record[pathIdx], n))
  }

  /**
   * The records from number `line` on, mapped with RowToFile and collected
   * into one `Result`: the first error aborts the import.
   */
  function MapRows(rows: seq<seq<string>>, line: nat, pathIdx: nat, sizeIdx: nat): (r: Result<seq<SizedFile>, ImportError>)
    ensures r.Ok? ==> |r.value| == |rows|
    ensures r.Err? ==> rows != [] && !r.error.MissingColumn?
    decreases |rows|
  {
    if rows == [] then Ok([])
    else
      match RowToFile(line, rows[0], pathIdx, sizeIdx)
      case Err(e) => Err(e)
      case Ok(sf) =>
        match MapRows(rows[1..], line + 1, pathIdx, sizeIdx)
        case Err(e) => Err(e)
        case Ok(rest) => Ok([sf] + rest)
  }

  /** The import succeeds exactly when every record converts, and then yields one file per record, in order. */
  lemma {:induction false} MapRowsOk(rows: seq<seq<string>>, line: nat, pathIdx: nat, sizeIdx: nat)
    ensures MapRows(rows, line, pathIdx, sizeIdx).Ok? <==>
              forall i :: 0 <= i < |rows| ==> RowToFile(line + i, rows[i], pathIdx, sizeIdx).Ok?
    ensures MapRows(rows, line, pathIdx, sizeIdx).Ok? ==>
              var files := MapRows(rows, line, pathIdx, sizeIdx).value;
              |files| == |rows| &&
              forall i :: 0 <= i < |rows| ==> Ok(files[i]) == RowToFile(line + i, rows[i], pathIdx, sizeIdx)
    decreases |rows|
  {
    if rows != [] {
      MapRowsOk(rows[1..], line + 1, pathIdx, sizeIdx);
      forall i | 1 <= i < |rows|
        ensures RowToFile(line + i, rows[i], pathIdx, sizeIdx) == RowToFile(line + 1 + (i - 1), rows[1..][i - 1], pathIdx, sizeIdx)
      {
      }
    }
  }

  /** On failure the error is that of the first record that does not convert. */
  lemma {:induction false} MapRowsFirstError(rows: seq<seq<string>>, line: nat, pathIdx: nat, sizeIdx: nat)
    requires MapRows(rows, line, pathIdx, sizeIdx).Err?
    ensures exists i :: 0 <= i < |rows| && FirstFailure(rows, line, pathIdx, sizeIdx, i) &&
              RowToFile(line + i, rows[i], pathIdx, sizeIdx).error == MapRows(rows, line, pathIdx, sizeIdx).error
    decreases |rows|
  {
    if RowToFile(line, rows[0], pathIdx, sizeIdx).Err? {
      assert FirstFailure(rows, line, pathIdx, sizeIdx, 0);
    } else {
      assert MapRows(rows[1..], line + 1, pathIdx, sizeIdx).Err?;
      assert MapRows(rows, line, pathIdx, sizeIdx).error == MapRows(rows[1..], line + 1, pathIdx, sizeIdx).error;
      MapRowsFirstError(rows[1..], line + 1, pathIdx, sizeIdx);
      var i :| 0 <= i < |rows[1..]| && FirstFailure(rows[1..], line + 1, pathIdx, sizeIdx, i) &&
               RowToFile(line + 1 + i, rows[1..][i], pathIdx, sizeIdx).error == MapRows(rows[1..], line + 1, pathIdx, sizeIdx).error;
      FirstFailureShifts(rows, line, pathIdx, sizeIdx, i);
    }
  }

  /** A first failure among the records after a converting one is a first failure of the whole. */
  lemma FirstFailureShifts(rows: seq<seq<string>>, line: nat, pathIdx: nat, sizeIdx: nat, i: nat)
    requires rows != [] && RowToFile(line, rows[0], pathIdx, sizeIdx).Ok?
    requires i < |rows| - 1 && FirstFailure(rows[1..], line + 1, pathIdx, sizeIdx, i)
    ensures FirstFailure(rows, line, pathIdx, sizeIdx, i + 1)
    ensures RowToFile(line + (i + 1), rows[i + 1], pathIdx, sizeIdx) == RowToFile(line + 1 + i, rows[1..][i], pathIdx, sizeIdx)
  {
    forall j | 0 <= j < i + 1
      ensures RowToFile(line + j, rows[j], pathIdx, sizeIdx).Ok?
    {
      if j > 0 {
        assert rows[j] == rows[1..][j - 1] && line + j == line + 1 + (j - 1);
      }
    }
    assert rows[i + 1] == rows[1..][i] && line + (i + 1) == line + 1 + i;
  }

  /** Record `i` is the first that does not convert. */
  predicate FirstFailure(rows: seq<seq<string>>, line: nat, pathIdx: nat, sizeIdx: nat, i: nat)
    requires i < |rows|
  {
    RowToFile(line + i, rows[i], pathIdx, sizeIdx).Err? &&
    forall j :: 0 <= j < i ==> RowToFile(line + j, rows[j], pathIdx, sizeIdx).Ok?
  }

  // ----- read_csv -----

  /**
   * `read_csv` on already-split records. In du mode every record is data,
   * the path is field 1 and the size field 0, and the column names are not
   * consulted. Otherwise the first record is the header (an empty input has
   * an empty header), the path column is resolved before the size column,
   * and the remaining records are data, numbered from 0.
   */
  function ReadCsv(records: seq<seq<string>>, pathColumn: string, sizeColumn: string, isDuOutput: bool)
    : (r: Result<seq<SizedFile>, ImportError>)
    ensures r.Ok? && isDuOutput ==> |r.value| == |records|
    ensures r.Ok? && !isDuOutput ==> records != [] && |r.value| == |records| - 1
    ensures r.Err? && r.error.MissingColumn? ==>
              !isDuOutput && r.error.column in {pathColumn, sizeColumn} && r.error.column !in HeaderOf(records)
  {
    if isDuOutput then MapRows(records, 0, 1, 0)
    else
      var headers := if records == [] then [] else records[0];
      var rows := if records == [] then [] else records[1..];
      match ColumnIndex(headers, pathColumn)
      case Err(e) => Err(e)
      case Ok(pathIdx) =>
        match ColumnIndex(headers, sizeColumn)
        case Err(e) => Err(e)
        case Ok(sizeIdx) => MapRows(rows, 0, pathIdx, sizeIdx)
  }

  /** The header of a non-du input, or an empty one for an empty input. */
  function HeaderOf(records: seq<seq<string>>): seq<string>
  {
    if records == [] then [] else records[0]
  }

  /** A column name absent from the header fails the import with that name; the path column is checked first. */
  lemma MissingColumnFails(records: seq<seq<string>>, pathColumn: string, sizeColumn: string)
    ensures pathColumn !in HeaderOf(records) ==>
              ReadCsv(records, pathColumn, sizeColumn, false) == Err(MissingColumn(pathColumn))
    ensures pathColumn in HeaderOf(records) && sizeColumn !in HeaderOf(records) ==>
              ReadCsv(records, pathColumn, sizeColumn, false) == Err(MissingColumn(sizeColumn))
  {
  }

  /**
   * With both columns present, each data record i becomes the file whose
   * path is its field at the path column's first position; the import
   * succeeds exactly when every data record converts.
   */
  lemma {:induction false} ReadCsvRows(records: seq<seq<string>>, pathColumn: string, sizeColumn: string)
    requires pathColumn in HeaderOf(records) && sizeColumn in HeaderOf(records)
    ensures records != []
    ensures var p := Position(records[0], pathColumn).value;
            var s := Position(records[0], sizeColumn).value;
            ReadCsv(records, pathColumn, sizeColumn, false) == MapRows(records[1..], 0, p, s)
    ensures var r := ReadCsv(records, pathColumn, sizeColumn, false);
            var p := Position(records[0], pathColumn).value;
            r.Ok? ==> |r.value| == |records| - 1 &&
                      forall i :: 1 <= i < |records| ==> p < |records[i]| && r.value[i - 1].path == records[i][p]
  {
    var p := Position(records[0], pathColumn).value;
    var s := Position(records[0], sizeColumn).value;
    MapRowsOk(records[1..], 0, p, s);
    var r := ReadCsv(records, pathColumn, sizeColumn, false);
    if r.Ok? {
      forall i | 1 <= i < |records|
        ensures p < |records[i]| && r.value[i - 1].path == records[i][p]
      {
        assert records[1..][i - 1] == records[i];
      }
    }
  }

  /** du mode ignores the column names: every record is data, path from field 1, size from field 0. */
  lemma DuModeIgnoresColumns(records: seq<seq<string>>, pathColumn: string, sizeColumn: string, otherPath: string, otherSize: string)
    ensures ReadCsv(records, pathColumn, sizeColumn, true) == ReadCsv(records, otherPath, otherSize, true)
    ensures ReadCsv(records, pathColumn, sizeColumn, true) == MapRows(records, 0, 1, 0)
  {
  }

  /**
   * The CSV reader accepts only records as long as the header. On such input
   * a resolved column always has a field, so the only possible row error is
   * an invalid size.
   */
  lemma {:induction false} UniformRecordsHaveAllFields(records: seq<seq<string>>, pathColumn: string, sizeColumn: string)
    requires forall i :: 0 <= i < |records| ==> |records[i]| == |HeaderOf(records)|
    requires ReadCsv(records, pathColumn, sizeColumn, false).Err?
    ensures !ReadCsv(records, pathColumn, sizeColumn, false).error.MissingFields?
  {
    if pathColumn in HeaderOf(records) && sizeColumn in HeaderOf(records) {
      var p := Position(records[0], pathColumn).value;
      var s := Position(records[0], sizeColumn).value;
      var rows := records[1..];
      MapRowsFirstError(rows, 0, p, s);
      var i :| 0 <= i < |rows| && FirstFailure(rows, 0, p, s, i) &&
               RowToFile(0 + i, rows[i], p, s).error == MapRows(rows, 0, p, s).error;
      assert |rows[i]| == |records[0]| by {
        assert rows[i] == records[i + 1];
      }
    }
  }

  /** A line of `du` output, size then path, becomes that file. */
  lemma DuExample()
    ensures ReadCsv([["100", "some/path"]], "", "", true) == Ok([SizedFile("some/path", 100)])
  {
    assert ToDecimal(100) == "100" by {
      assert ToDecimal(10) == "10";
    }
    ParseDecimal(100);
    var record := ["100", "some/path"];
    assert RowToFile(0, record, 1, 0) == Ok(SizedFile("some/path", 100));
    assert [record][1..] == [];
    var sf := SizedFile("some/path", 100);
    assert MapRows([record], 0, 1, 0) == Ok([sf] + []);
    assert [sf] + [] == [sf];
    assert ReadCsv([record], "", "", true) == MapRows([record], 0, 1, 0);
  }
}
