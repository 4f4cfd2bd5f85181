/** The row pipeline of `readExcelData`: the first sheet read as raw arrays of cells
    (one array per row), the header row dropped, rows with fewer than two cells or a
    falsy first or second cell dropped, and each remaining row turned into a record.
    Reading the workbook is a parameter: the rows, or the error it raised. */
module ExcelReader {
  import opened Wrappers
  import opened Text
  import opened JsValues
  import opened TestData

  type Row = seq<Value>

  /** The filter: at least two cells, and both of the first two truthy. */
  predicate KeepRow(row: Row) {
    |row| >= 2 && Truthy(row[0]) && Truthy(row[1])
  }

  /** The map: `{ id: Number(row[0]), name: String(row[1]).trim() }`. */
  function ToRecord(row: Row): PokemonData
    requires |row| >= 2
  {
    PokemonData(ToNumber(row[0]), Trim(ToString(row[1])))
  }

  /** `rows.filter(KeepRow)`: the kept rows, in their order. */
  function KeepRows(rows: seq<Row>): (r: seq<Row>)
    ensures |r| <= |rows|
    ensures forall k :: 0 <= k < |r| ==> KeepRow(r[k])
    ensures forall k :: 0 <= k < |r| ==> r[k] in rows
  {
    if rows == [] then []
    else (if KeepRow(rows[0]) then [rows[0]] else []) + KeepRows(rows[1..])
  }

  /** `rows.map(ToRecord)`. */
  function ToRecords(rows: seq<Row>): (r: seq<PokemonData>)
    requires forall k :: 0 <= k < |rows| ==> |rows[k]| >= 2
    ensures |r| == |rows|
    ensures forall k :: 0 <= k < |rows| ==> r[k] == ToRecord(rows[k])
  {
    seq(|rows|, k requires 0 <= k < |rows| => ToRecord(rows[k]))
  }

  /** The filter followed by the map. */
  function Process(rows: seq<Row>): seq<PokemonData> {
    ToRecords(KeepRows(rows))
  }

  /** `data.slice(1)`: everything but the first row; nothing when there is no row. */
  function Body(data: seq<Row>): seq<Row> {
    if data == [] then [] else data[1..]
  }

  /** The records `readExcelData` returns for the rows of the sheet. */
  function Records(data: seq<Row>): seq<PokemonData> {
    Process(Body(data))
  }

  /** `readExcelData`: the records, or the read error rethrown with its prefix. */
  function ReadExcelData(sheet: Result<seq<Row>>): (r: Result<seq<PokemonData>>)
    ensures r.Failure? <==> sheet.Failure?
    ensures sheet.Failure? ==> r.error == "Failed to read Excel file: " + sheet.error
    ensures sheet.Success? ==> r.value == Records(sheet.value)
  {
    match sheet
    case Failure(cause) => Failure("Failed to read Excel file: " + cause)
    case Success(data) => Success(Records(data))
  }

  // ---------------------------------------------------------------------------
  // The pipeline row by row

  /** One row gives its record when it passes the filter, and nothing otherwise. */
  lemma ProcessSingle(row: Row)
    ensures Process([row]) == if KeepRow(row) then [ToRecord(row)] else []
  {
    assert [row][1..] == [];
    var kept := KeepRows([row]);
    assert kept == (if KeepRow(row) then [row] else []) + KeepRows([]);
    if KeepRow(row) {
      assert kept == [row];
      assert |Process([row])| == 1 && Process([row])[0] == ToRecord(row);
    } else {
      assert |Process([row])| == 0;
    }
  }

  /** The pipeline works row by row and keeps the order: the records of two blocks of
      rows are the records of the first block followed by those of the second. */
  lemma ProcessAppend(a: seq<Row>, b: seq<Row>)
    ensures Process(a + b) == Process(a) + Process(b)
  {
    KeepRowsAppend(a, b);
    ToRecordsAppend(KeepRows(a), KeepRows(b));
  }

  lemma ToRecordsAppend(x: seq<Row>, y: seq<Row>)
    requires forall k :: 0 <= k < |x| ==> |x[k]| >= 2
    requires forall k :: 0 <= k < |y| ==> |y[k]| >= 2
    ensures ToRecords(x + y) == ToRecords(x) + ToRecords(y)
  {
    var l, r := ToRecords(x + y), ToRecords(x) + ToRecords(y);
    assert |l| == |r|;
    forall k | 0 <= k < |l| ensures l[k] == r[k] {
      if k < |x| {
        assert (x + y)[k] == x[k];
      } else {
        assert (x + y)[k] == y[k - |x|];
      }
    }
  }

  lemma {:induction false} KeepRowsAppend(a: seq<Row>, b: seq<Row>)
    ensures KeepRows(a + b) == KeepRows(a) + KeepRows(b)
  {
    if a != [] {
      assert (a + b)[1..] == a[1..] + b;
      KeepRowsAppend(a[1..], b);
    } else {
      assert a + b == b;
    }
  }

  /** Each record is the record of a kept row. */
  lemma RecordsFromKeptRows(rows: seq<Row>)
    ensures forall rec :: rec in Process(rows) ==>
      exists row :: row in rows && KeepRow(row) && rec == ToRecord(row)
  {
    var kept := KeepRows(rows);
    forall rec | rec in Process(rows)
      ensures exists row :: row in rows && KeepRow(row) && rec == ToRecord(row)
    {
      var k :| 0 <= k < |Process(rows)| && Process(rows)[k] == rec;
      assert kept[k] in rows && KeepRow(kept[k]) && rec == ToRecord(kept[k]);
    }
  }

  /** Each kept row gives a record. */
  lemma {:induction false} KeptRowsGiveRecords(rows: seq<Row>)
    ensures forall i :: 0 <= i < |rows| && KeepRow(rows[i]) ==> ToRecord(rows[i]) in Process(rows)
  {
    if rows != [] {
      var tail := rows[1..];
      KeptRowsGiveRecords(tail);
      assert rows == [rows[0]] + tail;
      ProcessAppend([rows[0]], tail);
      ProcessSingle(rows[0]);
      forall i | 0 <= i < |rows| && KeepRow(rows[i]) ensures ToRecord(rows[i]) in Process(rows) {
        if i > 0 {
          assert rows[i] == tail[i - 1];
        }
      }
    }
  }

  // ---------------------------------------------------------------------------
  // Properties of readExcelData

  /** There is at most one record per row after the header. */
  lemma RecordsLength(data: seq<Row>)
    ensures |Records(data)| <= if data == [] then 0 else |data| - 1
  {
  }

  /** The first row is discarded whatever it holds, and the rest are processed row by
      row: a record for each kept row, in order. */
  lemma RecordsOfRows(header: Row, rows: seq<Row>)
    ensures Records([header] + rows) == Process(rows)
    ensures forall rec :: rec in Records([header] + rows) ==>
      exists row :: row in rows && KeepRow(row) && rec == ToRecord(row)
    ensures forall i :: 0 <= i < |rows| && KeepRow(rows[i]) ==> ToRecord(rows[i]) in Records([header] + rows)
  {
    assert ([header] + rows)[1..] == rows;
    RecordsFromKeptRows(rows);
    KeptRowsGiveRecords(rows);
  }

  /** Appending a row to the sheet appends its record when it passes the filter. */
  lemma RecordsAppendRow(data: seq<Row>, row: Row)
    requires data != []
    ensures Records(data + [row]) == Records(data) + (if KeepRow(row) then [ToRecord(row)] else [])
  {
    assert (data + [row])[1..] == data[1..] + [row];
    ProcessAppend(data[1..], [row]);
    ProcessSingle(row);
  }

  /** A falsy id or name drops the row: an id of 0, an empty cell, `null` or a missing
      cell. */
  lemma FalsyCellDropsRow(row: Row)
    requires |row| < 2 || !Truthy(row[0]) || !Truthy(row[1])
    ensures Process([row]) == []
  {
    ProcessSingle(row);
  }

  /** The filter looks at the cells before trimming, so a name cell of white space only
      is kept and gives an empty name. */
  lemma BlankNameKept(id: int, name: string)
    requires id != 0 && name != "" && forall k :: 0 <= k < |name| ==> IsSpace(name[k])
    ensures Process([[Num(id), Str(name)]]) == [PokemonData(Int(id), "")]
  {
    var row := [Num(id), Str(name)];
    ProcessSingle(row);
    var a, b := TrimIsSlice(name);
  }

  /** Likewise an id cell of white space only is kept, and `Number` reads it as 0: the
      row gives a record with id 0, which a cell holding the number 0 would not. */
  lemma BlankIdKept(id: string, name: string)
    requires id != "" && forall k :: 0 <= k < |id| ==> IsSpace(id[k])
    requires name != "" && !IsSpace(name[0]) && !IsSpace(name[|name| - 1])
    ensures Process([[Str(id), Str(name)]]) == [PokemonData(Int(0), name)]
    ensures Process([[Num(0), Str(name)]]) == []
  {
    ProcessSingle([Str(id), Str(name)]);
    ProcessSingle([Num(0), Str(name)]);
    var a, b := TrimIsSlice(id);
    TrimOfTrimmed(name);
  }

  /** A row of a non-zero id and a name without surrounding white space gives exactly
      that id and name. */
  lemma NamedRow(id: int, name: string)
    requires id != 0 && name != "" && !IsSpace(name[0]) && !IsSpace(name[|name| - 1])
    ensures Process([[Num(id), Str(name)]]) == [PokemonData(Int(id), name)]
  {
    ProcessSingle([Num(id), Str(name)]);
    TrimOfTrimmed(name);
  }

  /** Cells after the second change neither the filter nor the record. */
  lemma ExtraCellsIgnored(row: Row, extra: seq<Value>)
    requires |row| >= 2
    ensures KeepRow(row + extra) == KeepRow(row)
    ensures ToRecord(row + extra) == ToRecord(row)
  {
  }

  /** A sheet of a header and three rows, the second without an id. */
  lemma ThreeRowSheet(header: Row)
    ensures Records([header, [Num(1), Str("Bulbasaur")], [Str(""), Str("Ivysaur")], [Num(3), Str("Venusaur")]])
      == [PokemonData(Int(1), "Bulbasaur"), PokemonData(Int(3), "Venusaur")]
  {
    var r1, r2, r3 := [Num(1), Str("Bulbasaur")], [Str(""), Str("Ivysaur")], [Num(3), Str("Venusaur")];
    var p1, p3 := PokemonData(Int(1), "Bulbasaur"), PokemonData(Int(3), "Venusaur");
    NamedRow(1, "Bulbasaur");
    FalsyCellDropsRow(r2);
    NamedRow(3, "Venusaur");
    ProcessAppend([r1], [r2]);
    ProcessAppend([r1] + [r2], [r3]);
    assert Process([r1] + [r2] + [r3]) == [p1, p3];
    assert [header, r1, r2, r3][1..] == [r1] + [r2] + [r3];
  }
}
