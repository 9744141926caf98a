/**
 * The sheet building of `downloadExcel`: one sheet per export bucket, named
 * after the activity, holding a header row and one row per bucket record.
 * Turning the sheets into a workbook file is the spreadsheet library's work
 * and is not part of this model.
 */
module Export {
  import opened Wrappers
  import opened DurationCodec
  import opened Aggregator

  /** The array of rows handed to `aoa_to_sheet`, with the name the sheet is appended under. */
  datatype Sheet = Sheet(name: string, cells: seq<seq<string>>)

  const Header: seq<string> := ["Agent Login", "Activity", "Duration"]

  /** `[agent.login, agent.activity, agent.duration]`: the record's original texts. */
  function RecordCells(agent: Row): seq<string> {
    [agent.login, agent.activity, agent.duration]
  }

  /** The sheet of one bucket: the header, then one triple per record in bucket order. */
  function SheetOf(activity: string, bucket: seq<Row>): Sheet {
    Sheet(activity, [Header] + seq(|bucket|, j requires 0 <= j < |bucket| => RecordCells(bucket[j])))
  }

  /** The sheets for a dictionary whose keys, in enumeration order, are `keys`. */
  function Workbook(keys: seq<string>, data: map<string, seq<Row>>): seq<Sheet>
    requires forall a :: a in keys ==> a in data
  {
    seq(|keys|, k requires 0 <= k < |keys| => SheetOf(keys[k], data[keys[k]]))
  }

  /** `downloadExcel`, up to the library calls: the two loops that fill `ws_data` for each activity. */
  method DownloadExcel(keys: seq<string>, data: map<string, seq<Row>>) returns (sheets: seq<Sheet>)
    requires forall a :: a in keys ==> a in data
    ensures sheets == Workbook(keys, data)
  {
    sheets := [];
    for k := 0 to |keys|
      invariant |sheets| == k
      invariant forall t :: 0 <= t < k ==> sheets[t] == SheetOf(keys[t], data[keys[t]])
    {
      var activity := keys[k];
      var bucket := data[activity];
      var wsData := [Header];
      for j := 0 to |bucket|
        invariant |wsData| == j + 1 && wsData[0] == Header
        invariant forall m :: 0 <= m < j ==> wsData[m + 1] == RecordCells(bucket[m])
      {
        wsData := wsData + [RecordCells(bucket[j])];
      }
      assert wsData == SheetOf(activity, bucket).cells;
      sheets := sheets + [Sheet(activity, wsData)];
    }
  }

  lemma RecordCellsInjective(x: Row, y: Row)
    requires RecordCells(x) == RecordCells(y)
    ensures x == y
  {
    assert RecordCells(x)[0] == x.login && RecordCells(x)[1] == x.activity && RecordCells(x)[2] == x.duration;
  }

  /**
   * One sheet per activity seen, each name once: the sheet names are exactly
   * the activities of the table.
   */
  lemma OneSheetPerActivity(decode: Decoder, rows: seq<Row>, a: string)
    ensures var agg := Aggregate(decode, rows);
      var sheets := Workbook(agg.keys, agg.data);
      && (a in agg.data <==> exists k :: 0 <= k < |sheets| && sheets[k].name == a)
      && (forall k, l :: 0 <= k < l < |sheets| ==> sheets[k].name != sheets[l].name)
  {
    var agg := Aggregate(decode, rows);
    forall k, l | 0 <= k < l < |agg.keys| ensures agg.keys[k] != agg.keys[l] {
      KeysAreDistinct(decode, rows, k, l);
    }
    if a in agg.data {
      var k :| 0 <= k < |agg.keys| && agg.keys[k] == a;
      assert Workbook(agg.keys, agg.data)[k].name == a;
    }
  }

  /**
   * The data rows of the sheet named after an activity hold exactly the
   * triples of the table's rows with that activity that pass the selection
   * rule; a short "Available" row appears in no sheet.
   */
  lemma ExportedRows(decode: Decoder, rows: seq<Row>, k: nat, x: Row)
    requires k < |Aggregate(decode, rows).keys|
    ensures var agg := Aggregate(decode, rows);
      var sheet := Workbook(agg.keys, agg.data)[k];
      sheet.cells[0] == Header &&
      (RecordCells(x) in sheet.cells[1..] <==> x in rows && x.activity == sheet.name && IsExported(decode, x))
  {
    var agg := Aggregate(decode, rows);
    var a := agg.keys[k];
    var bucket := agg.data[a];
    var sheet := Workbook(agg.keys, agg.data)[k];
    assert sheet == SheetOf(a, bucket);
    BucketMembership(decode, rows, a, x);
    var records := sheet.cells[1..];
    assert |records| == |bucket|;
    if RecordCells(x) in records {
      var j :| 0 <= j < |records| && records[j] == RecordCells(x);
      RecordCellsInjective(x, bucket[j]);
    }
    if x in bucket {
      var j :| 0 <= j < |bucket| && bucket[j] == x;
      assert records[j] == RecordCells(x);
    }
  }

  /** The three rows of the worked example: long "Available", short "Available", "On Break". */
  const ExampleRows: seq<Row> :=
    [Row("A", "Available", "00:05:10"), Row("B", "Available", "00:01:40"), Row("C", "On Break", "00:01:00")]

  /** The shape of the worked example: two "Available" rows followed by an "On Break" row. */
  predicate ExampleShape(rows: seq<Row>)
  {
    |rows| == 3 && rows[0].activity == Available && rows[1].activity == Available && rows[2].activity == "On Break"
  }

  lemma ExampleKeys(decode: Decoder, rows: seq<Row>)
    requires ExampleShape(rows)
    ensures Aggregate(decode, rows).keys == [Available, "On Break"]
  {
    assert rows == [] + [rows[0]] + [rows[1]] + [rows[2]];
    KeysSnoc(decode, [], rows[0]);
    KeysSnoc(decode, [] + [rows[0]], rows[1]);
    KeysSnoc(decode, [] + [rows[0]] + [rows[1]], rows[2]);
  }

  lemma ExampleSheetsWith(decode: Decoder, rows: seq<Row>, x: Row)
    requires ExampleShape(rows)
    requires IsExported(decode, rows[0]) && !IsExported(decode, rows[1]) && IsExported(decode, rows[2])
    ensures var agg := Aggregate(decode, rows);
      var sheets := Workbook(agg.keys, agg.data);
      && |sheets| == 2 && sheets[0].name == Available && sheets[1].name == "On Break"
      && (RecordCells(x) in sheets[0].cells[1..] <==> x == rows[0])
      && (RecordCells(x) in sheets[1].cells[1..] <==> x == rows[2])
  {
    ExampleKeys(decode, rows);
    assert x in rows <==> x == rows[0] || x == rows[1] || x == rows[2];
    ExportedRows(decode, rows, 0, x);
    ExportedRows(decode, rows, 1, x);
  }

  /**
   * The worked example: A (5 min 10 s "Available") is the only record of the
   * "Available" sheet, C the only one of the "On Break" sheet, and B
   * (1 min 40 s "Available") is in no sheet.
   */
  lemma ExampleSheets(x: Row)
    ensures var agg := Aggregate(DurationToSeconds, ExampleRows);
      var sheets := Workbook(agg.keys, agg.data);
      && |sheets| == 2 && sheets[0].name == "Available" && sheets[1].name == "On Break"
      && (RecordCells(x) in sheets[0].cells[1..] <==> x == ExampleRows[0])
      && (RecordCells(x) in sheets[1].cells[1..] <==> x == ExampleRows[2])
  {
    DecodeUnderTenMinutes(5, 10);
    DecodeUnderTenMinutes(1, 40);
    DecodeUnderTenMinutes(1, 0);
    ExampleSheetsWith(DurationToSeconds, ExampleRows, x);
  }
}
