/**
 * Turning tokenised CSV rows into `Holiday` records (`FetchDataService.mapToHoliday`
 * and the record loop of `parseCsvFile`).
 */
module CsvMapping {
  import opened Base
  import opened Holidays

  /**
   * One tokenised data row as the CSV library hands it over: lower-cased header name
   * to trimmed cell text.  The header row itself is not a data row.
   */
  type Row = map<string, string>

  /** `CSVRecord.get` on a column the row does not have throws IllegalArgumentException. */
  datatype CsvError = MissingColumn(column: string)

  /** The cell text that marks a day off. */
  const YesString: string := "是"

  /** The columns `mapToHoliday` reads, in the order it reads them. */
  const Columns: seq<string> := ["date", "year", "name", "isholiday", "holidaycategory", "description"]

  /** Whether the row has every column `mapToHoliday` reads. */
  predicate HasColumns(row: Row) {
    && "date" in row && "year" in row && "name" in row
    && "isholiday" in row && "holidaycategory" in row && "description" in row
  }

  /**
   * `mapToHoliday`: the five text columns are copied unchanged, `isholiday` becomes true
   * exactly for the cell "是", and the note stays null.  The first column (in read order)
   * that is missing aborts the mapping.
   */
  function MapToHoliday(row: Row): (r: Result<Holiday, CsvError>)
    ensures r.Ok? <==> HasColumns(row)
    ensures r.Ok? ==>
      && r.value.date == Some(row["date"])
      && r.value.year == Some(row["year"])
      && r.value.name == Some(row["name"])
      && (r.value.isHoliday <==> row["isholiday"] == YesString)
      && r.value.holidayCategory == Some(row["holidaycategory"])
      && r.value.description == Some(row["description"])
      && r.value.note == None
    ensures r.Err? ==>
      exists k :: 0 <= k < |Columns| && r.error == MissingColumn(Columns[k]) && Columns[k] !in row
        && forall j :: 0 <= j < k ==> Columns[j] in row
  {
    assert Columns[0] == "date" && Columns[1] == "year" && Columns[2] == "name";
    assert Columns[3] == "isholiday" && Columns[4] == "holidaycategory" && Columns[5] == "description";
    if "date" !in row then Err(MissingColumn("date"))
    else if "year" !in row then Err(MissingColumn("year"))
    else if "name" !in row then Err(MissingColumn("name"))
    else if "isholiday" !in row then Err(MissingColumn("isholiday"))
    else if "holidaycategory" !in row then Err(MissingColumn("holidaycategory"))
    else if "description" !in row then Err(MissingColumn("description"))
    else
      Ok(Holiday(
        date := Some(row["date"]),
        year := Some(row["year"]),
        name := Some(row["name"]),
        isHoliday := YesString == row["isholiday"],
        holidayCategory := Some(row["holidaycategory"]),
        description := Some(row["description"]),
        note := None))
  }

  /** Whether every row maps to a record. */
  predicate AllRowsMap(rows: seq<Row>) {
    forall i :: 0 <= i < |rows| ==> MapToHoliday(rows[i]).Ok?
  }

  /** The records of a whole file: the rows mapped in order, stopping at the first failure. */
  function MapRows(rows: seq<Row>): Result<seq<Holiday>, CsvError>
    decreases |rows|
  {
    if rows == [] then Ok([])
    else
      match MapToHoliday(rows[0])
      case Err(e) => Err(e)
      case Ok(h) =>
        match MapRows(rows[1..])
        case Err(e) => Err(e)
        case Ok(hs) => Ok([h] + hs)
  }

  /**
   * What `MapRows` yields: one record per data row, in row order, when every row maps;
   * otherwise the error of the first row that cannot be mapped.
   */
  lemma {:induction false} MapRowsSpec(rows: seq<Row>)
    ensures MapRows(rows).Ok? <==> AllRowsMap(rows)
    ensures MapRows(rows).Ok? ==> |MapRows(rows).value| == |rows|
    ensures MapRows(rows).Ok? ==> forall i :: 0 <= i < |rows| ==> MapRows(rows).value[i] == MapToHoliday(rows[i]).value
    ensures MapRows(rows).Err? ==>
      exists k :: 0 <= k < |rows| && MapToHoliday(rows[k]) == Err(MapRows(rows).error)
        && forall j :: 0 <= j < k ==> MapToHoliday(rows[j]).Ok?
    decreases |rows|
  {
    if rows != [] {
      MapRowsSpec(rows[1..]);
      assert forall i :: 1 <= i < |rows| ==> rows[i] == rows[1..][i - 1];
      if MapToHoliday(rows[0]).Ok? && MapRows(rows[1..]).Err? {
        var k :| 0 <= k < |rows[1..]| && MapToHoliday(rows[1..][k]) == Err(MapRows(rows[1..]).error)
          && forall j :: 0 <= j < k ==> MapToHoliday(rows[1..][j]).Ok?;
        assert MapToHoliday(rows[k + 1]) == Err(MapRows(rows).error);
      }
    }
  }

  /**
   * The record loop of `parseCsvFile`: each data row is mapped and appended, in order;
   * the first row that cannot be mapped stops the loop with its error.
   */
  method ParseRecords(rows: seq<Row>) returns (r: Result<seq<Holiday>, CsvError>)
    ensures r == MapRows(rows)
    ensures r.Ok? ==> |r.value| == |rows|
    ensures r.Err? ==> exists k :: 0 <= k < |rows| && MapToHoliday(rows[k]) == Err(r.error)
  {
    var holidays: seq<Holiday> := [];
    var i := 0;
    while i < |rows|
      invariant 0 <= i <= |rows|
      invariant |holidays| == i
      invariant forall k :: 0 <= k < i ==> MapToHoliday(rows[k]).Ok? && holidays[k] == MapToHoliday(rows[k]).value
    {
      var h := MapToHoliday(rows[i]);
      if h.Err? {
        FirstErrorIsUnique(rows, i);
        return Err(h.error);
      }
      holidays := holidays + [h.value];
      i := i + 1;
    }
    MapRowsSpec(rows);
    assert holidays == MapRows(rows).value;
    r := Ok(holidays);
  }

  /** If row `k` is the first row that fails, `MapRows` reports its error. */
  lemma FirstErrorIsUnique(rows: seq<Row>, k: nat)
    requires k < |rows| && MapToHoliday(rows[k]).Err?
    requires forall j :: 0 <= j < k ==> MapToHoliday(rows[j]).Ok?
    ensures MapRows(rows) == Err(MapToHoliday(rows[k]).error)
  {
    MapRowsSpec(rows);
    var r := MapRows(rows);
    var k' :| 0 <= k' < |rows| && MapToHoliday(rows[k']) == Err(r.error)
        && forall j :: 0 <= j < k' ==> MapToHoliday(rows[j]).Ok?;
    assert k' == k;
  }
}
