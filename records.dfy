/**
 * The row loop of `fetch_data` (tubes.py lines 25-53): the header row is skipped, rows
 * with fewer than three cells are ignored, and every other row becomes a record of the
 * stripped store name, the stripped address and the city derived from that address.
 */
module Records {
  import opened Text
  import opened City

  /** One row of the dataset: the columns "Nama Toko", "Alamat" and "Kota". */
  datatype Record = Record(name: string, address: string, city: string)

  /**
   * What the HTTP request and the HTML parser deliver: the cell texts of every row of the
   * table body, header row included, or the text of the exception that was raised.
   */
  datatype FetchOutcome = Fetched(rows: seq<seq<string>>) | Failed(message: string)

  /** Store name of the row that reports a failed fetch. */
  const ErrorName: string := "Error Koneksi"

  /** City of the row that reports a failed fetch. */
  const ErrorCity: string := "N/A"

  /** The record a row of at least three cells yields. */
  function RowRecord(cells: seq<string>): (r: Record)
    requires |cells| >= 3
  {
    var location := Trim(cells[2]);
    Record(Trim(cells[1]), location, CityOf(location))
  }

  /** `rows[1:]`: everything after the header row. */
  function Body(rows: seq<seq<string>>): (body: seq<seq<string>>)
  {
    if rows == [] then [] else rows[1..]
  }

  /** The records of the rows of `body`, in order; rows with fewer than three cells yield none. */
  function Extract(body: seq<seq<string>>): (data: seq<Record>)
    ensures |data| <= |body|
    decreases |body|
  {
    if body == [] then []
    else
      var last := body[|body| - 1];
      Extract(body[..|body| - 1]) + (if |last| >= 3 then [RowRecord(last)] else [])
  }

  /** Positions in `body` of the rows that have at least three cells, in increasing order. */
  function Selected(body: seq<seq<string>>): (idx: seq<nat>)
    ensures forall k :: 0 <= k < |idx| ==> idx[k] < |body| && |body[idx[k]]| >= 3
    ensures forall k, l :: 0 <= k < l < |idx| ==> idx[k] < idx[l]
    ensures forall i {:trigger i in idx} :: 0 <= i < |body| && |body[i]| >= 3 ==> i in idx
    decreases |body|
  {
    if body == [] then []
    else
      var n := |body| - 1;
      var before := Selected(body[..n]);
      assert forall i :: 0 <= i < n ==> body[..n][i] == body[i];
      before + (if |body[n]| >= 3 then [n] else [])
  }

  /** No row of three cells or more, no position selected. */
  lemma {:induction false} SelectedNone(body: seq<seq<string>>)
    requires forall j :: 0 <= j < |body| ==> |body[j]| < 3
    ensures Selected(body) == []
    decreases |body|
  {
    if body != [] {
      var n := |body| - 1;
      assert forall j :: 0 <= j < n ==> body[..n][j] == body[j];
      SelectedNone(body[..n]);
    }
  }

  /** Record `k` comes from the `k`-th row of at least three cells. */
  lemma {:induction false} ExtractProvenance(body: seq<seq<string>>)
    ensures |Extract(body)| == |Selected(body)|
    ensures forall k :: 0 <= k < |Extract(body)| ==> Extract(body)[k] == RowRecord(body[Selected(body)[k]])
    decreases |body|
  {
    if body != [] {
      var n := |body| - 1;
      ExtractProvenance(body[..n]);
      forall k | 0 <= k < |Extract(body[..n])|
        ensures Extract(body)[k] == RowRecord(body[Selected(body)[k]])
      {
        assert body[..n][Selected(body[..n])[k]] == body[Selected(body)[k]];
      }
    }
  }

  /** Extending the rows by one extends the records by that row's record, if it has one. */
  lemma ExtractStep(rows: seq<seq<string>>, i: nat)
    requires i < |rows|
    ensures Extract(rows[..i + 1]) == Extract(rows[..i]) + (if |rows[i]| >= 3 then [RowRecord(rows[i])] else [])
  {
    assert rows[..i + 1][..i] == rows[..i];
  }

  /** The dataset `fetch_data` returns for a fetch outcome. */
  function Dataset(outcome: FetchOutcome): (data: seq<Record>)
  {
    match outcome
    case Fetched(rows) => Extract(Body(rows))
    case Failed(message) => [Record(ErrorName, message, ErrorCity)]
  }

  /**
   * `fetch_data` from the point where the table rows are known: a failed fetch gives the
   * single error row, otherwise the rows after the header go through the row loop.
   */
  method FetchData(outcome: FetchOutcome) returns (data: seq<Record>)
    ensures data == Dataset(outcome)
  {
    match outcome {
      case Failed(message) =>
        data := [Record(ErrorName, message, ErrorCity)];
      case Fetched(table) =>
        var rows := Body(table);
        data := CollectRecords(rows);
    }
  }

  /** The `for row in rows` loop: one appended record per row of at least three cells. */
  method CollectRecords(rows: seq<seq<string>>) returns (data: seq<Record>)
    ensures data == Extract(rows)
  {
    data := [];
    for i := 0 to |rows|
      invariant data == Extract(rows[..i])
    {
      var tds := rows[i];
      ExtractStep(rows, i);
      if |tds| >= 3 {
        var name := Trim(tds[1]);
        var location := Trim(tds[2]);
        var parts := Segments(location);
        var city := parts[PickIndex(|parts|)];
        city := Trim(StripDigitTail(city));
        city := Normalize(city);
        assert city == CityOf(location);
        data := data + [Record(name, location, city)];
      }
    }
    assert rows[..|rows|] == rows;
  }

  /** At most one record per row after the header. */
  lemma TableLength(rows: seq<seq<string>>)
    ensures |Extract(Body(rows))| <= if rows == [] then 0 else |rows| - 1
  {
  }

  /**
   * Record `k` is built from the `k`-th row after the header that has three cells or
   * more; `Selected` lists those rows in increasing order, so records keep the row order.
   */
  lemma RecordSource(rows: seq<seq<string>>, k: nat)
    requires k < |Extract(Body(rows))|
    ensures var idx := Selected(Body(rows));
      && k < |idx| && 1 <= idx[k] + 1 < |rows|
      && Extract(Body(rows))[k] == RowRecord(rows[idx[k] + 1])
  {
    var body, idx := Body(rows), Selected(Body(rows));
    ExtractProvenance(body);
    var cells := body[idx[k]];
    assert Extract(body)[k] == RowRecord(cells);
    assert cells == rows[idx[k] + 1];
  }

  /** The name and address of record `k` are the stripped second and third cells of its row. */
  lemma RecordFields(rows: seq<seq<string>>, k: nat)
    requires k < |Extract(Body(rows))|
    ensures var data, idx := Extract(Body(rows)), Selected(Body(rows));
      && k < |idx| && 1 <= idx[k] + 1 < |rows| && |rows[idx[k] + 1]| >= 3
      && data[k].name == Trim(rows[idx[k] + 1][1])
      && data[k].address == Trim(rows[idx[k] + 1][2])
  {
    RecordSource(rows, k);
  }

  /** The header row never contributes: replacing it changes nothing. */
  lemma HeaderIgnored(rows: seq<seq<string>>, header: seq<string>)
    requires rows != []
    ensures Dataset(Fetched(rows[0 := header])) == Dataset(Fetched(rows))
  {
    assert rows[0 := header][1..] == rows[1..];
  }

  /** Every extracted record carries the city derived from its own address. */
  lemma {:induction false} ExtractCities(body: seq<seq<string>>)
    ensures forall r :: r in Extract(body) ==> r.city == CityOf(r.address)
    decreases |body|
  {
    if body != [] {
      ExtractCities(body[..|body| - 1]);
    }
  }
}
