/**
 Bulk creation from an uploaded CSV file (`addHotelFromCsv`). The file itself
 is read by csv-parser; here it is the sequence of its data rows, each column
 a string as the parser yields it.

 Two versions are modelled. `AddHotelFromCsv` is the intended behaviour: a
 row that fails validation, or an empty file, aborts the import and nothing is
 saved. `AddHotelFromCsvAsWritten` follows the stream callbacks as written: a
 rejection does not stop the stream, and the end handler saves every row it
 collected even after the caller has been handed the error.
 */
module CsvImport {
  import opened HotelTypes
  import opened Repository
  import opened HotelsService

  /** One data row; a column the file leaves blank is the empty string. */
  datatype CsvRow = CsvRow(
    name: string, address: string, city: string, country: string,
    email: string, isOpen: string, longitude: string, latitude: string)

  /** The parts joined with `sep` between neighbours. */
  function Join(parts: seq<string>, sep: string): string
    decreases |parts|
  {
    if |parts| == 0 then ""
    else if |parts| == 1 then parts[0]
    else parts[0] + sep + Join(parts[1..], sep)
  }

  /**
   The per-row mapping of the `data` handler. The new entity has no web link,
   and its status is 1 when `is_open` is truthy (a non-empty string) and 0
   otherwise.
   */
  function MapRow(row: CsvRow): (d: CreateHotelDto)
    ensures Complete(d)
    ensures d.webLink == None
    ensures d.name == Some(row.name) && d.email == Some(row.email)
    ensures d.status == Some(1) <==> |row.isOpen| > 0
    ensures d.status == Some(0) <==> |row.isOpen| == 0
  {
    CreateHotelDto(
      Some(row.name),
      None,
      Some(row.address + ", " + row.city + ", " + row.country),
      Some(row.email),
      Some(if |row.isOpen| > 0 then 1 else 0),
      Some(row.longitude + "," + row.latitude))
  }

  /**
   The mapped address is the address, city and country joined by ", ", and
   the mapped coordinate is the longitude and latitude joined by ",".
   */
  lemma MapRowJoins(row: CsvRow)
    ensures MapRow(row).address == Some(Join([row.address, row.city, row.country], ", "))
    ensures MapRow(row).coordinate == Some(Join([row.longitude, row.latitude], ","))
  {
    var parts := [row.address, row.city, row.country];
    assert parts[1..][1..] == [row.country];
    assert Join(parts[1..], ", ") == row.city + ", " + row.country;
    assert Join(parts, ", ") == row.address + ", " + (row.city + ", " + row.country)
                             == row.address + ", " + row.city + ", " + row.country;
    var lonLat := [row.longitude, row.latitude];
    assert lonLat[1..] == [row.latitude];
  }

  /**
   The mapped address and coordinate always contain a separator, so they are
   never empty: a mapped row fails validation exactly when its name, email or
   `is_open` column is empty.
   */
  lemma MappedRowValidIff(row: CsvRow)
    ensures ValidDto(MapRow(row)) <==> |row.name| > 0 && |row.email| > 0 && |row.isOpen| > 0
  {
  }

  /** The text before the first `c`, and the text after it (all of `s` and "" when there is none). */
  function SplitAtFirst(s: string, c: char): (string, string)
    decreases |s|
  {
    if |s| == 0 then ("", "")
    else if s[0] == c then ("", s[1..])
    else
      var rest := SplitAtFirst(s[1..], c);
      ([s[0]] + rest.0, rest.1)
  }

  /**
   The coordinate keeps both halves: when the longitude holds no comma,
   splitting the coordinate at its first comma gives back longitude and latitude.
   */
  lemma {:induction false} CoordinateRoundTrip(lon: string, lat: string)
    requires ',' !in lon
    ensures SplitAtFirst(Join([lon, lat], ","), ',') == (lon, lat)
    decreases |lon|
  {
    var lonLat := [lon, lat];
    assert lonLat[1..] == [lat];
    assert Join(lonLat, ",") == lon + "," + lat;
    if |lon| == 0 {
      assert lon + "," + lat == [','] + lat;
    } else {
      assert lon[1..] + "," + lat == (lon + "," + lat)[1..];
      CoordinateRoundTrip(lon[1..], lat);
      var tailLonLat := [lon[1..], lat];
      assert tailLonLat[1..] == [lat];
      assert [lon[0]] + lon[1..] == lon;
    }
  }

  /** Every data row of the file maps to a hotel that passes validation. */
  predicate AllRowsValid(rows: seq<CsvRow>) {
    forall i :: 0 <= i < |rows| ==> ValidDto(MapRow(rows[i]))
  }

  /** The entities the `data` handler collects, in file order. */
  function MapRows(rows: seq<CsvRow>): (ds: seq<CreateHotelDto>)
    ensures |ds| == |rows|
    ensures forall i :: 0 <= i < |ds| ==> Complete(ds[i])
    decreases |rows|
  {
    if |rows| == 0 then [] else [MapRow(rows[0])] + MapRows(rows[1..])
  }

  /** The i-th collected entity is the mapping of the i-th row. */
  lemma {:induction false} MapRowsAt(rows: seq<CsvRow>)
    ensures forall i :: 0 <= i < |rows| ==> MapRows(rows)[i] == MapRow(rows[i])
    decreases |rows|
  {
    if |rows| > 0 {
      var tail := rows[1..];
      MapRowsAt(tail);
      forall i | 0 < i < |rows|
        ensures MapRows(rows)[i] == MapRow(rows[i])
      {
        assert MapRows(rows)[i] == MapRows(tail)[i - 1];
        assert tail[i - 1] == rows[i];
      }
    }
  }

  /** The ids of saved records, in the order they were saved. */
  function Ids(hs: seq<Hotel>): (ids: seq<int>)
    ensures |ids| == |hs|
    ensures forall i :: 0 <= i < |hs| ==> ids[i] == hs[i].id
  {
    seq(|hs|, i requires 0 <= i < |hs| => hs[i].id)
  }

  /**
   A successful import of `rows` into `s` produced `s'` and returned `ids`:
   one fresh id per row, increasing in row order, each naming a new record
   holding that row's mapped fields; nothing else was added or changed.
   */
  ghost predicate Imported(s: Store, rows: seq<CsvRow>, s': Store, ids: seq<int>) {
    && Valid(s')
    && |ids| == |rows|
    && (forall i :: 0 <= i < |ids| ==>
          && ids[i] !in s.hotels
          && ids[i] in s'.hotels
          && s'.hotels[ids[i]].id == ids[i]
          && Matches(s'.hotels[ids[i]].data, MapRow(rows[i])))
    && (forall i, j :: 0 <= i < j < |ids| ==> ids[i] < ids[j])
    && (forall k :: k in s'.hotels <==> k in s.hotels || k in ids)
    && (forall k :: k in s.hotels ==> s'.hotels[k] == s.hotels[k])
  }

  /**
   `addHotelFromCsv` with "no partial success": an empty path is invalid
   input, any row failing validation aborts with MissingFields, a file with
   no data rows is EmptyFile, and otherwise the whole batch is saved and the
   new ids are returned in row order.
   */
  function AddHotelFromCsv(s: Store, path: string, rows: seq<CsvRow>): (r: Result<(Store, seq<int>)>)
    requires Valid(s)
    ensures |path| == 0 ==> r == Err(InvalidInput)
    ensures |path| > 0 && !AllRowsValid(rows) ==> r == Err(MissingFields)
    ensures |path| > 0 && |rows| == 0 ==> r == Err(EmptyFile)
    ensures r.Ok? <==> |path| > 0 && |rows| > 0 && AllRowsValid(rows)
    ensures r.Ok? ==> Imported(s, rows, r.value.0, r.value.1)
  {
    if |path| == 0 then
      Err(InvalidInput)
    else if !AllRowsValid(rows) then
      Err(MissingFields)
    else if |rows| == 0 then
      Err(EmptyFile)
    else
      var saved := AddHotels(s, MapRows(rows));
      BatchIsImported(s, rows);
      Ok((saved.0, Ids(saved.1)))
  }

  /** Saving the mapped rows as one batch is an import of those rows. */
  lemma BatchIsImported(s: Store, rows: seq<CsvRow>)
    requires Valid(s)
    ensures var saved := AddHotels(s, MapRows(rows));
      Imported(s, rows, saved.0, Ids(saved.1))
  {
    var ds := MapRows(rows);
    MapRowsAt(rows);
    var saved := AddHotels(s, ds);
    var (s', ids) := (saved.0, Ids(saved.1));
    assert |ids| == |rows|;
    forall i | 0 <= i < |ids|
      ensures ids[i] == s.nextId + i
      ensures ids[i] !in s.hotels && ids[i] in s'.hotels && s'.hotels[ids[i]].id == ids[i]
      ensures Matches(s'.hotels[ids[i]].data, MapRow(rows[i]))
    {
      assert ids[i] == saved.1[i].id;
      assert ds[i] == MapRow(rows[i]);
    }
    forall k | k in s'.hotels
      ensures k in s.hotels || k in ids
    {
      if k !in s.hotels {
        assert ids[k - s.nextId] == k;
      }
    }
    forall k | k in ids
      ensures k in s'.hotels
    {
      var i :| 0 <= i < |ids| && ids[i] == k;
    }
  }

  /**
   Every hotel a successful import creates is open (status 1): a row whose
   `is_open` is empty maps to status 0, which the validator rejects.
   */
  lemma ImportedHotelsAreOpen(s: Store, path: string, rows: seq<CsvRow>)
    requires Valid(s)
    requires AddHotelFromCsv(s, path, rows).Ok?
    ensures var (s', ids) := AddHotelFromCsv(s, path, rows).value;
      forall i :: 0 <= i < |ids| ==> s'.hotels[ids[i]].data.status == 1
  {
  }

  // ---------------------------------------------------------------------
  // The stream callbacks as written
  // ---------------------------------------------------------------------

  /** The caller's promise: still pending, or settled once (later settlements are ignored). */
  datatype Promise = Pending | Settled(outcome: Result<seq<int>>) {
    /** `resolve`/`reject`: only the first call has an effect. */
    function Settle(outcome: Result<seq<int>>): Promise {
      if Pending? then Settled(outcome) else this
    }
  }

  /** What the callbacks share: the collected entities and the promise. */
  datatype StreamState = StreamState(hotels: seq<CreateHotelDto>, promise: Promise)

  /**
   The `data` handler: map the row, reject when it fails validation, and push
   it onto the list whether or not it was rejected.
   */
  function OnData(st: StreamState, row: CsvRow): (st': StreamState)
    ensures st'.hotels == st.hotels + [MapRow(row)]
    ensures st.promise.Settled? ==> st'.promise == st.promise
    ensures st.promise.Pending? ==> (st'.promise == Pending <==> ValidDto(MapRow(row)))
    ensures st.promise.Pending? && st'.promise.Settled? ==> st'.promise.outcome == Err(MissingFields)
  {
    var d := MapRow(row);
    var promise := if !ValidDto(d) then st.promise.Settle(Err(MissingFields)) else st.promise;
    StreamState(st.hotels + [d], promise)
  }

  /** The `data` handler applied to each row in file order. */
  function ReadRows(st: StreamState, rows: seq<CsvRow>): (st': StreamState)
    ensures |st'.hotels| == |st.hotels| + |rows|
    ensures st.promise.Settled? ==> st'.promise == st.promise
    decreases |rows|
  {
    if |rows| == 0 then st else ReadRows(OnData(st, rows[0]), rows[1..])
  }

  /**
   Reading the rows collects every one of them, valid or not, and rejects the
   promise with MissingFields exactly when it was still pending and some row
   failed validation; a promise settled earlier is left as it was.
   */
  lemma {:induction false} ReadRowsCollectsAll(st: StreamState, rows: seq<CsvRow>)
    ensures ReadRows(st, rows).hotels == st.hotels + MapRows(rows)
    ensures ReadRows(st, rows).promise ==
      if st.promise.Settled? then st.promise
      else if AllRowsValid(rows) then Pending
      else Settled(Err(MissingFields))
    decreases |rows|
  {
    if |rows| == 0 {
      assert MapRows(rows) == [];
    } else {
      var d := MapRow(rows[0]);
      var tail := rows[1..];
      var st1 := OnData(st, rows[0]);
      assert ReadRows(st, rows) == ReadRows(st1, tail);
      ReadRowsCollectsAll(st1, tail);
      assert st1.hotels == st.hotels + [d];
      assert st1.hotels + MapRows(tail) == st.hotels + ([d] + MapRows(tail));
      AllRowsValidUnfold(rows);
      if st.promise.Settled? {
        assert st1.promise == st.promise;
      } else if ValidDto(d) {
        assert st1.promise == Pending;
      } else {
        assert st1.promise == Settled(Err(MissingFields));
      }
    }
  }

  /** A non-empty file is valid exactly when its first row and all later rows are. */
  lemma AllRowsValidUnfold(rows: seq<CsvRow>)
    requires |rows| > 0
    ensures AllRowsValid(rows) <==> ValidDto(MapRow(rows[0])) && AllRowsValid(rows[1..])
  {
  }

  /**
   The `end` handler: reject an empty list, then save the list regardless and
   resolve with the saved ids (ignored if the promise was already rejected).
   Returns what the caller sees and the store after the save.
   */
  function OnEnd(s: Store, st: StreamState): (r: (Result<seq<int>>, Store))
    requires Valid(s)
    requires forall i :: 0 <= i < |st.hotels| ==> Complete(st.hotels[i])
    ensures r.1 == AddHotels(s, st.hotels).0
    ensures st.promise.Settled? ==> r.0 == st.promise.outcome
    ensures st.promise.Pending? && |st.hotels| == 0 ==> r.0 == Err(EmptyFile)
    ensures st.promise.Pending? && |st.hotels| > 0 ==>
      && r.0.Ok?
      && |r.0.value| == |st.hotels|
      && forall i :: 0 <= i < |st.hotels| ==>
           && r.0.value[i] !in s.hotels
           && r.0.value[i] in r.1.hotels
           && Matches(r.1.hotels[r.0.value[i]].data, st.hotels[i])
  {
    var promise := if |st.hotels| == 0 then st.promise.Settle(Err(EmptyFile)) else st.promise;
    var saved := AddHotels(s, st.hotels);
    var promise' := promise.Settle(Ok(Ids(saved.1)));
    (promise'.outcome, saved.0)
  }

  /**
   `addHotelFromCsv` as written. The caller sees the same outcome as the
   intended import, but once the path is non-empty the store always receives
   the whole batch, invalid rows included.
   */
  function AddHotelFromCsvAsWritten(s: Store, path: string, rows: seq<CsvRow>): (r: (Result<seq<int>>, Store))
    requires Valid(s)
    ensures r.0 == match AddHotelFromCsv(s, path, rows)
                   case Ok((_, ids)) => Ok(ids)
                   case Err(e) => Err(e)
    ensures |path| == 0 ==> r.1 == s
    ensures |path| > 0 ==> r.1 == AddHotels(s, MapRows(rows)).0
    ensures AddHotelFromCsv(s, path, rows).Ok? ==> r.1 == AddHotelFromCsv(s, path, rows).value.0
  {
    if |path| == 0 then
      (Err(InvalidInput), s)
    else
      var st := ReadRows(StreamState([], Pending), rows);
      ReadRowsCollectsAll(StreamState([], Pending), rows);
      assert st.hotels == MapRows(rows);
      OnEnd(s, st)
  }

  /**
   The divergence: when a row fails validation the caller is told
   MissingFields, yet the store is left exactly as a successful import of
   every row, the failing ones included, would have left it.
   */
  lemma RejectedImportIsSavedAnyway(s: Store, path: string, rows: seq<CsvRow>)
    requires Valid(s)
    requires |path| > 0
    requires !AllRowsValid(rows)
    ensures AddHotelFromCsvAsWritten(s, path, rows).0 == Err(MissingFields)
    ensures var saved := AddHotels(s, MapRows(rows));
      && AddHotelFromCsvAsWritten(s, path, rows).1 == saved.0
      && Imported(s, rows, saved.0, Ids(saved.1))
  {
    assert AddHotelFromCsv(s, path, rows) == Err(MissingFields);
    BatchIsImported(s, rows);
  }

  /**
   A concrete instance: importing an open hotel followed by a row with an
   empty name into an empty store. The intended import fails and stores
   nothing; the import as written fails with the same error but stores both
   rows, the second with an empty name.
   */
  lemma AsWrittenStoresInvalidRow()
    ensures var rows := [
        CsvRow("Grand", "1 Main St", "Taipei", "Taiwan", "grand@example.com", "1", "121.5", "25.0"),
        CsvRow("", "2 Side St", "Taipei", "Taiwan", "side@example.com", "1", "121.6", "25.1")];
      && AddHotelFromCsv(Empty(), "upload", rows) == Err(MissingFields)
      && AddHotelFromCsvAsWritten(Empty(), "upload", rows).0 == Err(MissingFields)
      && AddHotelFromCsvAsWritten(Empty(), "upload", rows).1.hotels.Keys == {1, 2}
      && AddHotelFromCsvAsWritten(Empty(), "upload", rows).1.hotels[2].data.name == ""
  {
    var rows := [
        CsvRow("Grand", "1 Main St", "Taipei", "Taiwan", "grand@example.com", "1", "121.5", "25.0"),
        CsvRow("", "2 Side St", "Taipei", "Taiwan", "side@example.com", "1", "121.6", "25.1")];
    assert !ValidDto(MapRow(rows[1]));
    RejectedImportIsSavedAnyway(Empty(), "upload", rows);
    var ds := MapRows(rows);
    MapRowsAt(rows);
    var saved := AddHotels(Empty(), ds);
    assert AddHotelFromCsvAsWritten(Empty(), "upload", rows).1 == saved.0;
    assert saved.1[1].id == 2;
    assert Matches(saved.0.hotels[2].data, MapRow(rows[1]));
    assert forall k :: k in saved.0.hotels <==> 1 <= k < 3;
    assert saved.0.hotels.Keys == {1, 2};
  }
}
