/** `export_csv_post` (app.py): the posted businesses become a CSV table with a fixed
    eight-column header and one row per business; an empty or missing list is refused. */
module CsvExport {
  import opened Wrappers
  import opened SavedBusinesses

  /** The header row, in column order. */
  const HEADER: seq<string> := [
    "Name",
    "Address",
    "Phone",
    "Rating",
    "Reviews",
    "Website",
    "Google Maps URL",
    "Emails"
  ]

  /** The posted keys read for the first seven columns, in column order. */
  const FIELD_KEYS: seq<string> := [
    "name",
    "address",
    "phone",
    "rating",
    "reviews_count",
    "website",
    "maps_url"
  ]

  const NO_DATA_ERROR := "No business data provided"

  /** One posted business: its scalar fields as the CSV writer renders them (`None` for
      JSON null), and its address list, `None` when the key is missing. */
  datatype Business = Business(fields: map<string, Option<string>>, emails: Option<seq<string>>)

  /** `b.get(key, "")` as written by `csv.writer`: a missing key and a null value both
      give an empty cell. */
  function Cell(b: Business, key: string): (r: string)
    ensures key !in b.fields ==> r == ""
    ensures key in b.fields && b.fields[key].None? ==> r == ""
    ensures key in b.fields && b.fields[key].Some? ==> r == b.fields[key].value
  {
    if key in b.fields then b.fields[key].GetOr("") else ""
  }

  /** The row written for one business: one cell per header column, the first seven read
      from the matching keys and the last one the addresses joined as `save_business`
      stores them. */
  function BusinessRow(b: Business): (r: seq<string>)
    ensures |r| == |HEADER| == |FIELD_KEYS| + 1
    ensures forall k :: 0 <= k < |FIELD_KEYS| ==> r[k] == Cell(b, FIELD_KEYS[k])
    ensures r[|FIELD_KEYS|] == SaveEmails(b.emails)
  {
    [
      Cell(b, "name"),
      Cell(b, "address"),
      Cell(b, "phone"),
      Cell(b, "rating"),
      Cell(b, "reviews_count"),
      Cell(b, "website"),
      Cell(b, "maps_url"),
      SaveEmails(b.emails)
    ]
  }

  /** The rows of the table, header first and then the businesses in posted order. */
  function CsvTable(businesses: seq<Business>): (t: seq<seq<string>>)
    ensures |t| == |businesses| + 1 && t[0] == HEADER
    ensures forall k :: 0 <= k < |businesses| ==> t[k + 1] == BusinessRow(businesses[k])
  {
    if businesses == [] then [HEADER]
    else CsvTable(businesses[..|businesses| - 1]) + [BusinessRow(businesses[|businesses| - 1])]
  }

  /** Every line of the table has one cell per header column. */
  lemma CsvTableIsRectangular(businesses: seq<Business>)
    ensures forall k :: 0 <= k < |CsvTable(businesses)| ==> |CsvTable(businesses)[k]| == |HEADER|
  {
    var t := CsvTable(businesses);
    forall k | 0 <= k < |t| ensures |t[k]| == |HEADER| {
      if k > 0 {
        assert t[k] == BusinessRow(businesses[k - 1]);
      }
    }
  }

  /** A business posted with no keys at all gives a row of empty cells. */
  lemma EmptyBusinessRow()
    ensures BusinessRow(Business(map[], None)) == ["", "", "", "", "", "", "", ""]
  {
  }

  /** The Emails cell of an exported row reads back, the way saved rows are loaded, to
      the posted addresses when each is storage-safe. */
  lemma EmailsCellLoadsBack(b: Business)
    requires b.emails.Some?
    requires forall k :: 0 <= k < |b.emails.value| ==> StorageSafe(b.emails.value[k])
    ensures LoadEmails(Some(BusinessRow(b)[|HEADER| - 1])) == b.emails.value
  {
    SaveLoadRoundTrip(b.emails.value);
  }

  /** `csv.writer` over an in-memory buffer, seen as the rows written so far. */
  class CsvWriter {
    var rows: seq<seq<string>>

    constructor ()
      ensures rows == []
    {
      rows := [];
    }

    /** `writer.writerow(row)`. */
    method WriteRow(row: seq<string>)
      modifies this
      ensures rows == old(rows) + [row]
    {
      rows := rows + [row];
    }
  }

  /** The route body: the error for a missing, null or empty list, otherwise the rows of
      the table in the order they are written. */
  method ExportCsvPost(businesses: Option<seq<Business>>) returns (r: Result<seq<seq<string>>, string>)
    ensures r.Failure? <==> businesses.None? || businesses.value == []
    ensures r.Failure? ==> r.error == NO_DATA_ERROR
    ensures r.Success? ==> r.value == CsvTable(businesses.value)
  {
    var data := businesses.GetOr([]);
    if data == [] {
      return Failure(NO_DATA_ERROR);
    }
    var writer := new CsvWriter();
    writer.WriteRow(HEADER);
    for i := 0 to |data|
      invariant writer.rows == CsvTable(data[..i])
    {
      var b := data[i];
      var emailsStr := SaveEmails(b.emails);
      writer.WriteRow([
        Cell(b, "name"),
        Cell(b, "address"),
        Cell(b, "phone"),
        Cell(b, "rating"),
        Cell(b, "reviews_count"),
        Cell(b, "website"),
        Cell(b, "maps_url"),
        emailsStr
      ]);
      assert data[..i + 1][..i] == data[..i];
    }
    assert data[..|data|] == data;
    return Success(writer.rows);
  }
}
