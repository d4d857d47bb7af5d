/** How the saved-businesses routes of app.py store a business's addresses: `save_business`
    writes the list as one TEXT cell joined by ", ", and `get_saved_businesses` turns every
    fetched row's cell back into a list by splitting on "," and stripping each piece. */
module SavedBusinesses {
  import opened Wrappers
  import opened Text
  import opened Scraper

  /** The column holding the joined addresses. */
  const EMAILS_COLUMN := "emails"

  /** The separator `save_business` joins with. */
  const EMAIL_SEPARATOR := ", "

  /** `", ".join(data.get("emails", []))`: a missing list is stored as the empty text. */
  function SaveEmails(emails: Option<seq<string>>): (r: string)
    ensures emails.None? ==> r == ""
    ensures emails.Some? && |emails.value| == 1 ==> r == emails.value[0]
  {
    Join(emails.GetOr([]), EMAIL_SEPARATOR)
  }

  /** The list comprehension `[e.strip() for e in pieces]`. */
  function StripAll(pieces: seq<string>): (r: seq<string>)
    ensures |r| == |pieces|
    ensures forall k :: 0 <= k < |r| ==> r[k] == Strip(pieces[k])
  {
    seq(|pieces|, k requires 0 <= k < |pieces| => Strip(pieces[k]))
  }

  /** The stored cell read back: nothing for NULL or the empty text, otherwise one
      stripped item per comma-separated piece. No item holds a comma or starts or ends
      with whitespace. */
  function LoadEmails(stored: Option<string>): (r: seq<string>)
    ensures r == [] <==> stored.None? || stored.value == ""
    ensures stored.Some? && stored.value != "" ==> |r| == |Split(stored.value, ',')|
    ensures forall k :: 0 <= k < |r| ==> ',' !in r[k]
    ensures forall k :: 0 <= k < |r| ==> r[k] == [] || (!IsSpace(r[k][0]) && !IsSpace(r[k][|r[k]| - 1]))
  {
    match stored
    case None => []
    case Some(text) =>
      if text == "" then []
      else
        var pieces := Split(text, ',');
        var r := StripAll(pieces);
        assert forall k :: 0 <= k < |r| ==> ',' !in r[k] by {
          forall k | 0 <= k < |r| ensures ',' !in r[k] {
            StripKeepsAbsent(pieces[k], ',');
          }
        }
        r
  }

  /** An address survives storage when it is non-empty, holds no comma and has no
      whitespace at either end. */
  predicate StorageSafe(e: string) {
    e != [] && ',' !in e && !IsSpace(e[0]) && !IsSpace(e[|e| - 1])
  }

  /** Saving and loading gives the list back when each address is storage-safe. */
  lemma SaveLoadRoundTrip(emails: seq<string>)
    requires forall k :: 0 <= k < |emails| ==> StorageSafe(emails[k])
    ensures LoadEmails(Some(SaveEmails(Some(emails)))) == emails
  {
    if emails != [] {
      assert EMAIL_SEPARATOR == [','] + " ";
      LoadOfJoin(emails, " ");
    }
  }

  /** Loading storage-safe addresses joined by "," and whitespace `pad` gives them back. */
  lemma LoadOfJoin(emails: seq<string>, pad: string)
    requires emails != []
    requires forall k :: 0 <= k < |emails| ==> StorageSafe(emails[k])
    requires ',' !in pad && forall k :: 0 <= k < |pad| ==> IsSpace(pad[k])
    ensures LoadEmails(Some(Join(emails, [','] + pad))) == emails
  {
    var stored := Join(emails, [','] + pad);
    SplitJoined("", emails, ',', pad);
    assert "" + stored == stored;
    JoinStartsWithFirst(emails, [','] + pad);
    LoadNonEmpty(stored);
    StripPieces(Split(stored, ','), emails, pad);
  }

  /** Non-empty stored text is split on "," and each piece is stripped. */
  lemma LoadNonEmpty(stored: string)
    requires stored != ""
    ensures LoadEmails(Some(stored)) == StripAll(Split(stored, ','))
  {
  }

  /** Stripping the pieces of a saved list: the first piece is the first address and each
      later one is an address after the whitespace `pad` of the separator. */
  lemma StripPieces(pieces: seq<string>, emails: seq<string>, pad: string)
    requires forall k :: 0 <= k < |pad| ==> IsSpace(pad[k])
    requires |pieces| == |emails| > 0
    requires forall k :: 0 <= k < |emails| ==> StorageSafe(emails[k])
    requires pieces[0] == "" + emails[0]
    requires forall k :: 1 <= k < |emails| ==> pieces[k] == pad + emails[k]
    ensures StripAll(pieces) == emails
  {
    forall k | 0 <= k < |emails| ensures Strip(pieces[k]) == emails[k] {
      if k == 0 {
        StripPiece(pieces[k], emails[k], "");
      } else {
        StripPiece(pieces[k], emails[k], pad);
      }
    }
  }

  /** One piece: whitespace `pad` followed by a storage-safe address strips to the address. */
  lemma StripPiece(piece: string, e: string, pad: string)
    requires forall k :: 0 <= k < |pad| ==> IsSpace(pad[k])
    requires StorageSafe(e) && piece == pad + e
    ensures Strip(piece) == e
  {
    StripPadded(pad, e);
  }

  /** A joined list is at least as long as its first element. */
  lemma JoinStartsWithFirst(xs: seq<string>, sep: string)
    requires xs != []
    ensures |Join(xs, sep)| >= |xs[0]|
  {
  }

  /** An address holding a comma comes back as two. */
  lemma CommaSplitsAddress(a: string, b: string)
    requires StorageSafe(a) && StorageSafe(b)
    ensures LoadEmails(Some(SaveEmails(Some([a + "," + b])))) == [a, b]
  {
    var parts := [a, b];
    assert parts[1..] == [b];
    assert Join(parts, [','] + "") == a + "," + b;
    LoadOfJoin(parts, "");
  }

  /** A list holding only the empty text is stored as "" and read back as no address. */
  lemma LoneEmptyAddressIsLost()
    ensures LoadEmails(Some(SaveEmails(Some([""])))) == []
  {
  }

  /** Every address the scan can match is storage-safe. */
  lemma EmailShapedIsStorageSafe(e: string)
    requires EmailShaped(e)
    ensures StorageSafe(e)
  {
    var i := IndexOf(e, '@');
    var d := e[i + 1..];
    assert IsLocalChar(e[0]);
    var j :| 1 <= j < |d| - 2 && d[j] == '.' && forall m :: j < m < |d| ==> IsAsciiLetter(d[m]);
    assert IsAsciiLetter(d[|d| - 1]);
    assert e[|e| - 1] == d[|d| - 1];
    forall k | 0 <= k < |e| ensures e[k] != ',' {
      if k < i {
        assert IsLocalChar(e[k]);
      } else if k > i {
        assert e[k] == d[k - i - 1];
        assert IsDomainChar(d[k - i - 1]);
      }
    }
  }

  /** What the scraper returns is stored and read back unchanged. */
  lemma ScrapedEmailsSurviveStorage(website: string, fetch: string -> Option<string>,
                                    findall: string -> seq<string>, arrange: seq<string> -> seq<string>)
    requires ArrangesAsSet(arrange) && FindsEmailShaped(findall)
    ensures var emails := Extract(website, fetch, findall, arrange).emails;
      LoadEmails(Some(SaveEmails(Some(emails)))) == emails
  {
    var emails := Extract(website, fetch, findall, arrange).emails;
    forall k | 0 <= k < |emails| ensures StorageSafe(emails[k]) {
      ExtractPassesFilter(website, fetch, findall, arrange, emails[k]);
      EmailShapedIsStorageSafe(emails[k]);
    }
    SaveLoadRoundTrip(emails);
  }

  /** A cell of a fetched row, as psycopg2 hands it over. */
  datatype Value = Null | Str(text: string) | Scalar(repr: string) | StrList(items: seq<string>)

  /** One fetched row, column name to value (`RealDictCursor`). */
  type Row = map<string, Value>

  /** The `emails` column is TEXT, so a fetched row holds NULL or a string there. */
  predicate EmailsStoredAsText(row: Row) {
    EMAILS_COLUMN in row ==> row[EMAILS_COLUMN].Null? || row[EMAILS_COLUMN].Str?
  }

  /** `row.get("emails")`: the stored text, or nothing for NULL or a missing column. */
  function StoredEmails(row: Row): (r: Option<string>)
    requires EmailsStoredAsText(row)
    ensures r.Some? <==> EMAILS_COLUMN in row && row[EMAILS_COLUMN].Str?
    ensures r.Some? ==> row[EMAILS_COLUMN] == Str(r.value)
  {
    if EMAILS_COLUMN in row && row[EMAILS_COLUMN].Str? then Some(row[EMAILS_COLUMN].text) else None
  }

  /** One row after the conversion: `emails` holds the loaded list and every other column
      is untouched. */
  function LoadRow(row: Row): (r: Row)
    requires EmailsStoredAsText(row)
    ensures r.Keys == row.Keys + {EMAILS_COLUMN}
    ensures r[EMAILS_COLUMN] == StrList(LoadEmails(StoredEmails(row)))
    ensures forall column :: column in row && column != EMAILS_COLUMN ==> r[column] == row[column]
  {
    row[EMAILS_COLUMN := StrList(LoadEmails(StoredEmails(row)))]
  }

  /** The loop of `get_saved_businesses`, updating each fetched row in place. */
  method ConvertSavedRows(rows: array<Row>)
    requires forall i :: 0 <= i < rows.Length ==> EmailsStoredAsText(rows[i])
    modifies rows
    ensures forall i :: 0 <= i < rows.Length ==> rows[i] == LoadRow(old(rows[i]))
  {
    for i := 0 to rows.Length
      invariant forall j :: 0 <= j < i ==> rows[j] == LoadRow(old(rows[j]))
      invariant forall j :: i <= j < rows.Length ==> rows[j] == old(rows[j])
    {
      var row := rows[i];
      var emailStr: Option<string> := None;
      if EMAILS_COLUMN in row && row[EMAILS_COLUMN].Str? {
        emailStr := Some(row[EMAILS_COLUMN].text);
      }
      var loaded: seq<string>;
      if emailStr.Some? && emailStr.value != "" {
        var pieces := Split(emailStr.value, ',');
        loaded := StripAll(pieces);
      } else {
        loaded := [];
      }
      assert loaded == LoadEmails(StoredEmails(row));
      rows[i] := row[EMAILS_COLUMN := StrList(loaded)];
    }
  }
}
