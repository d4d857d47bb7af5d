# business_scanner_backend — contact-address pipeline, modelled in Dafny

This project models the part of the business-scanner backend that deals with contact
addresses: finding them on a business's website, filtering out tracking noise, storing
them with a saved business, reading them back, and exporting them in the CSV download.

- `email_filter.dfy` (module `EmailFilter`) is `clean_email_list`. It has the four drop
  tests, the five banned domains, and a loop that keeps each survivor unchanged and in order.
- `scraper.dfy` (module `Scraper`) is `extract_emails_from_website`:
  - strip one trailing slash from the URL;
  - scan the homepage;
  - return the cleaned homepage addresses if any survive;
  - otherwise scan the seven secondary paths in order, and clean everything gathered.

  The HTTP client, the regular-expression scan and the order of `list(set(...))` are passed
  in as functions. So every property holds for any of those that meets the stated
  assumption (a scan that only matches address-shaped text, an arrangement with no
  duplicates and the same elements).
- `saved_businesses.dfy` (module `SavedBusinesses`) covers the two halves of storage. The
  save route joins the list with `", "`. The listing route's loop rewrites each fetched row's
  `emails` cell: it splits the text on `","` and strips each piece, and NULL or empty text
  becomes `[]`.
- `csv_export.dfy` (module `CsvExport`) is `export_csv_post`. An empty or missing list is
  refused. Otherwise it writes an eight-column header, then one eight-cell row per business,
  with empty defaults, and an Emails cell joined the same way as the save route.
- `text.dfy` (module `Text`) holds the Python string operations these use: ASCII
  `lower`, `partition`, `isdigit`, `strip`, `split` and `join`.
- `sequences.dfy` (module `Sequences`) holds generic facts about filtering, flattening,
  subsequences and duplicate-free arrangements.
- `wrappers.dfy` (module `Wrappers`) holds `Option` and `Result`.

`requests.get` does not raise on an HTTP error status and the code never checks the
status, so the body of a 404 or 500 page is scanned like any other. It does raise on
network errors and timeouts, on a missing scheme or malformed URL, on too many redirects
and on body-decoding errors, and `except Exception` swallows all of these. In the model,
`fetch` returns `None` exactly for a request that raised, and `Some(body)` for any
response. The order of the returned list is whatever `list(set(...))` gives; the model
leaves it to `arrange` and promises nothing about it.

## Model

| member | source | states |
|---|---|---|
| EmailFilter.CleanEmailList | common_helpers.py:9-40 | the loop returns exactly `Clean(emails)`: each address in input order, kept when none of the four `continue` tests fires |
| EmailFilter.CleanMembership | common_helpers.py:19-38 | an address is in the result iff it occurs in the input, its lower-cased domain is not one of the banned domains, and its lower-cased local part is at most 25 characters, not all digits and not a hex token of 20 or more characters |
| EmailFilter.CleanIsSubsequence | common_helpers.py:19-40 | the result is a subsequence of the input: the original spelling, in input order |
| EmailFilter.CleanAppend | common_helpers.py:19-38 | cleaning `a + b` equals cleaning `a` followed by cleaning `b`, because each address is judged on its own |
| EmailFilter.CleanIdempotent | common_helpers.py:9-40 | cleaning twice gives the same as cleaning once |
| EmailFilter.CleanKeepsNoDup | common_helpers.py:68 | a duplicate-free input (as `list(set(...))` gives) stays duplicate-free |
| EmailFilter.CleanNone | common_helpers.py:19-40 | if no address passes, the result is empty |
| EmailFilter.PartsOf | common_helpers.py:20 | for `l@d` with no `@` in `l`, the tests see `l` and `d` lower-cased |
| EmailFilter.LiteralParts | common_helpers.py:20 | for an address with no capitals, the two parts are exactly the text around the first `@` |
| EmailFilter.SubdomainOfBannedIsKept | common_helpers.py:11-24 | the domain test is an exact match: `info@mail.wixpress.com` is kept |
| EmailFilter.BannedDomainIsDropped | common_helpers.py:11-24 | `info@wixpress.com` is dropped |
| EmailFilter.EmptyLocalPartIsKept | common_helpers.py:31-32 | `""` is not all digits, so `@example.com` passes |
| EmailFilter.KeptSpellingUnchanged | common_helpers.py:20-38 | case is ignored by the tests, but a kept address is returned as written |
| EmailFilter.MixedCaseIsKept | common_helpers.py:20-38 | `Sales@Example.COM` passes every test |
| EmailFilter.AllDigitLocalIsDropped | common_helpers.py:31-32 | `1234567890123456789012@tracking.com` (22 digits, under the length limit) is dropped by the all-digit test |
| Scraper.NormalizeUrl | common_helpers.py:47-48 | a URL ending in `/` loses exactly that slash; any other URL is unchanged |
| Scraper.NormalizeStripsOneSlash | common_helpers.py:47-48 | only one trailing slash is removed (`//` becomes `/`) |
| Scraper.EmailShapedHasOneAt | common_helpers.py:57-60 | a text the address pattern matches whole has exactly one `@` and a non-empty local part |
| Scraper.HarvestOne | common_helpers.py:53-65 | the homepage alone contributes its own matches, or nothing when the request raised |
| Scraper.HarvestSnoc | common_helpers.py:90-102 | requesting one more page appends that page's matches |
| Scraper.HarvestAppend | common_helpers.py:50-102 | the candidates of two runs of requests are the concatenation of each run's candidates |
| Scraper.HarvestMembership | common_helpers.py:86-102 | a candidate is gathered iff some requested page answered and its scan matched it; a request that raised adds nothing and the loop goes on |
| Scraper.HarvestShaped | common_helpers.py:57-99 | when the scan only matches address-shaped text, every gathered candidate is address-shaped |
| Scraper.HarvestAllFailed | common_helpers.py:53-102 | if every request raises, nothing is gathered |
| Scraper.Urls | common_helpers.py:86-87 | one URL per path, in path order |
| Scraper.UrlsIndex | common_helpers.py:87 | the `i`-th secondary URL is the normalised URL followed by the `i`-th path |
| Scraper.UrlsSnoc | common_helpers.py:86-87 | one more path adds its URL at the end |
| Scraper.SecondaryStep | common_helpers.py:86-102 | one turn of the secondary loop appends one URL to the trace and that page's matches to the gathered list |
| Scraper.ScrapeSecondaryPages | common_helpers.py:86-102 | the loop requests `base + path` for each path in order, and appends each page's matches to the addresses gathered so far |
| Scraper.ExtractFallsBack | common_helpers.py:75-108 | when the cleaned homepage candidates are empty, the homepage and then every secondary URL are requested, and everything gathered is cleaned |
| Scraper.ExtractEmailsFromWebsite | common_helpers.py:43-108 | the function's result and its requests, in order, are exactly those of `Extract` |
| Scraper.ExtractShortCircuit | common_helpers.py:67-73 | the homepage is the only request iff some homepage candidate survives cleaning, and then the cleaned homepage candidates are returned |
| Scraper.ExtractFallbackTrace | common_helpers.py:75-102 | otherwise exactly eight URLs are requested, in order: the homepage, then `/contact`, `/contact-us`, `/contactus`, `/about`, `/about-us`, `/support`, `/help` |
| Scraper.ExtractMembership | common_helpers.py:68-105 | an address is returned iff some requested page yielded it and it passes the filter |
| Scraper.ExtractFallbackMembership | common_helpers.py:99-105 | on the fallback path the returned set is exactly the secondary pages' candidates that pass the filter |
| Scraper.ExtractNoDup | common_helpers.py:68-105 | the result has no duplicates |
| Scraper.ExtractPassesFilter | common_helpers.py:57-105 | every returned address is address-shaped and passes all four tests |
| Scraper.CleanSingleSurvivor | common_helpers.py:68 | if the only candidate that survives is `a`, cleaning any duplicate-free arrangement of the candidates gives `[a]` |
| Scraper.CleanNoSurvivor | common_helpers.py:68 | if no candidate survives, cleaning any arrangement of the candidates gives `[]` |
| Scraper.FailedHomeFallsBack | common_helpers.py:53-71 | a homepage request that raises leaves nothing after cleaning, so the fallback runs |
| Scraper.OnlyOnePageAnswers | common_helpers.py:86-102 | if only one page answers and it lists just `a`, the gathered candidates are `a` and nothing else |
| Scraper.SecondaryUrlsDiffer | common_helpers.py:76-87 | no secondary URL equals the homepage URL |
| Scraper.SalesIsKept | common_helpers.py:19-38 | `sales@example.com` passes every test |
| Scraper.SentryIsDropped | common_helpers.py:11-24 | `noreply@sentry.io` is dropped |
| Scraper.HelloIsKept | common_helpers.py:19-38 | `hello@biz.com` passes every test |
| Scraper.HomepageHitScenario | common_helpers.py:53-73 | a homepage listing `sales@example.com` and `noreply@sentry.io` returns `["sales@example.com"]` and requests nothing else |
| Scraper.ContactPageScenario | common_helpers.py:53-108 | if the homepage request raises and only `/contact` answers with `hello@biz.com`, that address is returned |
| Scraper.AllDigitHomepageScenario | common_helpers.py:31-108 | an all-digit homepage address is dropped, so eight URLs are requested; if the rest fail, `[]` is returned |
| Scraper.NothingFoundScenario | common_helpers.py:53-108 | if no page yields a candidate (its request raised or it matched nothing), eight URLs are requested and `[]` is returned |
| Text.LowerChar | common_helpers.py:20 | ASCII capitals move to lower case; every other character is unchanged |
| Text.Lower | common_helpers.py:20 | `lower()` maps each character and keeps the length |
| Text.LowerConcat | common_helpers.py:20 | lower-casing distributes over concatenation |
| Text.LowerAround | common_helpers.py:20 | a part already in lower case is unchanged in the middle of a concatenation |
| Text.LowerKeepsAbsent | common_helpers.py:20 | lower-casing introduces no `@` |
| Text.LowerOfLowerCase | common_helpers.py:20 | text without capitals is unchanged |
| Text.IndexOf | common_helpers.py:20 | the position of the first `@`, or the length when there is none |
| Text.IndexOfAbsent | common_helpers.py:20 | with no separator, the position is the length |
| Text.IndexOfAfter | common_helpers.py:20 | in `a + "@" + b` with no `@` in `a`, the first `@` is at `|a|` |
| Text.Partition | common_helpers.py:20 | `partition("@")`: before is the text up to the first `@`, with `before + "@" + after` equal to the input; with no `@`, before is the input and after is empty |
| Text.TrimStart | app.py:270 | the removed prefix is all whitespace and what is left does not start with whitespace |
| Text.TrimEnd | app.py:270 | the removed suffix is all whitespace and what is left does not end with whitespace |
| Text.Strip | app.py:270 | `strip()` leaves no whitespace at either end |
| Text.StripKeepsAbsent | app.py:270 | stripping adds no characters, so a comma-free piece stays comma-free |
| Text.StripPadded | app.py:270 | stripping leading whitespace from text with non-space ends gives that text back |
| Text.Split | app.py:270 | `split(",")`: at least one piece, no piece contains the separator, and joining the pieces with it gives the input |
| Text.SplitNone | app.py:270 | text without the separator is one piece |
| Text.SplitAt | app.py:270 | the text before the first separator is the first piece |
| Text.SplitJoined | app.py:235-270 | to split a list joined by `","` plus padding: one piece per element, the first piece is the first element, and each later piece is the padding followed by its element |
| SavedBusinesses.SaveEmails | app.py:235 | a missing list is stored as `""`, and a one-address list as that address |
| SavedBusinesses.StripAll | app.py:270 | one stripped item per piece |
| SavedBusinesses.LoadEmails | app.py:267-272 | NULL or empty text, and only those, give `[]`; otherwise one item per comma-separated piece, none holding a comma or starting or ending with whitespace |
| SavedBusinesses.LoadNonEmpty | app.py:269-270 | non-empty text is split on `","` and each piece stripped |
| SavedBusinesses.SaveLoadRoundTrip | app.py:235-272 | saving then loading gives the list back when every address is non-empty, has no comma and no whitespace at its ends |
| SavedBusinesses.LoadOfJoin | app.py:267-272 | loading such addresses joined by `","` and any whitespace gives them back |
| SavedBusinesses.StripPieces | app.py:270 | stripping the pieces of a saved list gives the addresses back |
| SavedBusinesses.StripPiece | app.py:270 | one piece (padding plus a safe address) strips back to the address |
| SavedBusinesses.CommaSplitsAddress | app.py:235-270 | an address `a,b` holding a comma comes back as two addresses `a` and `b` |
| SavedBusinesses.LoneEmptyAddressIsLost | app.py:235-272 | `[""]` is stored as `""` and read back as `[]` |
| SavedBusinesses.EmailShapedIsStorageSafe | common_helpers.py:57-60 | every text the address pattern matches is safe to store: non-empty, comma-free, no whitespace at its ends |
| SavedBusinesses.ScrapedEmailsSurviveStorage | app.py:235-272 | what the scraper returns comes back unchanged after a save and a load |
| SavedBusinesses.StoredEmails | app.py:268 | `row.get("emails")` is some text exactly when the column holds text |
| SavedBusinesses.LoadRow | app.py:267-272 | after conversion `emails` holds the loaded list, the row gains at most that key, and every other column is untouched |
| SavedBusinesses.ConvertSavedRows | app.py:267-272 | each fetched row, in place and in order, becomes `LoadRow` of itself; the number of rows is unchanged |
| CsvExport.Cell | app.py:93-99 | `b.get(key, "")` as the CSV writer renders it: a missing key or a null gives an empty cell |
| CsvExport.BusinessRow | app.py:89-101 | one cell per header column, the first seven read from `name`, `address`, `phone`, `rating`, `reviews_count`, `website` and `maps_url`, and the last one the addresses joined as the save route joins them |
| CsvExport.CsvTable | app.py:76-101 | the header first, then one row per business in posted order |
| CsvExport.CsvTableIsRectangular | app.py:76-101 | every line of the table has eight cells |
| CsvExport.EmptyBusinessRow | app.py:89-101 | a business with no keys gives eight empty cells |
| CsvExport.EmailsCellLoadsBack | app.py:90-272 | the exported Emails cell reads back, the way saved rows are loaded, to the posted addresses |
| CsvExport.CsvWriter.constructor | app.py:73-74 | a fresh writer has written nothing |
| CsvExport.CsvWriter.WriteRow | app.py:77-101 | `writerow` appends exactly one row |
| CsvExport.ExportCsvPost | app.py:69-101 | a missing, null or empty list, and only that, gives the error `No business data provided`; otherwise the rows written are the header followed by one row per business |

## Left out

- The HTTP client (`requests.get` with its timeout of 5 seconds and its User-Agent header) becomes the `fetch` parameter. `None` stands for a request that raised. Any response, whatever its status, yields its body.
- The regular expression `[a-zA-Z0-9._%+-]+@[a-zA-Z0-9.-]+\.[a-zA-Z]{2,}` is not executed. It becomes the `findall` parameter. The lemmas that need its guarantee assume only that every match is address-shaped (`EmailShaped`). How matches are placed in the text, and which ones overlap, is not modelled.
- The order of `list(set(...))`, which Python leaves unspecified, becomes the `arrange` parameter. The lemmas assume only that it is duplicate-free and has the same elements.
- The `print` calls that trace the scraper are not modelled. The `requested` trace stands in for the scraped URLs they report.
- Text.Lower, Text.IsDigits: handle ASCII only. Python's `lower()` and `isdigit()` also map or accept non-ASCII letters and digits, such as `É` or `²`. Addresses the scan matches are ASCII, so this does not affect scraped input.
- SavedBusinesses.SaveEmails: a JSON `null` for `emails` makes `join` raise `TypeError`, which the save route turns into its 500 error. The model only distinguishes a missing list from a present one.
- CsvExport.ExportCsvPost: a JSON `null` for a business's `emails` makes the route fail with an uncaught `TypeError`. This is not modelled.
- CsvExport.Cell: the scalar fields are taken as already rendered to text. Python's `str()` of numbers is not modelled.
- The CSV byte format is not modelled. This covers quoting of cells that contain commas or quotes, line endings, UTF-8 encoding, and the `send_file` attachment named `businesses.csv`. The model stops at the rows handed to `writerow`.
- SavedBusinesses.ConvertSavedRows: requires that the `emails` column holds NULL or text, as its TEXT type guarantees. The SQL query and the `ORDER BY saved_at DESC` ordering are not modelled. The rows are taken as fetched.
- Flask routing, JWT and bcrypt authentication, credit accounting, the SQL statements and their conflict handling, `google_helpers.py` (geocoding and the places API), and `db_extentions.py` are not part of this model.
