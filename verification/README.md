# shopify-sheets-backend — a Dafny model

This project models the order-handling core of a small Shopify back end. Orders arrive from Shopify webhooks and are normalised into order rows and line-item rows. Those rows live in a Google Sheet or in Postgres, and handlers read them back as JSON, CSV or printable HTML:

- order pages with base64 cursors;
- status summaries derived from tags;
- tag edits;
- picking lists that group line items by SKU;
- Shipday route exports;
- driver runs.

Around the orders sits a small inventory ledger:

- Moving an order into processing deducts its quantities from stock once per variant.
- A stock sheet (a wide CSV of up to seven blocks per row) can be imported. Its rows are matched against the Shopify variant catalogue through a `title|color|size` key, and the matched quantities overwrite the stock table.

Every operation is a pure function or a small method over immutable values:

- **Tables.** Sheets, Postgres tables and the Shopify listing are sequences of records.
- **Calls.** A database or API call is one atomic step.
- **Outside values.** Clocks, the date parser and failing statements are parameters.

The modules follow the source files:

| module | models |
|---|---|
| `Wrappers`, `Seqs`, `JsText`, `Decimal` | `Option`/`Result`, sequence helpers, the JavaScript string and number behaviour the handlers rely on |
| `Base64`, `Page` | base64 cursors and order paging |
| `Cache` | the in-memory tag cache |
| `Csv`, `Shipday`, `Router` | CSV export, the Shipday exports, and the router's path and request checks |
| `Tags`, `Summary`, `Runs`, `Sheets` | tag edits, status summaries, driver runs, and the Sheets row store |
| `Shopify` | the two payload normalisers |
| `Rows`, `Grouping`, `Picking` | the picking handlers |
| `Catalog`, `StockCsv`, `StockImport` | the catalogue, the stock sheet reader and the stock import |
| `InventoryApply` | the processing deduction |

Where the written code and its intended behaviour part, the model holds both: the code as written with the input that shows the difference, and the intended code with its property (see Findings). The catalogue's colour and size inference takes its size test as a parameter, so each of its laws holds for the file's test and for the corrected one; the stock import uses the corrected test. The model follows the code in these cases:

- **Deduction key.** The processing deduction keys moves by the variant id exactly as stored; the id is trimmed but not otherwise normalised.
- **Deduction result.** It answers only the number of variants applied.

## Model

| member | source | states |
|---|---|---|
| Cache.Get | api/lib/cache.js:6-11 | a key reads back exactly when it is stored and not expired (expiry 0 never expires, a past expiry is strictly less than now); the value is the stored one; an expired entry is dropped and every other entry stays |
| Cache.Set | api/lib/cache.js:13-16 | the key holds the new value and exactly the given tags; a missing time-to-live means 30 000 ms and 0 means no expiry; every other key is untouched |
| Cache.Del | api/lib/cache.js:18 | the key is gone and every other entry is unchanged |
| Cache.InvalidateByTag | api/lib/cache.js:20-24 | an entry survives exactly when it does not carry the tag, and survivors are unchanged |
| Cache.SetThenGet | api/lib/cache.js:6-16 | a value set with a positive time-to-live reads back up to and including its expiry instant, and afterwards reads as missing and is dropped |
| Cache.SetForever | api/lib/cache.js:13-14 | a zero time-to-live stores an entry that reads back at any time |
| Cache.SetOverwrites | api/lib/cache.js:13-16 | setting a key twice is the same as setting it once with the second value, tags and expiry |
| Cache.InvalidateIdempotent | api/lib/cache.js:20-24 | no survivor of an invalidation carries the tag, and invalidating again changes nothing |
| Cache.K | api/lib/cache.js:27 | a key contains no upper-case ASCII letter |
| Cache.KIgnoresFalsy | api/lib/cache.js:27 | falsy parts ("", 0, false, missing) added before or after the parts do not change the key |
| Cache.KSplit | api/lib/cache.js:27 | when some part is truthy and no part contains "\|", splitting the key on "\|" gives back the truthy parts, lower-cased, in order |
| Page.Enc | api/orders/page.js:6 | a cursor is non-empty base-64 text (its length is a multiple of 4) of the UTF-8 bytes of the offset's decimal text |
| Page.Dec | api/orders/page.js:7-10 | an empty cursor means offset 0, and so does a cursor whose text is not a number (`Number(...) \|\| 0`) |
| Page.DecText | api/orders/page.js:7-10 | a cursor carrying any text t reads as `Number(t)`, or 0 when that is NaN |
| Page.DecLeadingSpace | api/orders/page.js:8 | white space before the digits, such as a no-break space or a byte order mark, is skipped as `Number` skips it |
| Page.DecNoBreakSpace | api/orders/page.js:8 | the cursor "wqA1", whose bytes C2 A0 35 are a no-break space and "5", reads as offset 5 |
| Utf8.Encode | api/orders/page.js:6 | `Buffer.from(text)`: the bytes are never fewer than the characters, and `Utf8.DecodeEncode` inverts them |
| Utf8.Decode | api/orders/page.js:8 | `toString('utf8')`: the text is never longer than the bytes; a well-formed sequence reads as its character (`Utf8.DecodeAppend`) |
| Utf8.CharRoundTrip | api/orders/page.js:6-8 | the bytes of one character are one well-formed sequence of that length, and it spells the character |
| Utf8.DecodeEncode | api/orders/page.js:6-8 | decoding the UTF-8 bytes of any text gives the text back |
| Utf8.DecodeAppend | api/orders/page.js:8 | decoding reads one character's bytes as that character and goes on with the bytes after them |
| Utf8.EncodeAscii | api/orders/page.js:6 | ASCII text encodes byte for byte |
| Page.DecEnc | api/orders/page.js:6-10 | every cursor the handler issues decodes back to the offset it was made from |
| Page.Limit | api/orders/page.js:23 | no limit means 25; a number is capped at 100; text that is not a number gives NaN |
| Page.ShopRows | api/orders/page.js:22-27 | a row is kept exactly when no shop is asked for or its SHOP_DOMAIN equals the shop case-blind |
| Page.NextCursor | api/orders/page.js:32 | a next cursor exists exactly when the answer has a next offset, and it decodes back to that offset |
| Page.Window | api/orders/page.js:31 | `slice(offset, offset+limit)` for non-negative offset and limit is the clamped sub-sequence |
| Page.PageAt | api/orders/page.js:30-32 | total is the number of rows; a next offset exists exactly when offset+limit is below the total, and it equals offset+limit; the items are the clamped window; a NaN limit gives no next cursor |
| Page.Handle | api/orders/page.js:20-35 | given that the sort leaves the shop's rows as a permutation of them, newest `CREATED_AT` first, total counts the shop's rows; with no cursor and no limit the page is the first 25 sorted rows |
| Page.FollowCursor | api/orders/page.js:6-32 | echoing a cursor made from offset n asks for the page at offset n |
| Page.WalkRest | api/orders/page.js:30-32 | following the next offsets from any offset inside the rows yields the rest of the rows, each once and in order |
| Page.WalkFromStart | api/orders/page.js:30-32 | from offset 0 the walk reads the whole sorted view, and the first page followed by the walk from the next offset is the whole view |
| Page.WalkAll | api/orders/page.js:12-36 | a client that starts without a cursor and follows nextCursor with a positive limit reads every row of the shop exactly once (the same multiset of rows), newest first |
| Base64.Encode | api/orders/page.js:6 | `toString('base64')` always produces whole four-character groups, padded with "=" |
| Base64.SextetOfAlphabet | api/orders/page.js:6-8 | the decoder reads every character of the encoding alphabet back as its own six-bit value, and no alphabet character is the pad |
| Base64.EncodeSextets | api/orders/page.js:6-8 | regrouping the six-bit values read from an encoding gives back the bytes encoded |
| Base64.DecodeEncode | api/orders/page.js:6-8 | Node's lenient decoder inverts the encoder on every byte string |
| Decimal.NatToString | api/orders/page.js:6 | `String(n)` of a natural number is a non-empty digit string with no leading zero unless n is 0 |
| Decimal.NatToStringValue | api/orders/page.js:6-8 | the digits of `String(n)` have value n |
| Decimal.IntToString | api/orders/page.js:6 | `String(n)` of a negative integer is "-" followed by digits, otherwise digits only |
| Decimal.ToNumber | server/lib/stockCsv.js:12-15 | `Number(s)` of a trimmed digit string (or of blank text) is its value, blank text being 0 |
| Decimal.ToNumberTrim | api/orders/page.js:8 | `Number` looks only at the trimmed text: texts that trim alike read alike |
| Decimal.ToNumberOfIntToString | api/orders/page.js:6-8 | `Number(String(n)) == n` for every integer |
| Decimal.ToNumberNaN | server/lib/stockCsv.js:12-15 | a text ending in a letter is NaN (`safeNum` gives null) |
| JsText.Lower | server/lib/stockCsv.js:42 | `toLowerCase()` keeps the length and lower-cases each ASCII capital in place |
| JsText.LowerIdempotent | api/lib/cache.js:27 | lower-casing twice is lower-casing once |
| JsText.TrimSpec | server/lib/stockCsv.js:7-10 | `trim()` leaves no space at either end, and a text with none is its own trim |
| JsText.TrimIdempotent | server/lib/stockCsv.js:7-10 | trimming twice is trimming once |
| JsText.TrimKeepsOut | server/lib/routes/inventory.js:44 | trimming never introduces a character, so a "\|"-free text stays "\|"-free |
| JsText.ContainsIff | api/orders/summary.js:96-99 | `s.includes(sub)` holds exactly when `sub` occurs in `s` at some index |
| JsText.Split | api/orders/tags.js:109 | `split(c)` yields at least one piece and no piece contains `c` |
| JsText.JoinSplit | api/orders/tags.js:109 | joining the pieces of a split with the separator restores the text |
| JsText.SplitJoin | server/lib/routes/inventory.js:44 | splitting a join of separator-free pieces gives back the pieces |
| JsText.LastSegmentNoSep | shopify.js:37 | `split("/").pop()` of a text without "/" is the text itself |
| JsText.LastSegmentAfterSep | shopify.js:37 | `split("/").pop()` is the text after the last "/" |
| JsText.HasWordIff | api/orders/summary.js:107 | the `/\bw\b/i` search succeeds exactly when some case-blind whole-word match exists |
| JsText.WordAtContains | api/orders/summary.js:96-107 | a whole-word match is also a substring match of the lower-cased text |
| Seqs.Filter | api/orders/page.js:27 | `filter` keeps exactly the elements satisfying the predicate, in order |
| Seqs.FindFirst | api/print/picking.js:45 | the lookup of a group by key finds the first index whose element satisfies the predicate, and none when no element does |
| Seqs.FirstOr | server/lib/shopifyCatalog.js:69-79 | `find` read through a projection: the projection of the first satisfying element, or the default when none satisfies |
| Seqs.Dedup | api/print/picking.js:27-32 | the keys of the `byOrder` map in insertion order: no repeats and the same members as the input |
| Seqs.DedupSnoc | api/print/picking.js:29-31 | a new id at the end of the input is added at the end of the keys, a repeated one changes nothing |
| Seqs.LastN | api/print/picking.js:32 | `slice(-50)`: the last n elements, all of them when fewer |
| Seqs.JsSlice | server/lib/routes/inventory.js:54 | `slice(start, end)` within bounds is the sub-sequence, and an empty range gives nothing |
| Seqs.Take | server/lib/routes/inventory.js:81 | `slice(0, n)` is the first n elements, all of them when fewer |
| Csv.Esc | api/router.js:56 | escaping adds exactly one character per quote in the value |
| Csv.CellRoundTrip | api/router.js:56-60 | reading an escaped value from after its opening quote gives the value back and stops exactly at its closing quote |
| Csv.CellsRoundTrip | api/router.js:60 | reading a line of quoted, comma-joined cells gives back every value, in order |
| Csv.RecordsRoundTrip | api/router.js:59-61 | reading a body of "\n"-joined lines gives back every line's values |
| Csv.ToCsvShape | api/router.js:57-63 | with a non-empty first key, the text is the header line, "\n", then one line per row |
| Csv.ToCsvRoundTrip | api/shipday.js:5-9 | the export reads back: the header line splits into the first row's keys, and the body into each row's values under those keys, in order |
| Csv.ToCsvEmpty | api/router.js:57-63 | no rows give the empty text |
| Csv.ValuesFromPairs | api/shipday.js:27-38 | an object literal's values read back, in order, under its own distinct keys |
| Shipday.Day | api/router.js:261 | `slice(0, 10)` is a prefix of at most ten characters |
| Shipday.StripHash | api/router.js:269 | `replace(/^#/, "")` removes exactly one leading "#" and leaves any other text alone |
| Shipday.RouterRow | api/router.js:268-282 | the payment method is "COD" exactly when the lower-cased gateway contains "cod", otherwise "Prepaid"; the COD amount is always empty |
| Shipday.RouterSelection | api/router.js:263-283 | the exported rows are, in fetched order, the rows of the shop's orders of the query day whose order number is non-empty |
| Shipday.RouterRowsLetterStamps | api/router.js:261-267 | creation stamps whose text starts with a letter, as the `String` form of a `Date` does, never fall on a day written with a leading digit, so the export has no row |
| Shipday.RouterOrderNumber | api/router.js:269 | the order number is the name, else the id, with at most one leading "#" removed |
| Shipday.SheetRow | api/shipday.js:27-41 | the payment method is "COD" exactly when the COD amount is non-empty, otherwise "Prepaid"; the COD amount is copied |
| Shipday.SheetRows | api/shipday.js:17-41 | at most one row per sheet order |
| Shipday.SheetSelection | api/shipday.js:21-41 | every exported row is the row of an order of the shop, created on or before the day, whose status is ready_dispatch or packed in any case; and every such order has its row |
| Shipday.ExportReadsBack | api/shipday.js:43 | an empty selection exports exactly "orderNumber\n"; otherwise the export is the thirteen column names on one line followed by a body that reads back as every row's cells, in order |
| Router.GetPath | api/router.js:88-93 | the routed path is never empty; a path that starts with "/" still does; a path not starting with "/api" is kept as it is |
| Router.GetPathUnderApi | api/router.js:88-93 | a request for "/api" followed by a path starting with "/" reaches that path |
| Router.GetPathApiRoot | api/router.js:92 | "/api" and "/api/" both reach "/" |
| Router.GetPathQuirks | api/router.js:91-92 | only the first "/api" is removed, and it need not end a segment: "/apiorders" reaches "/orders" |
| Router.Dispatch | api/router.js:441-460 | a path is unknown exactly when it is not one of the served paths, and the 404 message is "Unknown route /api" followed by the path |
| Router.UnknownNamesRequest | api/router.js:441-460 | a request for "/api" + q with an unserved q is answered with a 404 naming exactly the requested path |
| Router.ShipdayAliases | api/router.js:455 | "/shipday" and "/export/shipday" reach the same handler |
| Router.ShipdayPaths | api/router.js:88-93 | "/api/shipday" and "/api/export/shipday" are routed on "/shipday" and "/export/shipday" |
| Router.ItemsAliases | api/router.js:449 | "/api/items" and "/api/order-items" reach the same handler |
| Router.DeliverByValue | api/router.js:207 | a date is kept exactly when the field is text that is not blank after trimming, and then it is the trimmed text; null, missing and blank all clear it |
| Router.CheckDeliverBy | api/router.js:200-214 | "Missing shop or orderId" exactly when either is empty; "Bad date format (YYYY-MM-DD)" exactly when both are present and a kept date does not match dddd-dd-dd; otherwise accepted with the lower-cased shop and a well-formed or cleared date |
| Router.DeliverByStable | api/router.js:207-217 | null and missing clear the date; an accepted date sent back as answered is accepted again unchanged |
| Router.CheckOrderTags | api/router.js:237-249 | a tag request passes exactly when the tags endpoint's validation passes; a passing request has a shop and an order id, and a tag unless the action is "set" |
| Router.TagChecksAgree | api/router.js:248-249 | every tag request the router turns away, the tags endpoint turns away with the same 400 message and no write |
| Tags.Labels | api/orders/tags.js:108-111 | every label read from TAGS is non-empty |
| Tags.LabelsWellFormed | api/orders/tags.js:108-111 | every label read from TAGS is trimmed, non-empty and free of commas |
| Tags.LabelsOfSerialize | api/orders/tags.js:108-130 | reading back the ", "-joined value of well-formed labels gives the same labels |
| Tags.LabelsStable | api/orders/tags.js:108-130 | reading, writing and reading a TAGS value again gives the labels of the first read |
| Tags.Add | api/orders/tags.js:115-117 | the labels are a prefix of the result, which has the tag (ignoring case); the labels are unchanged exactly when some label already equals the tag ignoring case, and otherwise the tag is appended once |
| Tags.Remove | api/orders/tags.js:118-119 | no label equal to the tag ignoring case survives; every other label is kept with its number of occurrences |
| Tags.RemoveAppend | api/orders/tags.js:118-119 | removal works label by label: removing from a concatenation is concatenating the removals, so the kept labels stay in order |
| Tags.AddIdempotent | api/orders/tags.js:115-117 | adding a tag twice is adding it once |
| Tags.AddKeepsDuplicates | api/orders/tags.js:116-117 | `add` only tests for the tag: labels already duplicated in different case are kept as they are |
| Tags.RemoveIdempotent | api/orders/tags.js:118-119 | removing a tag twice is removing it once |
| Tags.RemoveAbsent | api/orders/tags.js:118-119 | removing an absent tag changes nothing |
| Tags.RemoveAfterAdd | api/orders/tags.js:115-119 | removing a tag just added gives the labels with that tag removed |
| Tags.OrText | api/orders/tags.js:86-89 | `String(v \|\| d)`: the value when it is non-empty text, otherwise the default |
| Tags.CleanTags | api/orders/tags.js:90-92 | every label of a tags array is the trim of some entry, non-empty and trimmed |
| Tags.ActionOf | api/orders/tags.js:88 | a missing or empty action is "add"; any other is lower-cased |
| Tags.ParseTagRequest | api/orders/tags.js:85-92 | the shop is lower-cased, the action defaults to "add", the tag is trimmed, and a tags array (and only an array) gives trimmed non-empty labels |
| Tags.Validate | api/orders/tags.js:94-95 | a request may proceed exactly when it has a shop, an order id, and a tag unless the action is "set" |
| Tags.Next | api/orders/tags.js:113-124 | the bad-action error exactly for an action other than add, remove and set; otherwise the labels after the add, the remove, or the given list (empty when none) |
| Tags.Decide | api/orders/tags.js:94-124 | a write targets the first row of the shop-filtered query with the lower-cased shop and exact order id and carries the edited labels; a validation failure is that 400; no matching row is a 404 "Order not found"; rejections are 400 or 404 only |
| Tags.Handle | api/orders/tags.js:75-142 | a failure changes neither the orders nor the cache; the number of orders never changes; a success leaves no cached entry tagged "orders" |
| Tags.HandleAsWritten | api/orders/tags.js:98-131 | as written, nothing is ever written and no request is answered with labels |
| Tags.AsWrittenNeverSucceeds | api/orders/tags.js:98-140 | the written handler agrees with the intended one on every rejection, and answers every request the intended one accepts with a 500 |
| Tags.AsWrittenLosesAdd | api/orders/tags.js:98-140 | adding "rush" to an existing order labelled "vip" answers ["vip", "rush"] as intended but a 500 as written |
| Tags.HandleWritesWhatItAnswers | api/orders/tags.js:113-138 | on success the answer is the decided labels, only the picked order's TAGS is rewritten, and reading that column back gives exactly the answered labels when the request's labels carry no comma |
| Tags.NextWellFormed | api/orders/tags.js:113-124 | edits keep labels well formed when the request's labels carry no comma |
| Tags.HandleRejects | api/orders/tags.js:94-106 | a missing shop or order id, a missing tag and an unknown order each give their 400 or 404 message and write nothing |
| Summary.StatusOfTags | api/orders/summary.js:94-99 | complete exactly when the lower-cased tags contain "complete"; cancel exactly when they contain "cancel" but not "complete"; shipped and processing likewise down the priority order |
| Summary.Bump | api/orders/summary.js:124-134 | one loop step adds one to the order's status counter and, for an express order, one to that status's express counter, and nothing else |
| Summary.SummariseCounts | api/orders/summary.js:109-135 | the total is the number of rows, each status counter is the number of rows with that status, and each express counter the number of express rows with that status |
| Summary.SummariseTotal | api/orders/summary.js:109-135 | the five status counters add up to the total |
| Summary.SummariseExpress | api/orders/summary.js:106-135 | each express counter is at most its status counter, and the express counters add up to the number of rows whose shipping method has the whole word "express" |
| Summary.StatusIgnoresFulfillment | api/orders/summary.js:101-103 | the fulfilment status never changes an order's status (both fallback branches return pending) |
| Summary.NoKeywordIsPending | api/orders/summary.js:94-103 | an order without any of the four words in its tags is pending |
| Summary.SubstringComplete | api/orders/summary.js:95-96 | matching is by substring: any tag text containing "complete" classifies as complete |
| Summary.IncompleteIsComplete | api/orders/summary.js:95-96 | the tag "incomplete" classifies as complete |
| Runs.StampText | api/runs/list.js:23-24 | the date text of a stop is its first non-empty field among DONE_AT, UPDATED_AT and START_TS |
| Runs.Latest | api/runs/list.js:20-27 | the reduce keeps exactly one entry per RUN_ID\|STOP_ID key that occurs among the stops |
| Runs.SurvivorUnique | api/runs/list.js:20-27 | at most one record of a stop can be the surviving one |
| Runs.LatestSnoc | api/runs/list.js:22-25 | one more stop takes its key when the key is new or its date is not older than the kept one's (a NaN date on either side never replaces) |
| Runs.LatestSurvivor | api/runs/list.js:20-27 | the stop kept under each key is a record of that key that survives: the greatest valid date with ties going to the later row, or the first record when that one's date is invalid |
| Runs.Survivors | api/runs/list.js:34 | one stop per key, in the order keys were first seen |
| Runs.SurvivorsSpec | api/runs/list.js:20-34 | every stop in the answer is the surviving record of its key, and every surviving record is in the answer |
| Runs.StopsOf | api/runs/list.js:16-17 | a stop is kept exactly when its RUN_ID is the RUN_ID of some selected run (a missing one matching a missing one) |
| Runs.Assemble | api/runs/list.js:29-35 | one answer per selected run with its RUN_ID, DRIVER_ID, DATE and STATUS, holding exactly the surviving stops with its RUN_ID |
| Runs.ListRuns | api/runs/list.js:11-35 | one answer per run whose DATE starts with the day |
| Runs.ListRunsSpec | api/runs/list.js:11-35 | every listed run is a run of the day and carries exactly the surviving records of the stops of its id |
| Runs.ForDriver | api/for-driver.js:11-13 | a blank driver id is refused with "driverId required", and only then |
| Runs.ForDriverSpec | api/for-driver.js:11-40 | the runs answered are exactly the driver's runs of the day, and each carries exactly the surviving records of the stops of its id |
| Sheets.RowToObj | api/lib/sheets.js:61-65 | a row read as an object has exactly the header names as keys |
| Sheets.RowToObjAt | api/lib/sheets.js:61-65 | a header not repeated later reads the cell in its own column, "" past the end of a short row |
| Sheets.RowToObjLastWins | api/lib/sheets.js:63 | of repeated headers the last column wins |
| Sheets.ObjToRow | api/lib/sheets.js:66-68 | a written row has one cell per header, the object's field or "" |
| Sheets.ObjToRowOfRowToObj | api/lib/sheets.js:61-68 | reading a row and writing it back under distinct headers gives the row cut or padded with "" to the header width |
| Sheets.RowToObjOfObjToRow | api/lib/sheets.js:61-68 | writing an object and reading it back keeps exactly its fields under the headers, "" for those it lacks, even with repeated headers |
| Sheets.GetAll | api/lib/sheets.js:70-80 | one object per data row, read under the header row |
| Sheets.AppendObjects | api/lib/sheets.js:82-93 | the objects are appended as rows written under the tab's headers, and nothing else changes |
| Sheets.UpsertOrder | api/lib/sheets.js:95-133 | an insert happens exactly when no row has the order's shop (case-blind) and id, and appends one row; a skip leaves the table as it was; otherwise the row count is unchanged |
| Sheets.UpsertExisting | api/lib/sheets.js:100-128 | for the first matching row, the call skips exactly when the update is not newer and changes neither TAGS nor DELIVER_BY; otherwise that row alone is rewritten with the incoming fields over the stored ones |
| Sheets.MergedRow | api/lib/sheets.js:117 | each cell of the merged row is the incoming field where there is one, else the stored one |
| Sheets.WrittenRowMatches | api/lib/sheets.js:100-117 | the row an upsert writes reads back as a match of the same order that the same order leaves unchanged |
| Sheets.UpsertTwice | api/lib/sheets.js:95-133 | upserting the same order twice: the second call skips and leaves the table as the first left it, when the tab has the compared columns and the order carries them |
| Sheets.UpsertOrderByTime | lib/sheets.js:67-103 | the older copy inserts exactly when no row has exactly the same shop and id, appending one row; a skip leaves the table as it was |
| Sheets.UpsertByTimeRule | lib/sheets.js:77-98 | the older copy skips a matched row exactly when both times are valid and the incoming one is not later, ignoring tag changes; an invalid incoming time always rewrites the row |
| Sheets.UpsertOrderField | api/lib/sheets.js:25-51 | "Order not found" exactly when no row has the shop (case-blind) and the id; otherwise the headers and row count are kept |
| Sheets.UpsertOrderFieldOnlyField | api/lib/sheets.js:25-51 | under distinct headers only the named cell of the first matching row changes (to the value, or "" for none); every other cell and row is kept |
| Sheets.MarkWorkDone | api/lib/sheets.js:169-196 | "WORK_ID not found" exactly when no entry has the id; otherwise the headers and row count are kept |
| Sheets.MarkWorkDoneOnlyStatus | api/lib/sheets.js:169-196 | completing an entry sets its STATUS to "done" and END_TS to the time given, and leaves its other cells and every other row as they were |
| Sheets.WriteLineItems | api/lib/sheets.js:137-141 | no items leave the tab alone; otherwise one row per item is appended after the existing rows, which are kept |
| Sheets.WriteLineItemsStamp | api/lib/sheets.js:137-141 | each appended row carries the batch stamp under BATCH_TS and the item's own field, or "", in every other column |
| Sheets.MaxBatch | api/lib/sheets.js:147 | `Math.max` of the batch stamps is at least each of them and equal to one of them |
| Sheets.GetLatestItems | api/lib/sheets.js:143-149 | an item is returned exactly when it has the shop and order id (compared exactly) and no item of that order has a later batch stamp |
| Sheets.LatestOneBatch | api/lib/sheets.js:143-149 | all returned items share one batch stamp |
| Shopify.Tidy | shopify.js:20-23 | the trimmed, cleaned text holds only digits and "+", and it starts with "+" exactly when the cleaned text started with "+" or "00" |
| Shopify.Phone | shopify.js:19-26 | a blank input gives ""; the result holds only digits and "+", and a "+" can appear only in front; it starts with "+" exactly when the tidied text does, and otherwise it is the tidied text's digits |
| Shopify.PhoneLb | api/lib/shopify.js:41-68 | a blank input gives ""; the result is "", all digits, or "'+" followed by digits and "+"; for a Lebanese country (any case of "lebanon" or "lb") it is "" or starts with "'+" |
| Shopify.LbDigits | api/lib/shopify.js:53-61 | the Lebanese rewrite gives a "+" number whenever the digits are non-empty, and leaves the text alone when there are none |
| Shopify.PhoneLbOfPhone | api/lib/shopify.js:41-68 | relates the two versions for every input: the api version is the root version behind an apostrophe when that starts with "+"; for a Lebanese number without "+" it is "'+961" followed by the number without its leading 0; otherwise the two are the same |
| Shopify.PhoneDoubleZero | shopify.js:23 | "00" followed by digits becomes "+" followed by the same digits |
| Shopify.PhoneNotIdempotent | shopify.js:22-24 | normalising twice can differ from normalising once: "0+0" followed by digits gives "00…", and a second pass turns that into "+…" |
| Shopify.PhoneStable | shopify.js:19-26 | a normalised number that does not start with "00" is a fixed point of normalisation |
| Shopify.Present | api/lib/shopify.js:79-80 | `.filter(Boolean)` keeps exactly the present, non-empty texts |
| Shopify.ShipName | api/lib/shopify.js:99 | the ship-to name is first and last name joined by a space when both are present, else whichever one is present, else "" |
| Shopify.DiscountCodes | api/lib/shopify.js:79-81 | a payload without a discount-code array gives "" |
| Shopify.DiscountCodesSplit | api/lib/shopify.js:117 | splitting DISCOUNT_CODES on "," gives back the present codes when none of them contains a comma |
| Shopify.LibImage | api/lib/shopify.js:138-140 | IMAGE is `image.src` when present, else the value of the first `_image` property, else "" |
| Shopify.LibItem | api/lib/shopify.js:121-147 | a line row carries the shop and `String(o.id ?? "")`; QUANTITY is `Number(quantity ?? 0)`; FULFILLABLE falls back to the quantity; IMAGE is LibImage |
| Shopify.LibNormalize | api/lib/shopify.js:73-151 | the order row keeps the shop as given and carries ship name, Lebanese-aware phone and discount codes; it writes no DELIVER_BY or NOTE_LOCAL; there is one line row per line item, in order and unfiltered |
| Shopify.RootOrderId | shopify.js:33-43 | ORDER_ID is `id`, else `order_id`, else the last "/" segment of `admin_graphql_api_id`, else ""; a falsy id gives "" |
| Shopify.RootLineId | shopify.js:90-94 | LINE_ID is `String(li.id)` when non-empty, else "no_line_id_" followed by at most 40 characters of variant id, product id, title or "x" |
| Shopify.RootItem | shopify.js:84-114 | a line row carries its order's shop and id; QUANTITY falls back from `current_quantity` to `quantity` to 0; FULFILLABLE also tries `fulfillable_quantity` first; IMAGE is `image.src` or "" |
| Shopify.RootNormalize | shopify.js:28-122 | the shop is lower-cased; ORDER_ID is RootOrderId; the phone is the root normalisation; DELIVER_BY and NOTE_LOCAL are null; every kept line row carries the order's shop and id and has a positive quantity |
| Shopify.RootItemsExactly | shopify.js:82-118 | the kept line rows are exactly the mapped line items whose quantity is a positive number, so no line with a positive quantity is lost |
| Catalog.FoldedIs | server/lib/shopifyCatalog.js:5-7 | the first steps of `norm` are the trim followed by the lower-casing |
| Catalog.CollapseSpaces | server/lib/shopifyCatalog.js:8 | collapsing white-space runs never lengthens the text |
| Catalog.CollapseKeeps | server/lib/shopifyCatalog.js:8 | the collapse brings in no character but the space |
| Catalog.UndashNoDash | server/lib/shopifyCatalog.js:10 | no `_` or `-` survives the dash replacement |
| Catalog.Quotes | server/lib/shopifyCatalog.js:9 | replacing the quote characters keeps the length |
| Catalog.NormNoDash | server/lib/shopifyCatalog.js:4-11 | the normal form holds no `_` and no `-` |
| Catalog.NormKeepsBar | server/lib/shopifyCatalog.js:4-11 | the normal form of a text without `\|` holds no `\|` |
| Catalog.NormOfNormal | server/lib/shopifyCatalog.js:4-11 | a text already in normal form is its own normal form: trimmed, no upper-case ASCII letter, only single spaces, only `'` as quote, no `_` or `-` |
| Catalog.NormNotIdempotent | server/lib/shopifyCatalog.js:8-10 | `norm` is not idempotent: "a _ b" normalises to "a   b", which normalises again to "a b" |
| Catalog.KeySplit | server/lib/shopifyCatalog.js:13-15 | splitting a key on `\|` gives back the three normalised parts when no part holds a `\|` |
| Catalog.KeyIff | server/lib/shopifyCatalog.js:13-15 | two keys are equal exactly when title, colour and size agree after normalisation (for parts without `\|`) |
| Catalog.RangeDeadAsWritten | server/lib/shopifyCatalog.js:23-35 | as written, the range test reads the normal form, where no `-` is left, so it never succeeds; `looksLikeSize` reduces to the size set, the slash form, small numbers and prefixed numbers |
| Catalog.LooksLikeSizeWidens | server/lib/shopifyCatalog.js:23-35 | the corrected test accepts everything the written test accepts, and differs only on values whose trimmed, lower-cased form is a range |
| Catalog.RangeExample | server/lib/shopifyCatalog.js:28-31 | the range "32-34" named in the file's comment is rejected by the written test and accepted by the corrected one |
| Catalog.PickOption | server/lib/shopifyCatalog.js:37-44 | the value of the first option whose normalised name is one of the normalised aliases, or "" when there is none |
| Catalog.FoundSize | server/lib/shopifyCatalog.js:67-71 | the first option value the given size test accepts, or "" when there is none |
| Catalog.FoundColor | server/lib/shopifyCatalog.js:72-81 | the first option value that is non-empty, differs from the fabric in normal form and is not size-like under the given test, or "" when there is none |
| Catalog.InferColorSize | server/lib/shopifyCatalog.js:46-85 | under the given size test, the colour and size returned are trimmed |
| Catalog.InferNamed | server/lib/shopifyCatalog.js:53-64 | with both a colour and a size named, they are kept, or swapped exactly when the colour looks like a size under the given test and the size does not |
| Catalog.InferSize | server/lib/shopifyCatalog.js:67-71 | without a named size, the size is the first value the given test calls size-like, or "" when there is none |
| Catalog.InferColor | server/lib/shopifyCatalog.js:72-81 | without a named colour, the colour is the first non-empty value that is neither the fabric nor size-like under the given test, or "" when there is none |
| Catalog.InferFromOptions | server/lib/shopifyCatalog.js:46-85 | under either size test, the colour and the size are each "" or the trimmed value of one of the options |
| Catalog.InferSameTests | server/lib/shopifyCatalog.js:46-85 | two size tests that agree on every option value infer the same colour and size |
| Catalog.InferAgreesWithoutRanges | server/lib/shopifyCatalog.js:23-85 | when no option value is a range, the file's inference and the corrected one give the same colour and size |
| Catalog.InferRangeSwap | server/lib/shopifyCatalog.js:31-64 | with colour "32-34" and size "Red" named, the file keeps them as they are, and the corrected inference swaps them |
| Catalog.SwapOnlyCorrected | server/lib/shopifyCatalog.js:53-64 | named values where only the corrected test finds the colour size-like are kept by the file's inference and swapped by the corrected one |
| Catalog.InferRangeUnnamed | server/lib/shopifyCatalog.js:31-81 | a lone option "32-34" under no colour, size or fabric name is the colour under the file's test and the size under the corrected one |
| Catalog.LoneOnlyCorrected | server/lib/shopifyCatalog.js:67-81 | a lone unnamed value that only the corrected test finds size-like is the colour as written and the size when corrected |
| Catalog.LoneUnnamed | server/lib/shopifyCatalog.js:67-81 | a lone option under no alias is the size when the given test finds it size-like, and otherwise the colour |
| Catalog.RedNotSize | server/lib/shopifyCatalog.js:23-35 | "Red" is not size-like under either test |
| Catalog.ImageOf | server/lib/shopifyCatalog.js:137-142 | the image is the first non-empty of the variant image, the featured image and the first product image, and null when all three are missing |
| Catalog.ItemOf | server/lib/shopifyCatalog.js:125-152 | a variant yields an item exactly when its id has a non-empty last "/" segment; the item's id has no "/", and its title, sku, colour and size are trimmed, with colour and size inferred under the given size test |
| Catalog.ItemOfGid | server/lib/shopifyCatalog.js:126 | a global id ending in "/n" yields the item id n |
| Catalog.Items | server/lib/shopifyCatalog.js:124-164 | every variant with an id yields an item in the listing, and every item comes from a variant, with colour and size inferred under the given size test |
| Catalog.FirstWins | server/lib/shopifyCatalog.js:155-161 | the keys of the map are exactly the keys of the elements, and each key maps to the first element that has it |
| Catalog.VariantLookup | server/lib/shopifyCatalog.js:88-170 | a missing shop fails with "Missing shopDomain", and only a missing shop fails; the by-id map covers exactly the item ids; the by-key map covers exactly the keys of the items that have a title, with colour and size inferred under the given size test |
| Catalog.LookupFirstWins | server/lib/shopifyCatalog.js:155-161 | each variant id and each key maps to the first listed item that has it, with colour and size inferred under the given size test |
| StockCsv.Cell | server/lib/stockCsv.js:7-10 | a cell past the end of the record reads as "" |
| StockCsv.SafeNum | server/lib/stockCsv.js:12-15 | a blank cell is the number 0; a cell of digits is the number it spells |
| StockCsv.LowerIsIff | server/lib/stockCsv.js:42 | the character-by-character comparison holds exactly when the lower-cased title equals the word |
| StockCsv.BlockRow | server/lib/stockCsv.js:33-45 | every row a block yields has a trimmed, non-empty title that is not "product" or "title" in any case, and a trimmed colour and size |
| StockCsv.BlockRowIff | server/lib/stockCsv.js:39-42 | a block yields a row exactly when its title is non-empty and not a header and its quantity cell is a number |
| StockCsv.MissingQtyIsZero | server/lib/stockCsv.js:12-15 | a block whose quantity cell lies past the end of a short record still yields a row, with quantity 0 |
| StockCsv.RecordRows | server/lib/stockCsv.js:33-46 | a record yields at most seven rows, one per block |
| StockCsv.RecordRowsValid | server/lib/stockCsv.js:33-46 | every row a record yields is a valid stock row |
| StockCsv.JoinedValid | server/lib/stockCsv.js:29-59 | every row handed to `onRow` over any prefix of the records is a valid stock row |
| StockCsv.StreakRun | server/lib/stockCsv.js:48-49 | the empty streak is at least k exactly when the last k records yielded no row |
| StockCsv.StopFrom | server/lib/stockCsv.js:48-58 | reading resumed after m records stops after the first later record whose streak passes 5000, or at the end, and never before m |
| StockCsv.ReadYields | server/lib/stockCsv.js:29-63 | the rows handed out are those of the records read, in order; the number read is the stop point; without a stop every record is read; a stop happens at the first record where the streak passes 5000, and never earlier |
| StockCsv.Parse | server/lib/stockCsv.js:17-67 | the same contract as ReadYields, stated over the parsed records |
| StockCsv.StopIffRun | server/lib/stockCsv.js:48-58 | reading stops at a record exactly when it and the 5000 records before it yielded no row |
| StockImport.Entries | server/lib/routes/inventory.js:28-29 | each parsed row gives one entry |
| StockImport.KeysOf | server/lib/routes/inventory.js:27-32 | the keys of the sums, in first-appearance order, with no repeats, and exactly the keys of the rows |
| StockImport.Totals | server/lib/routes/inventory.js:27-32 | the sums are defined exactly on the keys of the rows |
| StockImport.TotalsSnoc | server/lib/routes/inventory.js:30-31 | one more row adds its quantity to its key's sum, starting from 0 for a new key |
| StockImport.Aggregate | server/lib/routes/inventory.js:27-32 | the aggregation loop yields the distinct keys in first-appearance order and each key's summed quantity |
| StockImport.AggregateConserves | server/lib/routes/inventory.js:27-32 | summing per key neither loses nor invents quantity: the per-key sums add up to the sum over all rows |
| StockImport.UnmatchedNames | server/lib/routes/inventory.js:44-45 | an unmatched key splits back into the normal forms of the row's title, colour and size when none holds a `\|` |
| StockImport.Partition | server/lib/routes/inventory.js:39-49 | every key becomes either an upsert or an unmatched entry |
| StockImport.PartitionFilters | server/lib/routes/inventory.js:39-49 | the upserts are the keys found in the lookup, in order; the unmatched entries are the other keys, in order |
| StockImport.ApplyItemsUntouched | server/lib/routes/inventory.js:65-70 | a variant that no upsert names keeps its stock row, or stays absent |
| StockImport.ApplyItemsLastWins | server/lib/routes/inventory.js:65-70 | an upsert overwrites the quantity: a variant ends with the quantity of the last upsert that names it |
| StockImport.Upsert | server/lib/routes/inventory.js:52-74 | upserts run in chunks of 500; without a failure every item is written and `matched` counts them all; a failing chunk leaves exactly the earlier chunks written, and `matched` counts those |
| StockImport.ImportEntries | server/lib/routes/inventory.js:26-85 | the report counts rows, distinct keys, matched upserts and unmatched keys; matched plus unmatched equals the distinct keys, which are at most the rows; the sample holds at most 50 entries; a failing statement answers its error |
| StockImport.Import | server/lib/routes/inventory.js:12-89 | a missing file or shop is an error that writes nothing; with both present and no database failure the request succeeds, and the answer is that of the rows of exactly the records the stock reader reads before it stops, against the shop's key lookup |
| StockImport.ImportAsWritten | server/lib/routes/inventory.js:14-17 | as written, the lookup is fetched without a shop, so every request fails ("Missing file" or "Missing shopDomain") and the stock table is never written |
| InventoryApply.OrderLines | server/lib/inventoryApply.js:12-14 | every row read belongs to the requested shop and order, and every such row of the table is read, as often as it occurs there |
| InventoryApply.GroupGrouped | server/lib/inventoryApply.js:12-15 | grouping by variant gives one request per distinct variant id (NULL included), each carrying the sum of that variant's quantities |
| InventoryApply.RequestsSumLines | server/lib/inventoryApply.js:10-18 | the requests name each variant of the order's lines exactly once, and each request's quantity is the sum over that variant's lines |
| InventoryApply.DropReserves | server/lib/inventoryApply.js:73-76 | exactly the reservations of this shop and order are deleted; all others keep their quantity |
| InventoryApply.Apply | server/lib/inventoryApply.js:4-86 | a blank shop or order (after lower-casing and trimming) answers `missing_shop_or_order`; only a blank one does; a refusal or a failure leaves the ledger unchanged (rollback); an order without line items answers `applied: 0` and writes nothing |
| InventoryApply.StepExtends | server/lib/inventoryApply.js:28-71 | one loop iteration adds either nothing, or one negative move for this order together with that variant's stock decremented by the move's amount, with a floor at 0 |
| InventoryApply.StepDeltas | server/lib/inventoryApply.js:33-41 | the move one iteration adds holds minus its request's total |
| InventoryApply.FirstMoveIs | server/lib/inventoryApply.js:28-47 | the delta found for a key belongs to the first applicable request with that key, and no earlier request has the key |
| InventoryApply.DeltasCons | server/lib/inventoryApply.js:28-47 | an iteration followed by the loop over the remaining requests records, for each new move, minus the total of the first applicable request with its key |
| InventoryApply.RunExtends | server/lib/inventoryApply.js:28-72 | a successful loop adds exactly `applied` moves, all negative and for this order, each holding minus the total of the first applicable request with its key; it leaves earlier moves and the reservations alone, and changes only the stock of the newly moved variants, each decremented by its move with a floor at 0 |
| InventoryApply.RunCovers | server/lib/inventoryApply.js:28-47 | after a successful loop, every applicable request (non-blank variant, positive total) has its move recorded |
| InventoryApply.RunNoop | server/lib/inventoryApply.js:42-47 | when every applicable request already has its move, the loop changes nothing and applies nothing |
| InventoryApply.ApplyEffect | server/lib/inventoryApply.js:28-79 | a successful call adds exactly `applied` new moves for this order, each holding the delta its key gets from the grouped requests, decrements each moved variant's stock by its move with a floor at 0, and deletes exactly this order's reservations without crediting stock back |
| InventoryApply.ApplyAmounts | server/lib/inventoryApply.js:10-65 | each move a successful call adds holds minus the summed quantity of the order's line items of one variant whose trimmed id is the move's, and that variant's stock drops by the same sum, floored at 0 |
| InventoryApply.ExtendsAmounts | server/lib/inventoryApply.js:10-65 | over grouped requests, every new move and the stock of its variant carry the summed quantity of that variant's line items |
| InventoryApply.AmountOf | server/lib/inventoryApply.js:10-41 | the delta a grouped run gives a key is minus the summed quantity of the lines of one variant whose trimmed id is the key's |
| InventoryApply.ApplyStockFloor | server/lib/inventoryApply.js:65 | starting from non-negative stock, stock stays non-negative |
| InventoryApply.ApplyTwice | server/lib/inventoryApply.js:33-47 | the intended deduction is idempotent: a second call for the same order answers `applied: 0` and leaves the ledger as the first call left it |
| InventoryApply.ApplyCovered | server/lib/inventoryApply.js:28-79 | when every request already has its move and the order has no reservations left, a call answers `applied: 0` and changes nothing |
| InventoryApply.ApplyAsWritten | server/lib/inventoryApply.js:34-49 | as written, a refusal or a failure leaves the ledger unchanged |
| InventoryApply.RunAsWrittenFails | server/lib/inventoryApply.js:34-52 | as written, once one applicable request already has its move, the loop fails: the duplicate-key error is caught, but the transaction is already aborted, so the next statement fails |
| InventoryApply.AsWrittenNotIdempotent | server/lib/inventoryApply.js:34-52 | as written, repeating a call that applied something fails with "current transaction is aborted" and changes nothing, where the intended code answers `applied: 0` |
| InventoryApply.AsWrittenAborts | server/lib/inventoryApply.js:34-82 | as written, a call in which one applicable request already has its move answers the aborted-transaction error and rolls back |
| Grouping.AddMark | api/picking-list.js:70 | adding an order to a group appends its name when the name is new and otherwise keeps every name in place |
| Grouping.AddMarkFor | api/router.js:352-358 | re-adding an order ORs its express and old flags into the earlier entry and takes the newest date; every other order's entry is unchanged |
| Grouping.Step | api/picking-list.js:67-70 | adding a line keeps the group's key and catalogue fields, adds its quantity to the total, records its order, and keeps the first non-empty image |
| Grouping.AddLine | api/picking-list.js:52-71 | the groups' keys after a line are the keys before it, plus the line's key when it is new |
| Grouping.AddLineFor | api/picking-list.js:56-70 | a line changes only its own key's group: that group is stepped, and created first when the key is new |
| Grouping.GroupKeys | api/picking-list.js:49-77 | every key of the lines appears in exactly one group, in first-seen order |
| Grouping.GroupForHead | api/picking-list.js:56-69 | a key has a group exactly when some line has that key; the group takes SKU, title and variant title from the key's first line, and the first non-empty image among its lines |
| Grouping.GroupForTotal | api/picking-list.js:68 | a group's total is the sum of the quantities of its lines |
| Grouping.GroupForNames | api/picking-list.js:70 | a group's orders are the distinct order names of its lines, in first-seen order |
| Grouping.GroupFlags | api/router.js:352-358 | an order's entry in a group is flagged express (or old) exactly when one of the group's lines of that order is |
| Grouping.GroupMember | api/picking-list.js:49-75 | each output group is described by its lines alone: first line's catalogue fields, first non-empty image, summed quantity, distinct order names |
| Grouping.GroupMemberFlags | api/router.js:352-362 | each output group's order flags are the OR of the flags of that order's lines in the group |
| Grouping.InsertDesc | api/picking-list.js:77 | inserting into a list sorted by descending weight keeps it sorted and adds exactly the new element |
| Grouping.SortDesc | api/picking-list.js:77 | sorting by descending total gives a permutation of the input in non-increasing order |
| Grouping.SortDescStable | api/picking-list.js:77 | the sort is stable: of two groups with equal totals, the earlier one stays first |
| Picking.BatchMax | api/picking-list.js:35-42 | the map of largest batch stamps has an entry for exactly the keys that occur among the items |
| Picking.BatchMaxSpec | api/picking-list.js:35-42 | each key's entry is at least every stamp of that key, and is the stamp of some item of that key |
| Picking.LatestOnlySpec | api/picking-list.js:43-46 | an item survives the latest-batch filter exactly when no item of its key has a larger stamp |
| Picking.NameOrId | api/picking-list.js:50 | an order's label is never empty |
| Picking.OrderFor | api/picking-list.js:50 | an id's order is found exactly when some order has that id, and the order found has that id |
| Picking.OrderForLast | api/picking-list.js:50 | the order found is the last with that id: no later order carries it (a later `Map` entry overwrites an earlier one) |
| Rows.OrderDate | api/picking-list.js:19 | `CREATED_AT \|\| UPDATED_AT`: a non-empty creation stamp wins; the date is one of the two stamps, and empty exactly when both are |
| Rows.PickQty | api/picking-list.js:55 | `FULFILLABLE_QUANTITY ?? QUANTITY ?? 0`: a present fulfillable quantity wins even when 0; the result is 0 exactly when the winning quantity is 0 or both are missing, and otherwise it is one of the two |
| Picking.SheetLine | api/picking-list.js:53-55 | the group key is the trimmed SKU when non-empty, else "TITLE\|VARIANT_TITLE"; the quantity falls back from fulfillable to quantity to 0; the order label is recorded without flags |
| Picking.SheetLines | api/picking-list.js:52-71 | each item becomes one line, labelled with its order's name |
| Picking.PositiveSortedSpec | api/picking-list.js:74-77 | the response rows are exactly the groups with a positive total, each once, largest first |
| Picking.PickingListItems | api/picking-list.js:17-46 | an item reaches the grouping exactly when it is of the requested shop, belongs to an order of that shop inside the date window, and carries the largest stamp among the kept items of its "shop\|order" key |
| Picking.PickingListGroups | api/picking-list.js:49-79 | every returned group has a positive total equal to the sum of its lines' quantities, and lists the distinct order names of its lines; the list is largest first |
| Picking.PickingSearch | api/picking.js:17-69 | the search filters finished rows: it keeps exactly the positive groups whose SKU, title or variant contains the lower-cased search text, still largest first |
| Picking.FilterSorted | api/picking.js:63-69 | filtering a list that is sorted by descending total keeps it sorted |
| Picking.PickingItems | api/picking.js:22-41 | an item reaches the grouping exactly when it is of the shop (case ignored), belongs to an order of that shop, and carries the largest stamp among the items of its lower-cased "shop\|order" key |
| Picking.PoolSpec | api/picking.js:28-31 | an item is in the pool exactly when it is of the shop and some kept order has its id |
| Picking.PrintLines | api/print/picking.js:40-43 | the search drops lines and never adds any |
| Picking.OrderList | api/print/picking.js:13 | the order list holds no empty id |
| Picking.RecentOrders | api/print-picking.js:24 | at most 50 orders are read |
| Picking.RecentOrdersWindow | api/print-picking.js:22-24 | without an order list, the ids read are distinct ids of the item table; when there are at most 50, they are all of them, in first-seen order |
| Picking.PrintPickingFor | api/print/picking.js:12-15 | a blank shop answers "Missing shop", and only a blank shop does |
| Picking.PrintPicking | api/print-picking.js:18-20 | a blank shop is refused, and only a blank shop is |
| Picking.PrintHandlersAgree | api/print/picking.js:17-62 | without an order list, the two print handlers give the same rows |
| Picking.PrintPickingRows | api/print-picking.js:26-51 | the rows are all the groups of the searched lines, largest first, with no positive-total filter, and every line matches the search |
| Picking.LatestForItems | api/print-picking.js:27-30 | every item printed for an order is one of its rows in its latest batch, the shop compared exactly |
| Picking.RouterLine | api/router.js:326-334 | a store line carries its order's label; it is express exactly when the shipping method has the word "express", and old exactly when the order is more than seven days old and not tagged "shipped" |
| Picking.RouterIds | api/router.js:307-313 | the ids read are distinct, and each has a kept order |
| Picking.RouterPickingList | api/router.js:291-367 | the request fails exactly when some kept order with items has no valid date; otherwise the answer is the positive groups of the kept orders' store lines, largest first |
| Picking.RouterLineOf | api/router.js:312-316 | every grouped line comes from a store item of one of the kept orders, tagged with that order |
| Picking.RouterFlags | api/router.js:348-364 | each returned group has a positive total; an order in it is flagged express (or old) exactly when one of the group's lines of that order is |
| Picking.Esc | api/picking.js:5-7 | the escaped text contains no `<`, `>`, `"` or `'` |
| Picking.UnescapeEsc | api/print-picking.js:7-10 | escaping loses nothing: reading the entities back gives the original text |

## Left out

- HTTP plumbing is not modelled: methods, CORS headers, the body readers, status codes of wrong methods, response caching headers, and the HTML page templates. Only the escaping of the HTML is modelled.
- Google Sheets, Postgres and the Shopify Admin and GraphQL APIs are not modelled as I/O. Each call is one atomic step over an in-memory table, and the GraphQL pages are given already concatenated.
- The CSV parser (`csv-parse`) is not modelled: the stock reader receives its records already split into trimmed cells, and `skip_empty_lines` is taken as applied. A call to `onRow` that the parser makes after the stop has begun is not modelled either.
- Number texts: `Number(...)` is modelled for integer texts only. Fractions, exponents, hex and `Infinity` are read as not-a-number.
- Money amounts (prices, totals, `unit * qty`) are carried as texts or integers; floating point is not modelled.
- Lower-casing is ASCII-only; other Unicode case mappings are not modelled.
- Clocks, `new Date(...)` parsing, `Date.now()`, the database's `now()` and batch timestamps are parameters.
- The webhook HMAC check is not modelled (cryptography). Neither are `enrichLineItemImages`, `getOrder` and `setOrderTags` in `api/lib/shopify.js`, which only make network calls.
- The router's request coalescing and concurrency handling are not modelled (concurrency).
- `runs/list.js` and `for-driver.js` read `Tabs.DRIVER_RUN` and `Tabs.DRIVER_STOP`, which neither sheets module defines. The run and stop tables are parameters.
- `api/router.js` imports functions that `api/lib/db.js` does not export (among them `setOrderTags` and `setDeliverBy`), so those handlers cannot run as written. Only the pure helpers and request checks they share are modelled.
- `getOrders` in `api/lib/db.js` ignores its `limit` argument. The model passes every order of the shop, as the query does.
- Page.Handle: the sort itself is not modelled. Its comparator never returns 0, so the order of rows with equal `CREATED_AT` is left to the engine. The handler takes the sorted rows through `order`, which must give a permutation of the shop's rows, newest first.
- StockImport.Import: keys are inferred with the corrected size test, the intended program. They agree with the file's keys whenever no option value is a range such as "32-34" (`Catalog.InferAgreesWithoutRanges`).
- Utf8.Decode: an ill-formed sequence reads as one U+FFFD per byte, where Node's decoder writes one per maximal subpart. The number a cursor reads as is the same either way, since any U+FFFD makes `Number` NaN.
- Shipday.RouterSelection: the creation stamp is taken to reach the handler as ISO text. The column types of `tbl_order` are not part of this model. If `created_at` is a timestamp column, `pg` returns a `Date`, and `String(date).slice(0, 10)` is text like "Sun Oct 11". Then no order falls on a `YYYY-MM-DD` day, and the export is the header alone (`Shipday.RouterRowsLetterStamps`).
- Sheets.WrittenRowMatches: assumes the written cells read back verbatim. The write uses `valueInputOption: USER_ENTERED`, so Sheets re-parses what it is given: "007" becomes 7, "=1+1" becomes a formula's result, and date-like text becomes a serial number. The lemma holds only for cells Sheets stores as typed.
- Sheets.UpsertTwice: rests on the same verbatim read-back, so it holds only when the compared cells are ones Sheets stores as typed.
- The Sheets update range is computed as `String.fromCharCode(64 + headers.length)`, which is wrong past 26 columns. The model writes the whole row and ignores the range text.
- The stock upsert has no transaction, and a failing chunk leaves the earlier chunks written; the model keeps that. Two upserts of the same variant within one chunk (a Postgres error) are not modelled.
- The `tip` text of the stock import report is not modelled.
- `api/webhooks/shopify.js`, `server/lib/shopifyClient.js`, `lib/shopify.js` and the other context files are not part of this model, beyond the calls the core makes into them.
- Warehouse scan tokens, stock reservation and release, and fulfilment actions are not modelled: none of the modelled files implements them.

## Findings

| source | as written | input that shows it | evidently intended | confidence | as-written member | corrected member |
|---|---|---|---|---|---|---|
| server/lib/inventoryApply.js:34-49 | a duplicate-move error is caught and the loop continues, but Postgres has already aborted the transaction (there is no savepoint), so the next statement fails and the whole call rolls back | a second call for an order whose first call applied at least one variant | an existing move is skipped, and the second call answers `applied: 0` | not executed | InventoryApply.ApplyAsWritten (InventoryApply.AsWrittenNotIdempotent, InventoryApply.AsWrittenAborts) | InventoryApply.Apply (InventoryApply.ApplyTwice) |
| api/orders/tags.js:98-131 | the write goes through `updateOrderField`, which `api/lib/db.js` does not export, so every accepted request ends in a 500 and nothing is written | adding "rush" to order 7 of shop "s", which is labelled "vip" | the tag is written, and the answer is the new labels ["vip", "rush"] | not executed | Tags.HandleAsWritten (Tags.AsWrittenLosesAdd, Tags.AsWrittenNeverSucceeds) | Tags.Handle (Tags.HandleWritesWhatItAnswers) |
| server/lib/shopifyCatalog.js:31 | the range test runs on `norm(v)`, and `norm` has already replaced every `-` with a space, so it never matches | the value "32-34", named as a range in the file's own comment | "32-34" looks like a size | not executed | Catalog.RangeDeadAsWritten (Catalog.RangeExample, Catalog.InferRangeSwap, Catalog.InferRangeUnnamed) | Catalog.LooksLikeSize (Catalog.LooksLikeSizeWidens, Catalog.InferAgreesWithoutRanges) |
| server/lib/routes/inventory.js:17 | `fetchVariantLookup()` is called without a shop, so it throws "Missing shopDomain" and every import fails | any upload | the catalogue of the requesting shop is fetched, and matched rows are written | not executed | StockImport.ImportAsWritten | StockImport.Import |
