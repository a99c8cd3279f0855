# ZIP Locale Detail refresh: a Dafny model

The script `scripts/update.js` refreshes a local copy of the USPS "ZIP Locale
Detail" spreadsheet. It fetches the PostalPro page and reads the page's
last-updated date. It compares that date with the marker stored by the last
run. It stops only when the page date and the stored date both parse and the
page date is not later; when either is missing or does not parse, it goes on.
It then finds the spreadsheet link and downloads the file. It renames the
spreadsheet's columns into locale records, writes the full dataset, writes one
file per physical state, and, when the page date parsed, finally stores the
trimmed date text as the new marker.

This project models the decisions inside `main()` and proves properties about
them:

- `Gate`: the change gate. Date parsing is a parameter `parse: string -> Option<int>`,
  which gives a timestamp, or `None` for an invalid date.
- `Links`: resolving the download link against the site origin.
- `Normalize`: the fixed column-to-field renaming, applied row by row.
- `Partition`: the loop that groups records into a dictionary keyed by state.
  It is a method with a loop invariant, proved against a reference
  definition: `Bucket` gives the records of one key, and `StateKeys` gives the
  keys in first-seen order.
- `Update`: the whole run. `Run` is the imperative method. `Pipeline` is its
  reference function. The outcome is `Skipped`, `LinkNotFound`, or
  `Completed(fileUrl, writes)`, where `writes` logs the file writes in the
  order they happen.
- `Values` and `Strings`: spreadsheet cells (`Text`, `Null` for a blank cell,
  `Undefined` for a column the sheet lacks), JavaScript truthiness, `trim`
  and `startsWith`.

The HTML scraping, the network, the spreadsheet decoder and the filesystem
are not modelled. Their results are the fields of `Update.Inputs`:

- the raw date text;
- the link's `href`, if any;
- the stored marker's contents, if the file exists;
- the decoded rows.

A column the sheet does not have reads as `undefined`, and `JSON.stringify`
leaves that key out. Only a blank cell under an existing header is `null`,
because of `defval: null`. `Cell` keeps the two apart, and `Values.Lookup` is
the plain JavaScript `r[col]` read.

A relative link is joined to the origin with no separator
(`Links.ResolveJoinsWithoutSeparator`). So a link without a leading `/` runs
into the host name. The model keeps this behaviour.

The reference definitions that the contracts below are stated over are
`Gate.PageDate` (scripts/update.js:59, an empty page text gives no date),
`Gate.Skips` (scripts/update.js:73, both dates present and the page date not
later), `Normalize.NormalizeRow` (scripts/update.js:111-123, the record
literal reading the eleven headers), `Update.RunWrites`
(scripts/update.js:129-161, the full dataset, then the state files in key
order, then the marker if any),
`Gate.LastKnownDate` (scripts/update.js:67-71, the trimmed marker parsed, or
nothing when there is no marker), `Links.LinkPresent` (scripts/update.js:84,
the `href` is present and non-empty), `Update.MarkerText`
(scripts/update.js:159-161, the page text when its date parsed) and
`Update.Pipeline` (scripts/update.js:40-163, the whole run as one function).

## Model

| member | source | states |
|---|---|---|
| `Strings.Trim` | scripts/update.js:52-57 | the result is a slice of the input with only whitespace cut off before and after it; it has no whitespace at either end, and an already trimmed string is returned unchanged |
| `Strings.TrimSlice` | scripts/update.js:52-57 | trimming the start and then the end leaves a contiguous slice of the input, with only whitespace outside it |
| `Strings.TrimIdempotent` | scripts/update.js:69 | trimming twice is the same as trimming once, so the stored page text reads back as the same text |
| `Links.ResolveLink` | scripts/update.js:88-90 | the URL always starts with "http" and ends with the link; a link starting with "http" is kept, any other gets the origin in front |
| `Links.ResolveLinkIdempotent` | scripts/update.js:88-90 | resolving an already resolved URL changes nothing |
| `Links.ResolveRelativeExample` | scripts/update.js:88-90 | "/x/ZIP_Locale_Detail.xls" resolves to the origin followed by that path |
| `Links.ResolveAbsoluteExample` | scripts/update.js:88-89 | an absolute http link is passed through unchanged |
| `Links.ResolveJoinsWithoutSeparator` | scripts/update.js:90 | a relative link without a leading '/' is glued to the host name with no '/' in between |
| `Normalize.NormalizeRows` | scripts/update.js:111-123 | one record per row, with the same length and the same order |
| `Normalize.NormalizeRowFollowsColumnMap` | scripts/update.js:112-122 | each field of a record holds exactly the cell of the column that the column table assigns to it |
| `Normalize.ColumnMapFillsEachFieldOnce` | scripts/update.js:112-122 | the column table fills all eleven fields, and no field twice |
| `Normalize.ColumnMapColumnsDistinct` | scripts/update.js:112-122 | no header feeds two fields |
| `Normalize.MissingOrBlankColumn` | scripts/update.js:100-103 | a column the sheet lacks gives an undefined field; a blank cell gives a null field |
| `Normalize.NormalizeRowIgnoresOtherColumns` | scripts/update.js:111-123 | rows that agree on the eleven table columns give equal records, whatever other columns they have |
| `Normalize.NormalizeRowsAppend` | scripts/update.js:111 | normalising a concatenation concatenates the normalised parts, so row order is kept |
| `Partition.StateKey` | scripts/update.js:143 | the key is the state when that is a non-empty string, otherwise "UNKNOWN"; it is never empty |
| `Partition.BucketMembers` | scripts/update.js:143-145 | a bucket holds only input rows carrying its own key, so no row is in two buckets |
| `Partition.StateKeys` | scripts/update.js:144 | the dictionary's key list has no duplicates |
| `Partition.BucketNonEmptyIffKey` | scripts/update.js:144-145 | a key is in the dictionary exactly when its bucket is non-empty, so every bucket is non-empty |
| `Partition.RowKeyListed` | scripts/update.js:142-144 | every row's key is a key of the dictionary |
| `Partition.KeyIsRowKey` | scripts/update.js:143-144 | every key of the dictionary is the key of some row, so no key appears without a row |
| `Partition.PartitionByState` | scripts/update.js:140-146 | the loop's dictionary has exactly the keys met, in first-seen order, and each key maps to the records with that key in input order |
| `Partition.PartitionStep` | scripts/update.js:143-145 | one iteration (create the bucket on first sight, then push) keeps the dictionary the partition of the rows seen so far |
| `Partition.BucketAppend` | scripts/update.js:142-145 | the bucket of a concatenation is the first part's bucket followed by the second's |
| `Partition.BucketPosition` | scripts/update.js:145 | row j sits in its own bucket, at the position given by the number of earlier rows with the same key |
| `Partition.BucketKeepsOrder` | scripts/update.js:145 | of two rows with the same key, the earlier one sits earlier in the bucket |
| `Partition.BucketsCoverRows` | scripts/update.js:142-146 | the bucket sizes over all keys add up to the number of rows |
| `Gate.ChangeGate` | scripts/update.js:59-77 | skip holds exactly when the page text is non-empty and parses, a marker exists and its trimmed text parses, and page timestamp <= stored timestamp |
| `Gate.SkipsOnOwnMarker` | scripts/update.js:67-73 | a trimmed page text that parses, once stored as the marker, gates the same text out |
| `Update.StateWrites` | scripts/update.js:148-151 | one write per key, in key order, each holding that key's bucket |
| `Update.Run` | scripts/update.js:40-163 | the imperative run (gate, link check, normalisation, writes, partition loop, state-file loop, marker) gives the outcome of the reference pipeline |
| `Update.WriteStateFiles` | scripts/update.js:148-151 | the loop over the dictionary's entries writes each key's bucket, in key order |
| `Update.SkippedExactly` | scripts/update.js:59-77 | the run is skipped exactly when the three gate conditions hold; an empty or unparseable page date always proceeds |
| `Update.MissingLinkFails` | scripts/update.js:83-86 | a run that passes the gate fails, with no download and no writes, exactly when the href is absent or empty |
| `Update.RunWritesAt` | scripts/update.js:129-161 | the write log has the full dataset first, then the state files in key order, then the marker if there is one |
| `Update.RunWritesLayout` | scripts/update.js:129-161 | the state files have distinct, non-empty keys and non-empty contents; the marker write, if any, is the last write and holds the marker text |
| `Update.RunWritesCount` | scripts/update.js:142-151 | the state files together hold exactly as many records as there are rows |
| `Update.RunWritesPlace` | scripts/update.js:142-151 | each record is in the state file of its own key, at its order position, and in no other state file |
| `Update.CompletedWrites` | scripts/update.js:83-161 | a completed run had a link, downloads from the resolved URL, and writes the full dataset, then the distinct non-empty state files, then the marker last; the marker is written exactly when the page date parsed, and holds the trimmed page text |
| `Update.EveryRecordInItsStateFile` | scripts/update.js:140-151 | in a completed run each row's record is in exactly its own state's file, in relative order, and the state files together hold every row |
| `Update.RerunSkips` | scripts/update.js:59-77 | run again on an unchanged page with the marker a completed run stored, the run is skipped |
| `Update.NewerPageStoresMarker` | scripts/update.js:159-161 | a page date later than the stored date, or with no usable stored date, plus a link, completes the run and ends by storing the trimmed page text |
| `Update.UnparsedPageProceeds` | scripts/update.js:59-63 | a page date that is empty or invalid never skips the run, and then no marker is written |

## Left out

- The cached HTTP client and both downloads (lines 27-34, 43, 95): this is network I/O. The rows the download decodes to are an input. Transport failures are not modelled.
- HTML parsing and element selection (lines 44, 52-57, 83): this is a foreign library. Its results, the raw date text and the `href`, are inputs.
- Spreadsheet decoding (lines 97-103): this is a foreign binary parser. Rows are maps from header to cell, and cells are formatted text or `null`.
- `new Date(text)` (lines 59, 70): parsing is locale dependent. It is the parameter `parse`.
- Directory creation, file paths, `JSON.stringify` formatting, and the omission of undefined fields from the JSON (lines 129-130, 138, 149-150, 160): writes are entries of the write log, not real I/O.
- Reading the marker file (lines 68-69): read errors are not modelled. The file's contents are an input.
- Logging, and the exit status on failure (lines 41, 62-65, 74, 92, 94, 105, 132, 153, 161, 169-173): these produce no data. The error thrown at line 85 is the `LinkNotFound` outcome. The page fetch and download (lines 43, 95), the decoder (line 97) and the file writes (lines 130, 150, 160) can also throw. A failing write, which stops the run after the earlier writes and before the marker, is not modelled.
- Partition.PartitionByState: treats the dictionary as a plain map. A state named like an inherited object property (such as `constructor` or `__proto__`) would make line 144 see a truthy value, and line 145 would then fail. This is not modelled.
- Partition.StateKeys: gives the keys in first-seen order. JavaScript lists integer-like property names first, in numeric order, so state files written under such keys would come in a different order. This is not modelled.
- The `PAGE_URL` and output path constants (lines 17-21): they are used only for I/O.
