# Agent Activity Tracker — a verified model

The Agent Activity Tracker is a browser userscript for a contact-centre
real-time metrics page. Every five seconds it reads the agent table, where
each row gives a login, an activity ("Available", "On Break", …) and an
`HH:MM:SS` duration. It then:

- counts the agents per activity and records the highest duration per activity;
- highlights the "Available" rows whose duration is at least five minutes;
- shows a popup with one summary line per activity;
- offers a "Download Excel" button that exports one worksheet per activity.

The export holds the highlighted "Available" rows and every row of each other activity.

This project models that core in Dafny and proves its properties:

- `wrappers.dfy`: `Option`. `None` stands for the JavaScript `NaN` that a malformed duration decodes to.
- `duration_codec.dfy`: the pure codec.
  - `durationToSeconds` becomes `DurationToSeconds`, with `String.split(':')` as `Split` and unary `+` on digit fields.
  - `formatDuration` becomes `FormatDuration`, with `toString` as `ToDecimal` and `padStart(2, '0')` as `PadStart2`.
  - It also holds the round trips in both directions.
- `aggregator.dfy`: the per-row aggregation of `highlightAgentsAndShowCount`.
  - The three dictionaries are maps. Their for-in order is an explicit key sequence.
  - `Aggregate` folds the rows. Lemmas state what each dictionary holds afterwards.
  - The decoder is a parameter. The page model instantiates it with `DurationToSeconds`.
- `export.dfy`: the sheet-building loop of `downloadExcel`, as a method proved equal to the function `Workbook`, plus what the workbook contains.
- `overlay.dfy`: the page as a class.
  - It has the set of highlighted rows and the popup.
  - A tick clears the old highlights and popup, runs the row loop while marking candidates, renders the summary and shows the new popup.
  - The loops that change state are methods with invariants, proved against the functions above.

How malformed durations are read:

- A duration field that is not a digit string makes unary `+` give `NaN`, not 0. Every comparison with `NaN` is false.
- So such a row is still counted, never raises the highest duration and is never highlighted.
- It is dropped from the "Available" bucket and kept in the bucket of any other activity.
- An empty field is `0`, as unary `+` on the empty string gives. Fields after the third are ignored.

Rows are identified by their position in the table.

## Model

| member | source | states |
|---|---|---|
| DurationCodec.Split | tampermonkeyscript.user.js:17 | defines `String.split(':')`: the maximal colon-free pieces of the text, in order, with an empty piece beside every leading, trailing or doubled colon |
| DurationCodec.PadStart2 | tampermonkeyscript.user.js:26 | defines `padStart(2, '0')`: '0's in front of a text shorter than two characters, up to two characters; a longer text unchanged |
| DurationCodec.DurationToSeconds | tampermonkeyscript.user.js:16-19 | defines the decoder: with at least three pieces after splitting on ':' and the first three digit strings (empty meaning 0), hours * 3600 + minutes * 60 + seconds; otherwise `None` (`NaN`) |
| DurationCodec.FormatDuration | tampermonkeyscript.user.js:22-27 | defines the encoder: the padded numerals of `seconds / 3600`, `(seconds % 3600) / 60` and `seconds % 60`, joined by ':' |
| DurationCodec.ToDecimal | tampermonkeyscript.user.js:26 | the decimal numeral of `n` is a non-empty digit string whose value is `n`, with no leading zero unless it is "0" |
| DurationCodec.PadStart2ToDecimal | tampermonkeyscript.user.js:26 | padding the numeral of `n` to two characters gives a digit field of value `n`, two characters long when `n < 100` |
| DurationCodec.SplitJoin | tampermonkeyscript.user.js:17 | splitting on ':' loses nothing: joining the parts with ':' gives back the text |
| DurationCodec.SplitThree | tampermonkeyscript.user.js:17 | three colon-free fields joined by ':' split back into exactly those three fields |
| DurationCodec.FormatDurationFields | tampermonkeyscript.user.js:22-27 | the formatted text has three fields: padded hours equal to `seconds / 3600` (not wrapped at 24), and two-digit minutes and seconds below 60 with the remaining values |
| DurationCodec.DecodeEncode | tampermonkeyscript.user.js:16-27 | decoding the formatted duration of any `n` gives back `n`, and the formatted text is canonical |
| DurationCodec.EncodeDecode | tampermonkeyscript.user.js:16-27 | every canonical duration text decodes to a number, and formatting that number gives back the same text |
| DurationCodec.DecodeUnderTenMinutes | tampermonkeyscript.user.js:16-19 | for every M below 10 and SS below 60, the text "00:0M:SS" decodes to `M * 60 + SS` |
| Aggregator.IsHighlightCandidate | tampermonkeyscript.user.js:80 | defines the highlight rule: activity exactly "Available" and a decoded duration of at least 300 seconds (a `NaN` duration never qualifies) |
| Aggregator.IsExported | tampermonkeyscript.user.js:79-86 | defines the selection rule for the export buckets: a highlight candidate, or any row whose activity is not "Available" |
| Aggregator.Step | tampermonkeyscript.user.js:68-86 | defines one pass of the row loop: on first sight the activity is appended to the key order with count 0, highest 0 and an empty bucket; then the count goes up by one, the highest is replaced only by a strictly greater decoded duration, and the row is appended to the bucket when the selection rule keeps it |
| Aggregator.Aggregate | tampermonkeyscript.user.js:61-87 | defines the dictionaries after the loop: `Step` applied to the rows in table order, starting from empty dictionaries |
| Aggregator.KeysSnoc | tampermonkeyscript.user.js:68-73 | visiting one more row adds its activity to the end of the key order exactly when the activity is new |
| Aggregator.KeysAreDistinct | tampermonkeyscript.user.js:69-73 | no activity is entered in the dictionaries twice: the key order has no repeats |
| Aggregator.ActivitySeen | tampermonkeyscript.user.js:68-74 | the activity of every row has an entry after the loop |
| Aggregator.CountIsOccurrences | tampermonkeyscript.user.js:68-74 | an activity has a count exactly when some row has it, and the count is the number of such rows |
| Aggregator.HighestBoundsRow | tampermonkeyscript.user.js:71-77 | the highest duration of an activity is at least every decodable duration of its rows |
| Aggregator.HighestIsAttained | tampermonkeyscript.user.js:71-77 | a non-zero highest duration is the decoded duration of some row with that activity (0 is the starting value) |
| Aggregator.BucketCount | tampermonkeyscript.user.js:79-86 | each row occurs in its activity's bucket as often as it occurs in the table when it is exported, and otherwise not at all; no other bucket holds it |
| Aggregator.BucketMembership | tampermonkeyscript.user.js:79-86 | a row is in the bucket of `a` exactly when it is a row of the table with activity `a` that the selection rule exports |
| Aggregator.BucketInTableOrder | tampermonkeyscript.user.js:79-86 | each bucket lists its rows in table order, as a subsequence of the table |
| Aggregator.ThresholdIsInclusive | tampermonkeyscript.user.js:80 | an "Available" row at 00:05:00 is highlighted and exported; one at 00:04:59 is neither |
| Export.SheetOf | tampermonkeyscript.user.js:33-38 | defines one worksheet: named after the activity, the header row "Agent Login", "Activity", "Duration", then login, activity and duration of each bucket entry in bucket order |
| Export.Workbook | tampermonkeyscript.user.js:32-39 | defines the workbook: one `SheetOf` per activity key, in for-in order |
| Export.DownloadExcel | tampermonkeyscript.user.js:30-39 | the loop builds, in key order, one sheet per activity, named after it, holding the header row and then one row of login, activity and duration per bucket entry in bucket order |
| Export.OneSheetPerActivity | tampermonkeyscript.user.js:32-38 | after a tick's aggregation there is a sheet named `a` exactly when `a` has a bucket, and no two sheets share a name |
| Export.ExportedRows | tampermonkeyscript.user.js:33-35 | every sheet starts with the header, and a record appears in it exactly when it comes from a table row of that activity that the selection rule exports |
| Export.ExampleSheets | tampermonkeyscript.user.js:30-39 | for a table with a 5 min 10 s "Available" row, a 1 min 40 s "Available" row and an "On Break" row, the workbook has an "Available" sheet holding only the first row and an "On Break" sheet holding only the third |
| Overlay.SummaryLine | tampermonkeyscript.user.js:107 | defines one popup line: `<div>`, the activity, ": ", the count's numeral, " (Highest Duration: ", the formatted highest duration, `)</div>` |
| Overlay.Summary | tampermonkeyscript.user.js:105-108 | defines the popup text: the summary lines of the activity keys concatenated in for-in order |
| Overlay.Candidates | tampermonkeyscript.user.js:79-82 | defines the rows a tick highlights: the positions of the rows that meet the highlight rule under the script's decoder |
| Overlay.PopupFor | tampermonkeyscript.user.js:105-134 | defines the popup a tick shows: the summary of that tick's counts and highest durations, and the key order and buckets its download button passes to `downloadExcel` |
| Overlay.SummaryDecomposes | tampermonkeyscript.user.js:105-108 | the popup text is the lines of the earlier activities, then the line of this activity, then the lines of the later ones |
| Overlay.SummaryLineFields | tampermonkeyscript.user.js:107 | a summary line shows the count as a numeral of that value and the highest duration as canonical clock text that decodes back to it |
| Overlay.RenderSummary | tampermonkeyscript.user.js:105-108 | the loop builds the concatenation of one summary line per activity, in key order |
| Overlay.Page.constructor | tampermonkeyscript.user.js:163-164 | before the first tick no row is marked and no popup is shown |
| Overlay.Page.ClearHighlights | tampermonkeyscript.user.js:46-49 | afterwards no row carries the highlight mark |
| Overlay.Page.VisitRow | tampermonkeyscript.user.js:62-86 | one pass of the row loop updates the dictionaries as one aggregation step, and marks the row exactly when it is a highlight candidate |
| Overlay.Page.MarkAndAggregate | tampermonkeyscript.user.js:56-87 | the row loop leaves the dictionaries of the fold over the table, and the marked rows are exactly the candidates |
| Overlay.Page.Tick | tampermonkeyscript.user.js:44-137 | after a tick, the marked rows are exactly the table's highlight candidates and exactly one popup is shown, carrying that tick's summary and export snapshot, whatever the state before |
| Overlay.TickTwice | tampermonkeyscript.user.js:163-167 | a second tick on an unchanged table leaves the same state as the first |

## Left out

- Reading the table: `querySelectorAll`, `innerText` and `trim()` are not modelled. The model takes an already-extracted sequence of login, activity and duration strings.
- A row with missing cells makes the source throw inside `forEach`. The model has no missing cells.
- DurationCodec.DurationToSeconds: digit fields are read exactly. JavaScript reads them as doubles, so it rounds values above 2^53; that rounding is not modelled. Any field with a sign, whitespace, a decimal point, an exponent, a `0x`, `0b` or `0o` prefix, or the text `Infinity` decodes to `None`. JavaScript gives a number for several of these.
- DurationCodec.FormatDuration: it is defined on naturals only. Negative or fractional seconds, double-precision rounding above 2^53 and the exponent notation of `toString` from 1e21 are not modelled.
- Keys named like `Object.prototype` members (such as `constructor`) make the source's truthiness test misbehave. They are not modelled.
- For-in enumerates integer-like keys first in numeric order. This is not modelled: the key order is plain insertion order.
- Styling: background colours, popup CSS, the button's hover handlers and the drag handlers are not modelled.
- Writing `innerHTML` is modelled as storing the summary string. `popupContent.trim()` is the identity here, because the text starts with '<' and ends with '>'.
- The SheetJS calls `book_new`, `aoa_to_sheet`, `book_append_sheet` and `writeFile` are modelled as building a list of sheets. The library's limits on sheet names are not modelled.
- The five-second `setInterval` timer is not modelled. `TickTwice` stands for consecutive firings on an unchanged table.
- Clicking the button is not modelled as an event. The popup keeps the snapshot that the click would export.
- Interleaving with concurrent page updates is not modelled.
