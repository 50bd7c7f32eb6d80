# Subject-line viewer: filter, render and CSV export

`main.js` is a browser page that loads a dataset of programming languages.
For each language the dataset holds at most one notification subject line for each event type it covers.
The page shows one card per language, with a search box and an event-type selector, and can export the current view as CSV.
This project models the logic behind that page and proves what the code promises about it:

- which entries are shown: the search predicate and the event predicate;
- which rows a card keeps: the row filter;
- the badge count;
- the choice between cards and the "no results" placeholder;
- the text `toCsv` produces, and how it relates to what is rendered;
- the option list of the selector;
- the page state that the start-up code and the event handlers drive.

Modules, one file each:

- `Text` (text.dfy) models `toLowerCase`, restricted to ASCII, and `includes`.
- `Dataset` (dataset.dfy) models the loaded document, the sentinel `(All event types)` and the option list. `subjects` is an ordered sequence of `(event, subject)` pairs.
- `Filter` (filter.dfy) models the search and event predicates and the row filter of `buildCard`.
- `Render` (render.dfy) models the card `buildCard` makes and the content `render` leaves in the container. Both are values, not DOM nodes.
- `Csv` (csv.dfy) models `toCsv`, with the source's loops, and the serialisation. It also adds a reader for quoted, comma-separated, LF-separated text in the style of section 2 of RFC 4180, so that round trips can be stated.
- `App` (app.dfy) models the page as a class. It holds the controls, the option list and the content container. The constructor runs the start-up code. It has methods for `render`, the two event listeners and the download handler.
- `Scenarios` (scenarios.dfy) works through the general empty-query case, then worked examples on one-entry datasets.

The two views of the data check entries differently, and the model follows each as written:

- `render` checks both the search predicate and the event predicate at entry level (main.js:84-86).
- `toCsv` checks only the search predicate at entry level (main.js:104-105), and then applies the row filter (main.js:107).
- `Csv.CsvMatchesRender` proves that the rows come out the same anyway.

## Model

| member | source | states |
|---|---|---|
| Text.LowerChar | main.js:77 | an upper-case ASCII letter becomes its lower-case letter; every other character is unchanged; no upper-case letter remains |
| Text.Lower | main.js:83 | `toLowerCase` keeps the length and lower-cases character by character |
| Text.LowerEmpty | main.js:77 | the lowered query is empty exactly when the search box is empty, so `!q` tests for an empty search |
| Text.LowerIdempotent | main.js:77 | lower-casing twice is lower-casing once, so lowering the already-lowered `q` would change nothing |
| Text.ContainsEmpty | main.js:84 | every string `includes` the empty query |
| Text.Contains | main.js:84 | `includes` as a substring test; characterised by `Text.ContainsEmpty` (the empty query occurs everywhere) and used by `Filter.SearchMatches` |
| Dataset.EventOptions | main.js:12 | the options are the sentinel followed by `eventTypes` in document order, one more than there are event types |
| Dataset.EventOptionsMembership | main.js:12-19 | a value is offered exactly when it is the sentinel or a declared event type |
| Dataset.DistinctLanguages | main.js:82-88 | no language appears twice among the entries; the hypothesis of `Render.ShownLanguagesDistinct` |
| Filter.SubjectContains | main.js:84 | some lowered subject line contains the query; one disjunct of `Filter.SearchMatches`, characterised through `Render.RenderedIff` |
| Filter.SearchMatches | main.js:84 | the search predicate: empty query, or the lowered language or some lowered subject contains it; `Render.RenderedIff` and `Csv.PushEntry` state what it decides |
| Filter.EventMatches | main.js:85 | the event predicate: the sentinel, or the entry has the key; `Render.RenderedIff` states that it gates rendering and `Filter.NoRowsWithoutEvent` that it gates the rows |
| Filter.Shown | main.js:86 | both predicates hold; `Render.RenderedIff` and `Render.ShownIndices` prove it holds exactly for the rendered entries |
| Filter.WithEvent | main.js:43 | the filtered pairs are exactly the pairs with that event; the result is empty exactly when the entry lacks the key; it is never longer than the input |
| Filter.SelectRows | main.js:41-43 | under the sentinel the rows are all pairs in their original order; otherwise they are exactly the pairs whose event equals the selector |
| Filter.WithEventUnique | main.js:43 | with distinct keys, filtering by a present key yields exactly the one pair with that key |
| Filter.SingleRow | main.js:41-43 | with a specific event selected and distinct keys, a shown entry keeps exactly one row, and it carries the selected event |
| Filter.NoRowsWithoutEvent | main.js:107 | an entry failing the event predicate keeps no rows under the row filter |
| Render.BuildCard | main.js:21-45 | the card has the entry's language and a badge equal to the total subject count whatever the selector; its rows follow the row filter and do not depend on the query |
| Render.ShownIndices | main.js:82-88 | the shown positions are increasing, in range, and are exactly the entries passing both predicates |
| Render.ShownCardsInOrder | main.js:82-88 | card k is the card of the k-th shown entry, so cards keep dataset order |
| Render.ShownCards | main.js:82-89 | the cards the `forEach` appends; characterised by `Render.ShownCardsInOrder` against `Render.ShownIndices` |
| Render.ShownLanguagesDistinct | main.js:82-88 | with one entry per language, no two rendered cards carry the same language |
| Render.RenderedIff | main.js:84-88 | an entry is rendered exactly when the search and event predicates both hold, and then its card is among the shown cards |
| Render.CardsComeFromShownEntries | main.js:86-88 | every rendered card is built from an entry that passes the filter, and its badge is that entry's full subject count |
| Render.OneRowPerCard | main.js:40-45 | with a specific event and well-formed entries, every rendered card has one row, for that event |
| Render.EmptyTableOnlyWithoutSubjects | main.js:40-45 | under the sentinel a card's table is empty exactly when its badge is zero |
| Render.PlaceholderIff | main.js:91-96 | the placeholder appears exactly when no entry passes; then it is the only node; otherwise every node is a card |
| Render.View | main.js:79-96 | the container after a render pass; characterised by `Render.PlaceholderIff` and `Render.ViewCards`, and established by `App.Page.Render` |
| Render.CardNodes | main.js:88 | one card node per card, in order |
| Render.EntryRows | main.js:108 | one `[language, event, subject]` triple per kept pair, in order |
| Render.CardRowsCount | main.js:45 | the table rows across the cards number `RowTotal` |
| Render.ViewCards | main.js:79-96 | reading the cards back off the rendered content gives exactly the shown cards; the placeholder contributes none |
| Render.NodeCardsOfCardNodes | main.js:88 | wrapping cards as nodes and reading them back is the identity |
| Csv.ReplaceAll | main.js:110 | `replace(/\"/g, …)`: every quote replaced; characterised by `Csv.ReplaceIdentity` and `Csv.ReplaceAbsent` |
| Csv.Field | main.js:110 | one value between two quotes after the replacement; characterised by `Csv.FieldAsWritten` and `Csv.ParseFieldRoundTrip` |
| Csv.EncodeRow | main.js:110 | the fields of a row joined by commas; characterised by `Csv.ThreeFields` and `Csv.ParseRowRoundTrip` |
| Csv.Serialize | main.js:110 | the lines joined by LF; characterised by `Csv.ParseDocRoundTrip`, `Csv.SerializeEndsWithQuote` and `Csv.DoubledInjective` |
| Csv.CsvRows | main.js:102-109 | the data rows `toCsv` pushes; characterised by `Csv.CsvMatchesRender`, `Csv.CsvRowsShape` and `Csv.PushEntries` |
| Csv.EntryCsv | main.js:103-108 | the rows one entry adds; characterised by `Csv.PushEntry` and, through `Csv.CsvMatchesRender`, by the card's rows |
| Csv.CsvText | main.js:100-111 | the whole export; characterised by `Csv.ToCsv`, `Csv.HeaderFirst` and `Csv.CsvReadsBack` |
| Csv.ReplaceIdentity | main.js:110 | replacing a quote by a lone quote leaves every value unchanged |
| Csv.ReplaceAbsent | main.js:110 | a value without quotes is unchanged by any replacement |
| Csv.FieldAsWritten | main.js:110 | as written, each field is the value unchanged between two quotes |
| Csv.ToCsv | main.js:100-111 | the method's nested loops produce exactly the header row then `CsvRows`, serialised |
| Csv.PushEntries | main.js:102-109 | the outer loop appends the rows of every entry, in dataset order |
| Csv.PushEntry | main.js:103-108 | an entry failing the search predicate adds nothing; otherwise one triple is added per pair kept by the row filter |
| Csv.ThreeFields | main.js:110 | as written, a three-field line is each value in quotes, joined by commas |
| Csv.HeaderEncoding | main.js:101 | the header row serialises to `"Language","Event Type","Subject Line"` |
| Csv.HeaderFirst | main.js:100-111 | the export is the header line alone when there are no data rows; otherwise the header line, one LF, then the data lines; it never ends with a newline |
| Csv.HeaderThenRows | main.js:110 | for data rows that are each non-empty, the text is the header line alone when there are none, otherwise the header line, one LF, then the rows; it ends with a closing quote |
| Csv.SerializeEndsWithQuote | main.js:110 | a serialised document of non-empty lines ends with a quote, so no newline trails |
| Csv.CsvRowsShape | main.js:108 | every data row has exactly three fields |
| Csv.CsvMatchesRender | main.js:102-109 | the export's data rows equal the rows of the rendered cards, in the same order, although `toCsv` skips the entry-level event check |
| Csv.CsvRowCount | main.js:102-109 | the number of data rows equals the total number of table rows `render` shows |
| Csv.ParseFieldRoundTrip | main.js:110 | a quoted field reads back as its value, leaving the text after it, whenever the replacement keeps it decodable and the text after it does not start with a quote |
| Csv.ParseRowRoundTrip | main.js:110 | a serialised line of one or more decodable fields (quotes doubled, or no quote in any field) reads back as its fields, leaving the rest of the text from the next LF on |
| Csv.ParseDocRoundTrip | main.js:110 | a serialised non-empty document whose every line is non-empty and every field decodable (quotes doubled, or no quote in any field) reads back as its rows |
| Csv.DoubledInjective | main.js:110 | with doubled quotes, two different non-empty documents of non-empty rows never serialise to the same text |
| Csv.CsvReadsBack | main.js:110 | as written, the export reads back as header plus data rows when no value contains a quote |
| Csv.EscapedCsvReadsBack | main.js:110 | with quotes doubled, the export always reads back as header plus data rows |
| Csv.AsWrittenCollision | main.js:110 | as written, the rows `x","y`, `z`, `w` and `x`, `y","z`, `w` are different but give the same line |
| Csv.ShiftedSeparator | main.js:110 | as written, for any values a, b, c, d the row (a, then `","`, then b; c; d) and the row (a; b, then `","`, then c; d) encode to the same line: moving a `","` from inside field one to inside field two changes nothing |
| App.Page.constructor | main.js:12-19 | start-up fills the selector with the option list and selects the sentinel. It keeps whatever text the search box holds when the data arrives, and renders once with it (main.js:127) |
| App.Page.Render | main.js:76-97 | the loop clears the container, then leaves exactly `View` for the current controls, whatever was there before |
| App.Page.OnSearchInput | main.js:125 | a keystroke stores the new search text, keeps the selector and re-establishes the page invariant |
| App.Page.OnFilterChange | main.js:126 | choosing an option stores it, keeps the search text and re-establishes the page invariant |
| App.Page.DownloadCsv | main.js:113-116 | the download is `toCsv` over the live controls; on a rendered page it holds exactly the rows of the cards on the page, in page order |
| Scenarios.EverythingShown | main.js:82-88 | with an empty query and the sentinel every entry is shown, in order, with all its rows and its full subject count |
| Scenarios.SearchByLanguage | main.js:76-97 | searching "rust" on the example shows its one card, badge 1, one `push` row |
| Scenarios.SearchIgnoresCase | main.js:77-84 | the query "RUST" is lower-cased before matching and shows the same card as "rust" |
| Scenarios.FilterByEvent | main.js:76-97 | selecting `push` with an empty query shows the same card |
| Scenarios.FilterHidesMissingKey | main.js:85 | an entry with a `pull` subject but no `push` is hidden under `push`, leaving only the placeholder |
| Scenarios.NothingMatches | main.js:91-96 | the query "zzz" leaves exactly the placeholder |
| Scenarios.ExportExample | main.js:100-111 | the example's export is the header line, LF, `"Rust","push","New commit"` |

## Left out

- Loading `data.json` with `fetch` and `res.json()` (main.js:4-5) is I/O. The dataset is a constructor parameter of `App.Page`, and so is the text the search box holds when it arrives.
- DOM construction is not modelled (main.js:13-18, 22-38, 46-72, 92-95). That covers element creation, class names, `innerHTML`, the table header markup and the option elements. A card is a value holding the language, the badge count and the rows.
- The badge text `count + ' subjects'` (main.js:29) is modelled as the count alone. Rendering a number as decimal text is not modelled.
- The clipboard copy, the `setTimeout` label revert and the `alert` (main.js:56-64) are platform services and timers.
- The Blob, `URL.createObjectURL`/`revokeObjectURL` and the anchor download named `subject-lines.csv` (main.js:117-122) are foreign calls. `App.Page.DownloadCsv` returns the text that would go into the Blob.
- Listener registration (main.js:113, 125-126) is modelled only as the handler methods. Event dispatch is not modelled.
- `Text.Lower` covers ASCII letters only. Unicode case mapping, where the length can change, is not modelled.
- `Object.entries` and `Object.values` ordering is not modelled: JavaScript lists integer-like keys first. `subjects` is a sequence in document order.
- `Filter.EventMatches` treats `item.subjects[filterEvt] !== undefined` as "the key is present". Inherited properties such as `constructor`, which also make the lookup defined, are not modelled.
- The `search.value || ''` fallback (main.js:77) needs no model: `search` is always a string.
- `App.Page.OnFilterChange` requires that the new value is one of the options, because a `change` event on a select only reports its options.
- Only the export as written is a method (`Csv.ToCsv`, used by `App.Page.DownloadCsv`). The corrected, quote-doubling export is the function `Csv.EscapedCsvText` with its read-back lemma. The page model keeps the source's behaviour.
- `Filter.WithEvent`: its contract gives membership, not order. Order under a specific selector is covered through `Filter.WithEventUnique`, because distinct keys leave at most one row.

## Findings

| source | as written | input that shows it | evidently intended | confidence | as-written member | corrected member |
|---|---|---|---|---|---|---|
| main.js:110 | `replace(/\"/g,'\"')` replaces each quote by a lone quote, so embedded quotes reach the CSV unescaped | the rows `x","y`, `z`, `w` and `x`, `y","z`, `w` (a language, event key or subject line holding `","`) serialise to the same line `"x","y","z","w"` | double each embedded quote (`""`), so that every export reads back as its rows | not executed | Csv.AsWrittenCollision | Csv.EscapedCsvReadsBack |
