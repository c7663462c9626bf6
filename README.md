# Time-series labelling, modelled in Dafny

This project models the labelling engine of a browser page used to label time series.
The page loads a catalog of subsystems and sensor tags, loads one tag's series from a CSV file, and plots it.
The user drags a range on the plot, gives it a label, and deletes labels.
Finally the page exports every sample together with its resolved label.

The model keeps the page's four globals as the fields of one class, `Session.LabellingSession`:
the labelled segments, the current selection, the colour of each label, and the current series.
The handlers that change those globals are methods of the class.
The parsing, label resolution, plotting filter and export are specified by pure functions. The loops of the source (both CSV readers, the resolution loop and the export loop) are methods proved equal to those functions.

Files, one module each:

- `wrappers.dfy`: `Option`.
- `text.dfy`: JavaScript's `split` on one character and `trim` (with the ECMAScript white-space and line-terminator set), and the text built by appending `line + "\n"` repeatedly.
- `series.dfy`: samples (timestamp and value, both integers), a stable insertion sort by timestamp, the in-place array version of that sort, and order-preserving filtering.
- `stats.dfy`: `Math.min`/`Math.max` over the values, including the infinities returned for an empty series.
- `csv.dfy`: the two CSV readers, `parseSubsystemsCSV` and `parseAndSortCSV`.
- `catalog.dfy`: the subsystem choices (first occurrence first), the tags of one subsystem, and the `.csv` suffix strip.
- `labels.dfy`: segments, inclusive coverage, label resolution (last covering segment wins), the per-segment filter of `updatePlot`, colour allocation, and `splice(index, 1)`.
- `export.dfy`: the lines written by `saveLabels`, and the round trip from the export back through the series reader.
- `session.dfy`: the session class and its handlers.

Some JavaScript services are parameters of the model:

- `new Date(text)` and `parseFloat(text)` are the parameters `parseTime` and `parseValue`, of type `string -> int`.
- `toISOString()` and the number-to-text conversion are the parameters `isoText` and `valueText`, of type `int -> string`.
- A timestamp is the integer number of milliseconds that `Date` comparison uses.
- A colour `hsl(h, 70%, 50%)` is its hue `h`.
- `selectedRange` starts as `{}`, whose `start` and `end` are `undefined`. The model writes this as `None`. Every comparison with `undefined` is false, so such a segment covers nothing.

The model follows the code, including these behaviours:

- An inverted selection (`start > end`) is stored as given, not normalised. It therefore covers no instant.
- `splice` with an index past the end removes nothing and does not fail. A negative index counts from the end.
- The emptiness test on the two fields runs before `trim`. So a field holding only white space is kept, and it comes out as the empty string.
- `Math.min` and `Math.max` of no values are `Infinity` and `-Infinity`. An empty series never shows them, because the standard-deviation step throws first (see "Left out").
- `plotGraph` replaces `currentData` only. The segments and the colours stay.

## Model

| member | source | states |
|---|---|---|
| Text.Split | scripts.js:17 | `split` on one character yields at least one piece |
| Text.SplitPiecesFree | scripts.js:22 | no piece produced by `split` contains the separator |
| Text.JoinSplit | scripts.js:22 | joining the pieces of `split` with the separator gives back the text |
| Text.SplitJoin | scripts.js:22 | splitting a join of separator-free pieces gives back those pieces |
| Text.SplitAtSeparator | scripts.js:22 | text up to the first separator is the first field, and the rest is split on its own |
| Text.SplitNoSeparator | scripts.js:22 | a text without the separator is one field |
| Text.Join | scripts.js:22 | the reference inverse of `split`: a join of n pieces is at least n-1 characters long; JoinSplit and SplitJoin tie it to `split` |
| Text.TrimStart | scripts.js:24 | the front of `trim` never lengthens the text; TrimStartSpec shows it drops exactly the leading white space |
| Text.TrimEnd | scripts.js:24 | the back of `trim` never lengthens the text; TrimEndSpec shows it drops exactly the trailing white space |
| Text.Trim | scripts.js:24 | `trim` never lengthens a field; TrimSpec gives its full meaning |
| Text.Terminated | scripts.js:317 | the accumulated text is empty exactly when there are no lines, and otherwise ends with a newline |
| Text.TrimStartSpec | scripts.js:24 | trimming the front keeps a suffix that starts with a non-blank character, and removes only white space |
| Text.TrimEndSpec | scripts.js:24 | trimming the back keeps a prefix that ends with a non-blank character, and removes only white space |
| Text.TrimSpec | scripts.js:24 | `trim` returns the trimmed infix, with white space only on either side |
| Text.TrimIsTrimmed | scripts.js:24 | a trimmed field has no white space at either end |
| Text.TrimIdempotent | scripts.js:24 | trimming twice is trimming once |
| Text.TrimBlank | scripts.js:24 | a field of white space only trims to the empty string |
| Text.TerminatedSnoc | scripts.js:317 | appending `line + "\n"` to the text extends the list of terminated lines by that line |
| Text.SplitTerminated | scripts.js:305-317 | splitting newline-terminated lines on `'\n'` gives those lines and one empty tail |
| Series.Filter | scripts.js:274-276 | filtering is no longer than its input |
| Series.FilterMembers | scripts.js:274-276 | filtering keeps exactly the elements satisfying the test |
| Series.FilterAppend | scripts.js:274-276 | filtering distributes over concatenation, so order is kept |
| Series.FilterSorted | scripts.js:274-276 | a filtered sorted series is sorted |
| Series.SortMultiset | scripts.js:109 | the sorted series is a permutation of its input |
| Series.InsertMultiset | scripts.js:109 | one insertion step adds exactly the inserted sample |
| Series.InsertSorted | scripts.js:109 | inserting into a sorted series keeps it sorted |
| Series.SortSorted | scripts.js:109 | the sort's output is non-decreasing by timestamp |
| Series.InsertAtTime | scripts.js:109 | insertion puts the sample after every sample with its timestamp |
| Series.SortStable | scripts.js:109 | for every timestamp, the samples carrying it keep their input order |
| Series.SortSpec | scripts.js:109 | the sort is ordered, a permutation of its input, and stable |
| Series.SortOfSorted | scripts.js:109 | sorting an already sorted series changes nothing |
| Series.Insert | scripts.js:109 | one insertion step makes the series one longer; InsertMultiset and InsertAt give what is added and where |
| Series.Sort | scripts.js:109 | the stable sort keeps the length of its input; SortSpec gives its meaning |
| Series.AtTimeSingle | scripts.js:109 | a single sample is among the samples at a timestamp exactly when it carries it |
| Series.InsertAt | scripts.js:109 | insertion puts the sample after the samples not later than it and before the later ones that follow |
| Series.InsertInPlace | scripts.js:109 | shifting later samples right in the array performs exactly one insertion step |
| Series.SortByTime | scripts.js:109 | sorting the array in place leaves the stable sort of its old contents |
| Stats.Values | scripts.js:115 | one value per sample, in order |
| Stats.Min | scripts.js:116 | `Infinity` exactly for no values; otherwise a value that is at most every value |
| Stats.Max | scripts.js:117 | `-Infinity` exactly for no values; otherwise a value that is at least every value |
| Stats.ExtremaBracketSamples | scripts.js:115-117 | on a non-empty series both extrema are finite and bracket every sample's value |
| Csv.KeptRows | scripts.js:20-26 | lines 1 to n-1 give at most n-1 rows, and line 0 gives none |
| Csv.RowOf | scripts.js:22-25 | a kept line yields two fields with no white space at either end |
| Csv.Rows | scripts.js:16-29 | a reader yields at most one row per line after the first |
| Csv.HeaderIgnored | scripts.js:21 | the rows do not depend on what line 0 holds |
| Csv.KeptRowsSnoc | scripts.js:20-26 | one more line contributes its row, if it has one, after all earlier rows |
| Csv.KeptRowsPrefix | scripts.js:20-26 | the rows of the first n lines depend on those lines only |
| Csv.KeptRowsStep | scripts.js:20-26 | line n contributes its row, if any, after the rows of lines before it |
| Csv.KeptRowsLine | scripts.js:22-25 | line n adds the trimmed pair when both raw fields are non-empty, and nothing otherwise |
| Csv.RowsTrimmed | scripts.js:24 | every kept field has no white space at either end |
| Csv.WhitespaceFieldsKept | scripts.js:23-24 | fields of white space pass the test, which runs before `trim`, and come out empty |
| Csv.SingleFieldDropped | scripts.js:22-23 | a line with no comma has no second field and is dropped |
| Csv.ExtraColumnsIgnored | scripts.js:22 | columns after the second do not change the row |
| Csv.EntriesOf | scripts.js:24 | as many catalog entries as rows; EntriesOfSnoc gives each entry and its place |
| Csv.EntriesOfSnoc | scripts.js:24 | one more row adds its own entry at the end |
| Csv.ParseSubsystemsCsv | scripts.js:16-29 | the loop returns one entry per kept row, with the row's trimmed fields, in line order |
| Csv.SamplesOf | scripts.js:105 | as many samples as rows; SamplesOfSnoc gives each sample and its place |
| Csv.SamplesOfSnoc | scripts.js:105 | one more row adds its own sample at the end |
| Csv.CollectSamples | scripts.js:99-107 | the loop collects one sample per kept row, in line order |
| Csv.ParseAndSortCsv | scripts.js:97-111 | the result is the stable sort of the parsed samples: sorted, a permutation of them, and same-time samples in input order |
| Catalog.FirstIndex | scripts.js:34 | the first position holding the element |
| Catalog.Unique | scripts.js:34 | the subsystem choices have no repeats and hold exactly the subsystems of the catalog |
| Catalog.UniqueSnoc | scripts.js:34 | a subsystem seen before adds nothing; a new one goes last |
| Catalog.UniqueOrder | scripts.js:34 | the choices are in order of first appearance |
| Catalog.UniqueOfDistinct | scripts.js:34 | a list without repeats is offered unchanged |
| Catalog.UniqueIdempotent | scripts.js:34 | de-duplicating twice is de-duplicating once |
| Catalog.Subsystems | scripts.js:34 | the subsystem of each entry, in order |
| Catalog.SubsystemChoices | scripts.js:34 | the dropdown lists no subsystem twice and lists exactly the subsystems the catalog names |
| Catalog.TagsOf | scripts.js:53-55 | a tag is offered exactly when the catalog pairs it with the selected subsystem |
| Catalog.TagsOfAppend | scripts.js:53-55 | the tags keep catalog order |
| Catalog.ChoiceHasTags | scripts.js:34-55 | a subsystem is among the choices exactly when the tag filter finds at least one tag for it |
| Catalog.CsvSuffix | scripts.js:86 | a suffix matches `/\.csv$/i` exactly when it is one of the eight ASCII case variants of `.csv` |
| Catalog.StripCsvExtension | scripts.js:86 | the shown name is the file name, or the file name without one final `.csv` in any letter case |
| Catalog.StripAddedExtension | scripts.js:86 | a `.csv` suffix in any case added to a name is exactly what is removed |
| Catalog.StripWithoutExtension | scripts.js:86 | a name not ending in `.csv` is unchanged |
| Labels.Covers | scripts.js:313 | a segment that covers an instant has a selection whose start is not after its end |
| Labels.Resolve | scripts.js:308-316 | the resolved label is "Normal" or the label of one of the segments |
| Labels.InvertedCoversNothing | scripts.js:313 | a segment with start after end covers no instant |
| Labels.ResolveIsLastCover | scripts.js:308-316 | the label is that of the last covering segment in insertion order, and "Normal" when none covers |
| Labels.ResolveFromCover | scripts.js:308-316 | a label other than "Normal" comes from a segment covering the instant |
| Labels.AppendNonCovering | scripts.js:310-314 | a segment that does not cover the instant does not change its label |
| Labels.OverlapLaterWins | scripts.js:310-314 | of two overlapping segments, the later one labels the overlap, and each labels its own part |
| Labels.Within | scripts.js:274-277 | a segment's samples are exactly the samples it covers, inclusive at both ends |
| Labels.WithinSorted | scripts.js:274-277 | a segment's samples of a sorted series are sorted |
| Labels.WithinAppend | scripts.js:274-277 | a segment's samples keep series order |
| Labels.HueFor | scripts.js:239 | a hue is a multiple of 60 below 360 |
| Labels.HuesDistinctUpToSix | scripts.js:239 | six labels in a row get six different hues |
| Labels.WithColour | scripts.js:238-240 | a seen label leaves the table unchanged; an unseen one adds exactly one key, with hue `count * 60 % 360`; existing colours are kept |
| Labels.SameLabelSameHue | scripts.js:238-246 | segments with the same label carry the same colour |
| Labels.ColoursAgreeAfterApply | scripts.js:238-247 | applying a label keeps every segment's colour equal to its label's colour |
| Labels.HuesByOrderAfterApply | scripts.js:238-240 | after colouring, the label seen i-th still has hue `i * 60 % 360`, a new label being seen last |
| Labels.NewLabelHues | scripts.js:238-240 | a new label gets the hue of its position in first-seen order, and older labels keep theirs |
| Labels.NewLabelKeys | scripts.js:238-240 | every coloured label is in the first-seen order once the new label is added |
| Labels.NewLabelDistinct | scripts.js:238-240 | a new label does not repeat one seen before |
| Labels.Splice | scripts.js:229 | at a valid index exactly that element is removed and the rest keep their order; past the end nothing changes; a negative index counts from the end; an empty list stays empty |
| Labels.ColoursAgreeAfterSplice | scripts.js:228-229 | removing a segment keeps the others' colours in agreement with the table |
| Export.ExportLine | scripts.js:317 | a line's length is the instant, value and label texts plus two separators; ExportFields gives its fields |
| Export.ExportLines | scripts.js:307-318 | as many lines as samples; ExportLinesSnoc gives each line and its place |
| Export.ExportLinesSnoc | scripts.js:308-317 | one more sample adds its own line, with its resolved label, at the end |
| Export.ExportText | scripts.js:305-318 | the export starts with the header line and ends with a newline |
| Export.ResolvedOneLine | scripts.js:309-316 | a resolved label holds no newline when no segment label does |
| Export.ExportShape | scripts.js:305-318 | the export is the header, then exactly one newline-terminated line per sample, in series order |
| Export.ExportFields | scripts.js:317 | each line's fields are the sample's instant, its value, then the comma-separated fields of its resolved label |
| Export.ExportedRows | scripts.js:317 | as many rows as samples; ExportedRowsSnoc gives each row and its place |
| Export.ExportedRowsSnoc | scripts.js:317 | one more sample adds its own row at the end |
| Export.PlainFieldsRow | scripts.js:22-24 | a line starting with two plain fields is read as those two fields |
| Export.ExportLineRow | scripts.js:317 | the series reader takes from a sample's line exactly its instant and value text |
| Export.ExportPrefixRows | scripts.js:305-317 | the first k sample lines are read back as the first k samples' instant and value text |
| Export.ExportRows | scripts.js:305-318 | reading the export gives each sample's instant and value text, in order |
| Export.ExportRoundTrip | scripts.js:305-318 | when the text conversions read back exactly, parsing the export of a sorted series gives that series |
| Session.SegmentTrace | scripts.js:273-286 | a segment's trace draws the samples it covers, in its colour, under its label |
| Session.LabellingSession.Valid | scripts.js:238-247 | the invariant the handlers keep: every segment carries its label's colour, the label introduced i-th has hue `i * 60 % 360`, and the current series is sorted by time |
| Session.LabellingSession.SegmentHuesInPalette | scripts.js:239-246 | under the invariant every segment's hue is a multiple of 60 below 360 |
| Session.LabellingSession.SavedLabelsReload | scripts.js:305-318 | reading back the text `saveLabels` builds, through the series reader, gives the current series, when the conversions read back exactly |
| Session.LabellingSession.constructor | scripts.js:1-4 | no segments, no selection, no colours, no data |
| Session.LabellingSession.PlotGraph | scripts.js:154-155 | given a sorted series, as both loaders pass it, `currentData` becomes that series; segments, colours and selection are unchanged |
| Session.LabellingSession.HandleSelection | scripts.js:185-194 | an event with a range records it as given; no event leaves the selection as it was |
| Session.LabellingSession.ApplyLabel | scripts.js:234-252 | an empty input gives "N"; the colour table gains the label's colour if new; exactly one segment with the current selection, the label and its colour is appended; the colour invariant holds |
| Session.LabellingSession.DeleteLabel | scripts.js:227-232 | the segments become their `splice(index, 1)`; the colour table is untouched; the colour invariant holds |
| Session.LabellingSession.RemoveLabel | scripts.js:254-258 | the same removal as `DeleteLabel` |
| Session.LabellingSession.Traces | scripts.js:262-288 | the base trace holds the whole series in blue, followed by one trace per segment, in segment order |
| Session.LabellingSession.LabelFor | scripts.js:309-316 | the resolution loop ends with the sample's resolved label |
| Session.LabellingSession.SaveLabels | scripts.js:305-318 | the text accumulated is the header and one line per sample with its resolved label |

## Left out

- The DOM is left out: dropdowns, modals, the delete table, the label list and the statistics table markup. It is user interface only.
- `fetch`, `FileReader`, the file picker and the download are left out because they are I/O. This includes the `data:text/csv;charset=utf-8,` prefix, `encodeURI` and the download file name `<tag>_labelled.csv`.
- The encoding of the download is left out. `encodeURI` leaves `#` unescaped, and a data URL drops its fragment. So a label holding `#` cuts the downloaded file at that character. The export modelled is `csvContent` before encoding.
- Plotly calls are left out because they belong to a foreign charting library. This covers `newPlot`, `relayout`, `react`, the layouts and the event hook-up. `Traces` models only the data handed to `react`.
- `calculateStdDev` and `toFixed(2)` are left out because they use floating point and `Math.sqrt`.
- Loading an empty series is left out. `openFile` and `loadData` call `calculateAndDisplayStats` before `plotGraph` (scripts.js:87-88, 148-149). Its standard-deviation step calls `reduce` with no initial value on `[]`, which throws a TypeError. So `plotGraph` is not reached and `currentData` keeps the previous series. The model's `PlotGraph` describes only a load that reaches `plotGraph`.
- The early return of `loadSubsystemTags` on an empty selection (scripts.js:47) is left out, because the dropdown's value is DOM state. A catalog line whose first field is only white space yields the subsystem "", which is offered, but the page never loads its tags.
- `removeLabel` ends by calling `updateLabelsList`, which scripts.js does not define. Unless the page defines it elsewhere, that call throws after the splice and the redraw. `RemoveLabel` models the splice, which is the only state change.
- Real `Date` parsing and formatting, `toLocaleString` and `parseFloat` are left out, including Invalid Date and NaN. They are the parameters described above. Values are integers, not doubles.
- Session.LabellingSession.HandleSelection: receives the range already converted by `new Date(...)`; the conversion of `event.range.x` is not modelled.
- Labels.WithColour: keys inherited from `Object.prototype` are not modelled. For example, a label named `constructor` already looks coloured to `!labelColors[label]`.
- Text.Split: characters are Unicode scalar values, not UTF-16 code units.
- Stats.Min: the engine's limit on the number of arguments passed to `Math.min(...values)` is not modelled. The same holds for `Stats.Max`.
