# hprof text-report filter, modelled in Dafny

The filter reads a CPU-sampling report that the JVM's hprof agent writes as text. It writes a shorter report.

- **Header.** The header is copied through up to and including the first line after the `-----` rule that is not itself a rule.
- **Skipped sections.** The first `index` sections are skipped. The trace definitions they hold are still collected.
- **Active section.** The trace definitions of the active section are read into an insertion-ordered map. Then its sample rows are read.
- **Report.** The report is written from the samples whose trace is known and not filtered:
  - the definitions of the traces those samples use, in map order;
  - a new `CPU SAMPLES BEGIN (total = …)` line carrying the date of the original;
  - the column header;
  - one re-ranked row per retained sample, sorted by count with ties kept in file order, with self and running percentages of the new total;
  - `CPU SAMPLES END`.

A trace is filtered when it has no stack lines, or when its top frame, trimmed, starts with `sun.nio` or `sun.misc.Unsafe`.

## Structure

| Module | What it holds |
|---|---|
| `Text` | The `String`, `Integer` and Guava `Splitter` operations the filter uses. |
| `Options` | The `Option` datatype. |
| `Errors` | One `Error` constructor per exception a run can end with, and `Result`. |
| `Streams` | The reader: lines with a cursor and an optional mark. The writer: a growing list of lines. |
| `Traces` | The `Trace` class with its filter rule and its emitted text. |
| `TraceTable` | The `LinkedHashMap<Integer, Trace>`. It is a class over keys in insertion order plus a map to `Trace` objects, with a value view `Table`. |
| `Samples` | Parsing a sample row, the `Samples` class, and the emitted report as a function (`EmitText`). |
| `HProfFilter` | The reading phases and `run`. |
| `FilterProperties` | Lemmas about the reading phases. |
| `ReadBack` | Lemmas tying the writer to the reader. |

Each reading phase has two parts:

- A function of the rest of the input and the state so far (`DiscardFrom`, `TracesFrom`, `SamplesFrom`) states what the phase does.
- The imperative method (`ReadAndDiscardBlock`, `ReadTraces`, `ReadSamples`) is proved to end in the state that function gives.

`Run` is proved equal to `FilterReport`. That function is the whole run as a value: the header, then either the report or the error that ended the run.

## Model

| member | source | states |
|---|---|---|
| HProfFilter.ReadHeader | src/main/java/com/arpnetworking/test/junitbenchmarks/HProfFilter.java:178-194 | Copies every line it reads to the writer. It stops after the first line following a rule that is not itself a rule, or at the end of input. |
| FilterProperties.HeaderEndIsFirstStop | src/main/java/com/arpnetworking/test/junitbenchmarks/HProfFilter.java:185-193 | The header ends exactly after the first line where the loop breaks. No earlier line breaks it. With no such line, the header is the whole input. |
| HProfFilter.HeaderEnd | src/main/java/com/arpnetworking/test/junitbenchmarks/HProfFilter.java:185-193 | The header read from a position ends within the input, and not before that position. |
| HProfFilter.TraceId | src/main/java/com/arpnetworking/test/junitbenchmarks/HProfFilter.java:218-226 | A trace id is a 32-bit int, taken from the second space-separated piece with every `:` removed. |
| FilterProperties.TraceIdOfHeader | src/main/java/com/arpnetworking/test/junitbenchmarks/HProfFilter.java:218-226 | `createTrace` reads back the id from every `TRACE <id>:` line that `Trace.emit` writes. |
| FilterProperties.TraceIdWithoutSpace | src/main/java/com/arpnetworking/test/junitbenchmarks/HProfFilter.java:219-222 | A TRACE line with no space in it is rejected as malformed. |
| FilterProperties.SplitOfPair | src/main/java/com/arpnetworking/test/junitbenchmarks/HProfFilter.java:219 | `split(" ")` of a head, one space and a space-free tail gives exactly those two pieces. |
| HProfFilter.CreateTrace | src/main/java/com/arpnetworking/test/junitbenchmarks/HProfFilter.java:218-226 | Returns a fresh trace with the parsed id and no stack lines, or the error for a malformed line. |
| HProfFilter.PutEmpty | src/main/java/com/arpnetworking/test/junitbenchmarks/HProfFilter.java:208-209 | Putting a fresh trace replaces any trace under that id. A new id goes last in the order. |
| HProfFilter.OpenTrace | src/main/java/com/arpnetworking/test/junitbenchmarks/HProfFilter.java:207-209 | A TRACE line while discarding puts a new empty trace and makes it the open one. A bad line gives the parse error. |
| HProfFilter.AppendToOpen | src/main/java/com/arpnetworking/test/junitbenchmarks/HProfFilter.java:212-213 | Appends the line to the open trace only. The map's object structure is unchanged. |
| HProfFilter.DiscardStep | src/main/java/com/arpnetworking/test/junitbenchmarks/HProfFilter.java:205-214 | After any line, the open trace, if there is one, is in the table. |
| HProfFilter.DiscardFrom | src/main/java/com/arpnetworking/test/junitbenchmarks/HProfFilter.java:196-216 | The discard loop stops within the input. |
| HProfFilter.DiscardLine | src/main/java/com/arpnetworking/test/junitbenchmarks/HProfFilter.java:205-214 | One line of `readAndDiscardBlock` changes the table and the open trace exactly as `DiscardStep` says. |
| HProfFilter.DiscardNext | src/main/java/com/arpnetworking/test/junitbenchmarks/HProfFilter.java:203-215 | One iteration of the do-while loop either ends the phase with `DiscardFrom`'s result or leaves `DiscardFrom` of the rest unchanged. |
| HProfFilter.ReadAndDiscardBlock | src/main/java/com/arpnetworking/test/junitbenchmarks/HProfFilter.java:196-216 | The reader and the table end where `DiscardFrom` says. An error is the one `DiscardFrom` gives. |
| FilterProperties.DiscardStopsAfterEnd | src/main/java/com/arpnetworking/test/junitbenchmarks/HProfFilter.java:203-215 | Discarding stops right after the first `CPU SAMPLES END` line, or at the end of input when there is none. |
| FilterProperties.DiscardFailsOnTrace | src/main/java/com/arpnetworking/test/junitbenchmarks/HProfFilter.java:207-209 | Discarding can fail only on a TRACE line whose id does not parse, and the error is that parse error. |
| FilterProperties.MarkerClosesTrace | src/main/java/com/arpnetworking/test/junitbenchmarks/HProfFilter.java:210-211 | A BEGIN or THREAD line closes the open trace. |
| FilterProperties.DiscardWithoutTrace | src/main/java/com/arpnetworking/test/junitbenchmarks/HProfFilter.java:203-215 | With no TRACE line ahead, discarding succeeds and leaves the table as it was. |
| FilterProperties.DiscardStepKeeps | src/main/java/com/arpnetworking/test/junitbenchmarks/HProfFilter.java:207-214 | One line never removes a key. A TRACE line's id enters the table. An END line is never appended to a trace. |
| FilterProperties.DiscardKeepsTraces | src/main/java/com/arpnetworking/test/junitbenchmarks/HProfFilter.java:207-213 | Discarding keeps every key already known, gains the id of every TRACE line it passes, and never stores an END line. |
| FilterProperties.SkipSectionsKeepsTraces | src/main/java/com/arpnetworking/test/junitbenchmarks/HProfFilter.java:104-107 | Skipping any number of sections keeps every key already known. It gains the id of every TRACE line it passes, and never stores an END line. |
| HProfFilter.SkipSections | src/main/java/com/arpnetworking/test/junitbenchmarks/HProfFilter.java:104-107 | Skipping `index` sections stops within the input. |
| HProfFilter.SkipBlocks | src/main/java/com/arpnetworking/test/junitbenchmarks/HProfFilter.java:104-107 | The skip loop ends where `SkipSections` says, or with its error. |
| HProfFilter.TracesStep | src/main/java/com/arpnetworking/test/junitbenchmarks/HProfFilter.java:161-174 | A step that goes on moves the mark at most to the next line. A step that succeeds ends at the mark. |
| HProfFilter.TracesFrom | src/main/java/com/arpnetworking/test/junitbenchmarks/HProfFilter.java:153-176 | The trace phase ends within the input. |
| HProfFilter.DefineTrace | src/main/java/com/arpnetworking/test/junitbenchmarks/HProfFilter.java:164-167 | A TRACE line puts a new empty trace and marks the reader after it. A bad line gives the parse error. |
| HProfFilter.ExtendTrace | src/main/java/com/arpnetworking/test/junitbenchmarks/HProfFilter.java:171-174 | A stack line is appended to the current trace, and the reader is marked after it. |
| HProfFilter.TracesAt | src/main/java/com/arpnetworking/test/junitbenchmarks/HProfFilter.java:160-174 | One line of `readTraces` does exactly what `TracesStep` says to the reader, the table and the current trace. |
| HProfFilter.TracesLine | src/main/java/com/arpnetworking/test/junitbenchmarks/HProfFilter.java:160-175 | One loop iteration either ends the phase with `TracesFrom`'s result or leaves `TracesFrom` of the rest unchanged. |
| HProfFilter.ReadTraces | src/main/java/com/arpnetworking/test/junitbenchmarks/HProfFilter.java:153-176 | The reader, the mark and the table end where `TracesFrom` says. An error is the one it gives. |
| FilterProperties.TracesFromKeepsKeys | src/main/java/com/arpnetworking/test/junitbenchmarks/HProfFilter.java:164-174 | Reading the trace definitions never removes a trace from the map. |
| TraceTable.PutKnownKeepsOrder | src/main/java/com/arpnetworking/test/junitbenchmarks/HProfFilter.java:166 | Putting a known id again keeps the iteration order and resets that id's stack lines. |
| FilterProperties.TracesStopBeforeBegin | src/main/java/com/arpnetworking/test/junitbenchmarks/HProfFilter.java:160-176 | A successful trace phase stops at the end of input or before a BEGIN line, with only THREAD lines in between. The reset rewinds over those. |
| FilterProperties.ThreadLinePassed | src/main/java/com/arpnetworking/test/junitbenchmarks/HProfFilter.java:161-163 | A THREAD line changes nothing in the trace phase. |
| FilterProperties.StrayLineFails | src/main/java/com/arpnetworking/test/junitbenchmarks/HProfFilter.java:171-172 | A stack line with no open trace ends the run with an error. This is the null dereference. |
| FilterProperties.StackLineBeforeTrace | src/main/java/com/arpnetworking/test/junitbenchmarks/HProfFilter.java:159-172 | A stack line before any TRACE line in the active block is an error, after any run of THREAD lines. |
| HProfFilter.BeginTotal | src/main/java/com/arpnetworking/test/junitbenchmarks/HProfFilter.java:134-136 | The total of a BEGIN line is a 32-bit int. Otherwise the error is a malformed line or a bad number. |
| HProfFilter.TotalFrom | src/main/java/com/arpnetworking/test/junitbenchmarks/HProfFilter.java:134-136 | An accepted total is an int32. Otherwise the error is a malformed BEGIN line or a bad number. |
| HProfFilter.BeginDate | src/main/java/com/arpnetworking/test/junitbenchmarks/HProfFilter.java:137-138 | When the date cannot be cut out after the first `)`, the error is a malformed BEGIN line. |
| HProfFilter.ParseBegin | src/main/java/com/arpnetworking/test/junitbenchmarks/HProfFilter.java:132-138 | A BEGIN line gives an int32 total and a date, or a BEGIN or number error. |
| FilterProperties.BeginTotalOfParts | src/main/java/com/arpnetworking/test/junitbenchmarks/HProfFilter.java:134-136 | A line made of the lead, a numeral and a rest starting with `)` gives that numeral's value as the total. |
| FilterProperties.BeginDateAt | src/main/java/com/arpnetworking/test/junitbenchmarks/HProfFilter.java:137-138 | The date starts two characters after the first `)`. |
| FilterProperties.ParseBeginOfBeginLine | src/main/java/com/arpnetworking/test/junitbenchmarks/HProfFilter.java:132-138 | `readSamples` reads back the total and the date from every BEGIN line that `emit` writes. |
| HProfFilter.SamplesStep | src/main/java/com/arpnetworking/test/junitbenchmarks/HProfFilter.java:128-147 | A line that lets reading go on adds no sample, or exactly one printable sample at the end. Only a BEGIN line changes the date. A phase ends successfully only on an END line, returning what was read so far. |
| HProfFilter.SamplesFrom | src/main/java/com/arpnetworking/test/junitbenchmarks/HProfFilter.java:128-150 | A successful phase keeps the samples it started with, in front. When those were printable, so is every sample it returns. |
| HProfFilter.SamplesLine | src/main/java/com/arpnetworking/test/junitbenchmarks/HProfFilter.java:128-147 | One loop iteration of `readSamples` either ends the phase with `SamplesFrom`'s result or leaves `SamplesFrom` of the rest unchanged. |
| HProfFilter.ReadSamples | src/main/java/com/arpnetworking/test/junitbenchmarks/HProfFilter.java:120-151 | The samples and the date end as `SamplesFrom` says, or the error is the one it gives. |
| HProfFilter.ReadSection | src/main/java/com/arpnetworking/test/junitbenchmarks/HProfFilter.java:98-114 | The reading phases of `run` yield `ActiveSection`'s table, samples and date, or its error. |
| HProfFilter.ActiveSection | src/main/java/com/arpnetworking/test/junitbenchmarks/HProfFilter.java:98-114 | Every sample of a section that reads successfully is printable: int32 count and trace, and trimmed method text. |
| HProfFilter.Run | src/main/java/com/arpnetworking/test/junitbenchmarks/HProfFilter.java:97-118 | What a run writes, and the error it ends with, are exactly `FilterReport`. |
| ReadBack.RunWritesHeaderFirst | src/main/java/com/arpnetworking/test/junitbenchmarks/HProfFilter.java:97-118 | A run first writes the header. It then writes only the report text, or ends with an error after the header. |
| HProfFilter.FilterReport | src/main/java/com/arpnetworking/test/junitbenchmarks/HProfFilter.java:97-118 | The output begins with what was written before and then the header. When a phase fails, nothing follows the header. |
| HProfFilter.LastIndexOf | src/main/java/com/arpnetworking/test/junitbenchmarks/HProfFilter.java:81-82 | The last position of a character, or -1 when it is absent. |
| HProfFilter.LastIndexOfAt | src/main/java/com/arpnetworking/test/junitbenchmarks/HProfFilter.java:81-82 | A character with no copy after it is at the last position of that character. |
| HProfFilter.FileExtension | src/main/java/com/arpnetworking/test/junitbenchmarks/HProfFilter.java:82 | The extension is what follows the last dot, so it holds no dot. |
| HProfFilter.NameWithoutExtension | src/main/java/com/arpnetworking/test/junitbenchmarks/HProfFilter.java:81 | The name is its part without extension, then a dot and the extension when the name has a dot. |
| HProfFilter.FilteredName | src/main/java/com/arpnetworking/test/junitbenchmarks/HProfFilter.java:80-85 | The result keeps the name's extension. Its part without extension is the name's, with `.filtered` appended. |
| FilterProperties.FilteredNameOfExtension | src/main/java/com/arpnetworking/test/junitbenchmarks/HProfFilter.java:80-85 | `a.ext` becomes `a.filtered.ext`. |
| FilterProperties.FilteredNameWithoutDot | src/main/java/com/arpnetworking/test/junitbenchmarks/HProfFilter.java:80-85 | A name without a dot gets `.filtered.` appended. |
| Samples.ParseSample | src/main/java/com/arpnetworking/test/junitbenchmarks/HProfFilter.java:233-242 | A parsed sample has int32 count and trace and a trimmed method text. Otherwise the error is a malformed row or a bad number. |
| Samples.ParseOfFormatRow | src/main/java/com/arpnetworking/test/junitbenchmarks/HProfFilter.java:233-242 | `addLine` reads back the count, trace and method of every row that `emit` formats. |
| Samples.FieldsOfFormatRow | src/main/java/com/arpnetworking/test/junitbenchmarks/HProfFilter.java:264 | The splitter cuts a formatted row into exactly its six cells: rank, self%, accum%, count, trace and method. |
| Samples.Samples.constructor | src/main/java/com/arpnetworking/test/junitbenchmarks/HProfFilter.java:231 | A new `Samples` holds no samples. |
| Samples.Samples.AddLine | src/main/java/com/arpnetworking/test/junitbenchmarks/HProfFilter.java:233-242 | A good row appends its sample. A bad row gives its error and leaves the list unchanged. |
| Samples.InsertByCount | src/main/java/com/arpnetworking/test/junitbenchmarks/HProfFilter.java:296 | Insertion adds exactly one element to the multiset. |
| Samples.SortByCount | src/main/java/com/arpnetworking/test/junitbenchmarks/HProfFilter.java:296 | The result is sorted by descending count and is a permutation of its input. |
| Samples.InsertSorted | src/main/java/com/arpnetworking/test/junitbenchmarks/HProfFilter.java:296 | Inserting into a sorted list keeps it sorted. |
| Samples.SortStable | src/main/java/com/arpnetworking/test/junitbenchmarks/HProfFilter.java:296 | The sort is stable: the samples of any one count keep their file order. |
| Samples.Retained | src/main/java/com/arpnetworking/test/junitbenchmarks/HProfFilter.java:286-296 | The stream filter keeps no more samples than it is given, and every sample it keeps has a known, unfiltered trace. |
| Samples.RelevantIds | src/main/java/com/arpnetworking/test/junitbenchmarks/HProfFilter.java:285-295 | Every relevant id is a key of the map whose trace is not filtered. |
| Samples.RetainedMembers | src/main/java/com/arpnetworking/test/junitbenchmarks/HProfFilter.java:286-295 | A sample is retained exactly when it is in the list and its trace is known and not filtered. |
| Samples.RetainedMultiplicity | src/main/java/com/arpnetworking/test/junitbenchmarks/HProfFilter.java:286-295 | Retention keeps every occurrence of a kept sample and none of the others. |
| Samples.RelevantIdsMembers | src/main/java/com/arpnetworking/test/junitbenchmarks/HProfFilter.java:285-295 | An id is relevant exactly when some retained sample uses it. |
| Samples.RelevantAreUnfiltered | src/main/java/com/arpnetworking/test/junitbenchmarks/HProfFilter.java:294-304 | A relevant id is in the map, its trace is not filtered, and its full definition is emitted. |
| Samples.TraceSectionContents | src/main/java/com/arpnetworking/test/junitbenchmarks/HProfFilter.java:299-306 | The definitions written are those of the relevant ids, each once, in map iteration order. |
| Samples.TraceDefinitionsAppend | src/main/java/com/arpnetworking/test/junitbenchmarks/HProfFilter.java:299-306 | The trace section is the existing output followed by the definitions of the selected keys. |
| Samples.TraceDefinitionsAfter | src/main/java/com/arpnetworking/test/junitbenchmarks/HProfFilter.java:299-306 | Definition writing only appends to the output. |
| Samples.Total | src/main/java/com/arpnetworking/test/junitbenchmarks/HProfFilter.java:254 | Non-negative counts give a non-negative total. Counts that are all zero give zero. |
| Samples.TotalOfSort | src/main/java/com/arpnetworking/test/junitbenchmarks/HProfFilter.java:254 | Sorting does not change the total count. |
| Samples.RowsAt | src/main/java/com/arpnetworking/test/junitbenchmarks/HProfFilter.java:266-274 | The i-th row has rank `1 + i`, the i-th sample and its self percentage. Its running percentage is that of the first i+1 samples. |
| Samples.LinesAt | src/main/java/com/arpnetworking/test/junitbenchmarks/HProfFilter.java:266-274 | The i-th emitted row line is the i-th row, formatted. |
| Samples.SampleRowsLines | src/main/java/com/arpnetworking/test/junitbenchmarks/HProfFilter.java:266-274 | The row loop appends one formatted line per sample. |
| Samples.SelfPercent | src/main/java/com/arpnetworking/test/junitbenchmarks/HProfFilter.java:269 | The self percentage is finite exactly when the total is not zero, and then times the total it is the count times 100. With a zero total it is NaN exactly when the count is zero, and infinite otherwise. |
| Samples.AddPercent | src/main/java/com/arpnetworking/test/junitbenchmarks/HProfFilter.java:270 | `double` addition: finite exactly when both sides are finite. NaN exactly when either side is NaN, or the two are opposite infinities. |
| Samples.Accumulate | src/main/java/com/arpnetworking/test/junitbenchmarks/HProfFilter.java:267-270 | A NaN running percentage stays NaN. With a non-zero total, the running percentage stays finite exactly when it starts finite. |
| Samples.AccumulateFinite | src/main/java/com/arpnetworking/test/junitbenchmarks/HProfFilter.java:267-270 | With a non-zero total, the running percentage is the sum so far over the total, times 100. |
| Samples.AccumulateToHundred | src/main/java/com/arpnetworking/test/junitbenchmarks/HProfFilter.java:267-270 | The last running percentage is exactly 100, in exact arithmetic, when the total is not zero (see `Samples.FixedTwo` under "Left out" for `double`). |
| Samples.ZeroCountsGiveNaN | src/main/java/com/arpnetworking/test/junitbenchmarks/HProfFilter.java:269-270 | When every count is zero, the total is zero and every percentage is NaN. This is what double division gives. |
| Samples.FixedTwo | src/main/java/com/arpnetworking/test/junitbenchmarks/HProfFilter.java:264 | `%.2f` of a finite value, in a locale such as `Locale.US` (see "Left out"), is non-empty and made of ASCII digits, `-` and `.` only. |
| Samples.BeginLine | src/main/java/com/arpnetworking/test/junitbenchmarks/HProfFilter.java:258 | The new BEGIN line starts with `CPU SAMPLES BEGIN (total = ` and ends with the date of the original. |
| Samples.RowCells | src/main/java/com/arpnetworking/test/junitbenchmarks/HProfFilter.java:264-271 | A row has six cells, the last being the method text. The cells are at least as wide as the format's widths: 4, 6, 6, 7 and 5. |
| Samples.FormatRow | src/main/java/com/arpnetworking/test/junitbenchmarks/HProfFilter.java:264-271 | A formatted row starts with the rank padded to four places and a space. It ends with a space and the method text. |
| Text.JoinEnds | src/main/java/com/arpnetworking/test/junitbenchmarks/HProfFilter.java:264 | Joining two or more cells with spaces begins with the first cell and a space, and ends with a space and the last cell. |
| Samples.Samples.EmitRelevantTraces | src/main/java/com/arpnetworking/test/junitbenchmarks/HProfFilter.java:280-309 | Returns the retained samples sorted by count. It writes the definitions of the relevant, unfiltered traces in map order. |
| Samples.Samples.Emit | src/main/java/com/arpnetworking/test/junitbenchmarks/HProfFilter.java:244-278 | Writes exactly `EmitText`: nothing for no samples; otherwise the trace section, the BEGIN line, the header, the rows and END. |
| Samples.EmitText | src/main/java/com/arpnetworking/test/junitbenchmarks/HProfFilter.java:244-278 | The report only appends to the output, and with no samples it writes nothing. With samples, it adds at least three lines, the last being `CPU SAMPLES END`. |
| ReadBack.EmitAppends | src/main/java/com/arpnetworking/test/junitbenchmarks/HProfFilter.java:249-251 | Emitting only appends to the output, and nothing is written when there are no samples. |
| ReadBack.EmitLayout | src/main/java/com/arpnetworking/test/junitbenchmarks/HProfFilter.java:244-278 | The emitted text is the trace section, the BEGIN line with the new total, the column header, one line per row, then END. |
| ReadBack.EndStep | src/main/java/com/arpnetworking/test/junitbenchmarks/HProfFilter.java:142-144 | An END line ends `readSamples` with what was read so far. |
| ReadBack.HeaderStep | src/main/java/com/arpnetworking/test/junitbenchmarks/HProfFilter.java:139-141 | The column header line is passed over. |
| ReadBack.BeginStep | src/main/java/com/arpnetworking/test/junitbenchmarks/HProfFilter.java:132-138 | A BEGIN line written by `emit` sets the date and adds no sample. |
| ReadBack.RowStep | src/main/java/com/arpnetworking/test/junitbenchmarks/HProfFilter.java:145-147 | A formatted row is added as the sample it was written for. |
| ReadBack.RowIsNoMarker | src/main/java/com/arpnetworking/test/junitbenchmarks/HProfFilter.java:129-144 | A formatted row is not a THREAD, BEGIN or END line, and does not start with `rank` once trimmed. |
| ReadBack.RowsReadBack | src/main/java/com/arpnetworking/test/junitbenchmarks/HProfFilter.java:128-148 | Reading the emitted rows adds exactly their samples, in order. |
| ReadBack.SectionReadsBack | src/main/java/com/arpnetworking/test/junitbenchmarks/HProfFilter.java:120-151 | A BEGIN line, header, rows and END line read back as those samples with that date. |
| ReadBack.KeptArePrintable | src/main/java/com/arpnetworking/test/junitbenchmarks/HProfFilter.java:233-242 | Every retained sample came from a row that `addLine` accepted, so it prints and parses back. |
| ReadBack.EmittedSectionReadsBack | src/main/java/com/arpnetworking/test/junitbenchmarks/HProfFilter.java:244-278 | `readSamples` started at the emitted BEGIN line returns exactly the retained, sorted samples and the original date. |
| Traces.Trace.constructor | src/main/java/com/arpnetworking/test/junitbenchmarks/Trace.java:110-112 | A new trace has the given id and no stack lines. |
| Traces.Trace.AddStackLine | src/main/java/com/arpnetworking/test/junitbenchmarks/Trace.java:39-42 | Appends the line and returns the same object. |
| Traces.Trace.ShouldFilter | src/main/java/com/arpnetworking/test/junitbenchmarks/Trace.java:49-60 | True exactly when the trace is filtered: no stack lines, or a trimmed top frame with an excluded prefix. |
| Traces.Trace.Emit | src/main/java/com/arpnetworking/test/junitbenchmarks/Trace.java:69-76 | Writes `TRACE <id>:` and then every stack line in order. |
| Traces.Trace.Equals | src/main/java/com/arpnetworking/test/junitbenchmarks/Trace.java:87-100 | Equal exactly when the other object is a trace with the same id and the same stack lines. |
| Traces.FilterFixedByTopFrame | src/main/java/com/arpnetworking/test/junitbenchmarks/Trace.java:49-60 | Adding lines below the top frame never changes whether a trace is filtered. |
| Traces.ExcludedFrameCases | src/main/java/com/arpnetworking/test/junitbenchmarks/Trace.java:53-58 | A frame is excluded exactly when, trimmed, it starts with `sun.nio` or `sun.misc.Unsafe`. |
| Traces.FilterOfSingleFrame | src/main/java/com/arpnetworking/test/junitbenchmarks/Trace.java:49-60 | A one-frame trace with a trimmed frame is filtered exactly when the frame has an excluded prefix. |
| Traces.FilterExcludedExamples | src/main/java/com/arpnetworking/test/junitbenchmarks/Trace.java:54-57 | `sun.nio.foo.bar` and `sun.misc.Unsafe.foo.bar` are filtered. |
| Traces.FilterKeptExamples | src/main/java/com/arpnetworking/test/junitbenchmarks/Trace.java:49-60 | `com.java` and `sun.foo` are kept. |
| TraceTable.TraceMap.constructor | src/main/java/com/arpnetworking/test/junitbenchmarks/HProfFilter.java:101 | A new map is empty. |
| TraceTable.TraceMap.Put | src/main/java/com/arpnetworking/test/junitbenchmarks/HProfFilter.java:166 | `put` replaces the entry for the id. A new id goes last in iteration order. |
| TraceTable.TraceMap.Get | src/main/java/com/arpnetworking/test/junitbenchmarks/HProfFilter.java:290 | `get` finds a trace exactly when the id is a key, and that trace carries the id. |
| TraceTable.TraceMap.Value | src/main/java/com/arpnetworking/test/junitbenchmarks/HProfFilter.java:299-306 | The value view has the map's keys in iteration order. |
| TraceTable.AppendThroughEntry | src/main/java/com/arpnetworking/test/junitbenchmarks/HProfFilter.java:172 | Appending to a trace held in the map changes that key's lines only. |
| TraceTable.Table.Put | src/main/java/com/arpnetworking/test/junitbenchmarks/HProfFilter.java:166 | `put` makes the id a key and keeps every other key. |
| TraceTable.Table.Append | src/main/java/com/arpnetworking/test/junitbenchmarks/HProfFilter.java:172 | Adding a stack line changes neither the keys nor their order. |
| Text.DecimalDigit | src/main/java/com/arpnetworking/test/junitbenchmarks/HProfFilter.java:224 | `Character.digit(c, 10)`: a value below 10 for a character of one of the decimal-digit blocks, and none for any other character. |
| Text.AsciiDecimalDigit | src/main/java/com/arpnetworking/test/junitbenchmarks/HProfFilter.java:136 | The ASCII digits have their usual values. |
| Text.ParseInt | src/main/java/com/arpnetworking/test/junitbenchmarks/HProfFilter.java:136 | `Integer.parseInt`: an accepted value fits 32 bits, and the empty string is rejected. |
| Text.ParseIntOfNumeral | src/main/java/com/arpnetworking/test/junitbenchmarks/HProfFilter.java:136 | An optional `-` followed by decimal digits of any script parses as their value, when that fits 32 bits. |
| Text.ParseIntOfOtherScripts | src/main/java/com/arpnetworking/test/junitbenchmarks/HProfFilter.java:238-239 | Fullwidth `１２` parses as 12 and Arabic-Indic `-٧` as -7. A digit followed by a letter is rejected. |
| Text.JavaTrimSpec | src/main/java/com/arpnetworking/test/junitbenchmarks/HProfFilter.java:139 | `trim()` leaves no character up to `' '` at either end, never lengthens, keeps a string with nothing to trim, and empties one made only of such characters. |
| Text.GuavaTrimSpec | src/main/java/com/arpnetworking/test/junitbenchmarks/HProfFilter.java:230 | `trimResults()` leaves no whitespace at either end of a piece, never lengthens it, keeps a piece with nothing to trim, and empties a piece of whitespace only. |
| Text.RemoveChar | src/main/java/com/arpnetworking/test/junitbenchmarks/HProfFilter.java:224 | `replace(":", "")` leaves no `:` in the result, never lengthens, and keeps a string without `:` as it is. |
| Text.JavaSplitSpec | src/main/java/com/arpnetworking/test/junitbenchmarks/HProfFilter.java:219 | `split(" ")` gives `[s]` when there is no space; otherwise the leading pieces between spaces, none holding a space, with no empty piece at the end. |
| Text.IntToStringSpec | src/main/java/com/arpnetworking/test/junitbenchmarks/HProfFilter.java:258 | `%d`, in a locale such as `Locale.US` (see "Left out"), writes a minus sign exactly for a negative number, followed by ASCII digits only. |
| Text.Fields | src/main/java/com/arpnetworking/test/junitbenchmarks/HProfFilter.java:230 | The splitter with `limit(6)` yields at most the limit's number of pieces, each non-empty and trimmed. |
| Text.ParseIntOfIntToString | src/main/java/com/arpnetworking/test/junitbenchmarks/HProfFilter.java:136 | `Integer.parseInt` reads back every int printed with `%d`. |
| Text.FieldsOfJoin | src/main/java/com/arpnetworking/test/junitbenchmarks/HProfFilter.java:230 | The limited, trimming splitter gives back the cells of a space-joined row, with the padding removed. |
| Streams.Reader.ReadLine | src/main/java/com/arpnetworking/test/junitbenchmarks/HProfFilter.java:128 | `readLine` returns the next line and moves past it, or returns null at the end. The mark stays as it was. |
| Streams.Reader.Mark | src/main/java/com/arpnetworking/test/junitbenchmarks/HProfFilter.java:167 | `mark` records the current position. |
| Streams.Writer.WriteLine | src/main/java/com/arpnetworking/test/junitbenchmarks/HProfFilter.java:186-187 | `write` and `newLine` append exactly one line. |
| Streams.Reader.Reset | src/main/java/com/arpnetworking/test/junitbenchmarks/HProfFilter.java:169 | `reset` returns to the mark, or fails when no mark was set. |

## Left out

- File I/O: the report and the result file, UTF-8 decoding, line splitting and the `main` argument handling (lines 53-69 and 90-94) are not modelled. The reader is already split into lines, and the writer collects lines.
- `run(Path, …)` builds a path with `toAbsolutePath().normalize().resolveSibling`. Only the name rule of lines 80-85 is modelled (`FilteredName`), over the bare file name.
- `READ_AHEAD_LIMIT`: marks never expire in the model. `readTraces` takes the mark again after every TRACE line and every stack line (lines 167 and 173). So the reset at BEGIN fails only when the THREAD lines between the last TRACE or stack line and BEGIN exceed 256 KiB. That failure is an I/O error, and it is not modelled.
- Logging (`LOGGER.info`) writes nothing to the report and is left out.
- The unused `writer` parameter of `readSamples` and `readTraces`, and the unused `date` parameter of `emitRelevantTraces`, are dropped. The total parsed in `readSamples` is checked for the error it can raise, but its value is dropped, as the code never uses it.
- `hashCode` and `toString` of `Trace` are not modelled. They do not affect the output.
- `Trace.GetId` returns the id. It carries no contract of its own, and `Trace.Emit`, `TraceMap.Get` and `TraceMap.Put` state what it is used for.
- Samples.Samples.Emit: the total is an unbounded integer. In the code it is a `long` summed from `int` counts, and no list the filter can hold overflows a `long`.
- Samples.FixedTwo: percentages are exact rationals rounded half up to two places. Java computes them in `double` and rounds the double's decimal form. The two can differ in the last digit, and floating point is not modelled. Signs differ too: a zero count over a negative total is `-0.0` in Java, which prints `-0.00`, where the model prints `0.00`.
- Samples.Samples.EmitRelevantTraces: the null check in the stream filter (line 287) is left out, because the list never holds `null`.
- ReadBack.EmittedSectionReadsBack requires a total that fits an `int`. Above that, the re-read BEGIN line fails `Integer.parseInt`, as it would in Java.
- ReadBack.EmittedSectionReadsBack also requires printable samples. `HProfFilter.ActiveSection` ensures this for every section a run reads.
- Text.IntToStringSpec: `String.format` formats in the JVM's default locale. The model fixes a locale such as `Locale.US` or `Locale.ROOT`, whose zero digit is the ASCII `0`. In a locale with another zero digit, such as Persian, `%d`, `%4d`, `%7d` and `%5d` write that script's digits. This affects `Text.IntToString`, and through it `Samples.BeginLine`, `Samples.FormatRow` and the `TRACE <id>:` line of `Traces.Trace.Emit`. `Integer.parseInt` accepts those digits too (`Text.ParseIntOfNumeral`), so the read-back lemmas would hold in such a locale as well.
- Samples.FixedTwo: the same fixed locale also gives `.` as the decimal separator and ASCII digits. In a locale such as `Locale.GERMANY`, `%5.2f` writes `12,50` for 12.5. The percent cells are never parsed back, so no read-back lemma depends on this.
- Text.DecimalDigit: the digit table is that of Unicode 6.2, the version Java 8 uses, and it lists the Basic Multilingual Plane only. Later JDKs add further digit blocks, such as Sinhala Lith (U+0DE6) and Myanmar Tai Laing (U+A9F0). Java strings hold supplementary characters as surrogate pairs, which `Character.digit` rejects, so the model rejects them too.
- Exceptions become an `Error` value that ends the run. What a run writes before the exception is kept. The header is flushed, and no phase after the header writes before `emit`.
- A section whose retained samples all count zero: here the code divides by a zero total and prints `NaN` or `Infinity`. The model follows the code (`Samples.ZeroCountsGiveNaN`).
- In `readTraces`, every line other than THREAD, TRACE and BEGIN is appended to the current trace, `CPU SAMPLES END` included. The model follows the code.
