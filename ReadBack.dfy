/**
 * A filtered report is itself a report the filter can read: the sample
 * section `Samples.emit` writes reads back, through the `readSamples`
 * phase, as the samples it lists and the date it was given.
 */
module ReadBack {
  import opened Options
  import opened Text
  import opened Errors
  import opened TraceTable
  import opened Traces
  import opened Samples
  import opened HProfFilter
  import FilterProperties

  /** The first characters of the line markers. */
  lemma MarkerHeads()
    ensures ThreadPrefix != [] && ThreadPrefix[0] == 'T'
    ensures SamplesBegin != [] && SamplesBegin[0] == 'C'
    ensures RankPrefix != [] && RankPrefix[0] == 'r'
  {
  }

  /** `readSamples` reads an END line as the end of the section. */
  lemma EndStep(ss: seq<Sample>, date: string)
    ensures SamplesStep(SamplesEnd, ss, date) == Finished(Ok(SampleSection(ss, date)))
  {
    MarkerHeads();
    NotStartsWithHead(SamplesEnd, ThreadPrefix);
    assert !StartsWith(SamplesEnd, SamplesBegin);
    JavaTrimOfTrimmed(SamplesEnd);
    NotStartsWithHead(JavaTrim(SamplesEnd), RankPrefix);
    assert StartsWith(SamplesEnd, SamplesEnd);
  }

  lemma RowHeaderMarks()
    ensures RowHeader != [] && RowHeader[0] == 'r' && StartsWith(RowHeader, RankPrefix)
  {
    assert RowHeader[0] == 'r' && RowHeader[1] == 'a' && RowHeader[2] == 'n' && RowHeader[3] == 'k';
    assert RowHeader[..|RankPrefix|] == RankPrefix;
  }

  lemma RowHeaderTrimmed()
    ensures JavaTrim(RowHeader) == RowHeader
  {
    JavaTrimOfTrimmed(RowHeader);
  }

  /** `readSamples` passes over the column header. */
  lemma HeaderStep(ss: seq<Sample>, date: string)
    ensures SamplesStep(RowHeader, ss, date) == More(ss, date)
  {
    MarkerHeads();
    RowHeaderMarks();
    RowHeaderTrimmed();
    NotStartsWithHead(RowHeader, ThreadPrefix);
    NotStartsWithHead(RowHeader, SamplesBegin);
  }

  lemma BeginLeadMarks()
    ensures BeginLead != [] && BeginLead[0] == 'C' && StartsWith(BeginLead, SamplesBegin)
  {
    assert BeginLead[..|SamplesBegin|] == SamplesBegin;
  }

  /** `readSamples` reads the BEGIN line `emit` writes as its date. */
  lemma BeginStep(total: int, date: string, ss: seq<Sample>, date0: string)
    requires IsInt32(total)
    ensures SamplesStep(BeginLine(total, date), ss, date0) == More(ss, date)
  {
    var line := BeginLine(total, date);
    var rest := IntToString(total) + (") " + date);
    BeginLeadMarks();
    MarkerHeads();
    StartsWithExtend(BeginLead, SamplesBegin, rest);
    assert line[0] == 'C';
    NotStartsWithHead(line, ThreadPrefix);
    FilterProperties.ParseBeginOfBeginLine(total, date);
  }

  /** A formatted row is led by the padding of its rank, then the rank's first character. */
  lemma RowLead(rank: int, perc: Percent, accum: Percent, s: Sample)
    ensures var row := FormatRow(rank, perc, accum, s);
      var k := |PadLeft(IntToString(rank), 4)| - |IntToString(rank)|;
      && k < |row| && (forall i :: 0 <= i < k ==> row[i] == ' ')
      && (IsDigit(row[k]) || row[k] == '-')
  {
    var c := RowCells(rank, perc, accum, s);
    var d := IntToString(rank);
    var k := |PadLeft(d, 4)| - |d|;
    var row := Join(c);
    assert row == c[0] + " " + Join(c[1..]);
    assert c[0] == Spaces(k) + d;
    IntToStringFirst(rank);
    assert row[k] == d[0];
  }

  /** `readSamples` reads a formatted row as a sample row: it is none of the marker lines. */
  lemma RowIsNoMarker(rank: int, perc: Percent, accum: Percent, s: Sample)
    ensures var row := FormatRow(rank, perc, accum, s);
      && !StartsWith(row, ThreadPrefix) && !StartsWith(row, SamplesBegin)
      && !StartsWith(JavaTrim(row), RankPrefix) && !StartsWith(row, SamplesEnd)
  {
    var row := FormatRow(rank, perc, accum, s);
    var k := |PadLeft(IntToString(rank), 4)| - |IntToString(rank)|;
    RowLead(rank, perc, accum, s);
    MarkerHeads();
    assert row[0] == ' ' || IsDigit(row[0]) || row[0] == '-';
    NotStartsWithHead(row, ThreadPrefix);
    NotStartsWithHead(row, SamplesBegin);
    NotStartsWithHead(row, SamplesEnd);
    JavaTrimFirst(row, k);
    NotStartsWithHead(JavaTrim(row), RankPrefix);
  }

  /** `readSamples` adds the sample a formatted row was written for. */
  lemma RowStep(rank: int, perc: Percent, accum: Percent, s: Sample, ss: seq<Sample>, date: string)
    requires Printable(s)
    ensures SamplesStep(FormatRow(rank, perc, accum, s), ss, date) == More(ss + [s], date)
  {
    RowIsNoMarker(rank, perc, accum, s);
    ParseOfFormatRow(rank, perc, accum, s);
  }

  /** An END line ends the reading with the samples read so far. */
  lemma EndLineEnds(lines: seq<string>, pos: nat, ss: seq<Sample>, date: string)
    requires pos < |lines| && lines[pos] == SamplesEnd
    ensures SamplesFrom(lines, pos, ss, date) == Ok(SampleSection(ss, date))
  {
    EndStep(ss, date);
    SamplesFromFinished(lines, pos, ss, date, Ok(SampleSection(ss, date)));
  }

  /** Lines holding the text of `rows` start with the first row's and go on with the rest's. */
  lemma LinesSplit(lines: seq<string>, pos: nat, rows: seq<Row>)
    requires rows != [] && pos + |rows| <= |lines| && lines[pos..pos + |rows|] == Lines(rows)
    ensures lines[pos] == FormatRow(rows[0].rank, rows[0].perc, rows[0].accum, rows[0].sample)
    ensures lines[pos + 1..pos + |rows|] == Lines(rows[1..])
  {
    assert lines[pos] == lines[pos..pos + |rows|][0];
    assert lines[pos + 1..pos + |rows|] == lines[pos..pos + |rows|][1..];
  }

  /** The first of the rows' lines adds its sample and reading goes on with the rest. */
  lemma RowLineAdds(lines: seq<string>, pos: nat, ss: seq<Sample>, date: string, rows: seq<Row>, end: nat)
    requires rows != [] && end == pos + |rows| && end <= |lines| && lines[pos..end] == Lines(rows)
    requires Printable(rows[0].sample)
    ensures SamplesFrom(lines, pos, ss, date) == SamplesFrom(lines, pos + 1, ss + [rows[0].sample], date)
    ensures lines[pos + 1..end] == Lines(rows[1..])
  {
    RowLineStep(lines, pos, ss, date, rows);
    SamplesFromMore(lines, pos, ss, date, ss + [rows[0].sample], date);
  }

  /** `readSamples` adds the first row's sample on the first of the rows' lines. */
  lemma RowLineStep(lines: seq<string>, pos: nat, ss: seq<Sample>, date: string, rows: seq<Row>)
    requires rows != [] && pos + |rows| <= |lines| && lines[pos..pos + |rows|] == Lines(rows)
    requires Printable(rows[0].sample)
    ensures pos < |lines| && SamplesStep(lines[pos], ss, date) == More(ss + [rows[0].sample], date)
    ensures lines[pos + 1..pos + |rows|] == Lines(rows[1..])
  {
    var r := rows[0];
    LinesSplit(lines, pos, rows);
    RowStep(r.rank, r.perc, r.accum, r.sample, ss, date);
  }

  /** The rows show the samples `kept`, one each, all printable. */
  predicate RowsShow(rows: seq<Row>, kept: seq<Sample>) {
    |rows| == |kept| && forall i :: 0 <= i < |rows| ==> rows[i].sample == kept[i] && Printable(kept[i])
  }

  lemma RowsShowTail(rows: seq<Row>, kept: seq<Sample>, ss: seq<Sample>)
    requires RowsShow(rows, kept) && rows != []
    ensures RowsShow(rows[1..], kept[1..]) && rows[0].sample == kept[0] && Printable(kept[0])
    ensures ss + [kept[0]] + kept[1..] == ss + kept
  {
    assert forall i :: 0 <= i < |rows| - 1 ==> rows[1..][i] == rows[i + 1] && kept[1..][i] == kept[i + 1];
  }

  /** Reading the rows for `kept` adds `kept` to the samples read so far. */
  lemma {:induction false} RowsReadBack(lines: seq<string>, pos: nat, ss: seq<Sample>, date: string,
                                        rows: seq<Row>, kept: seq<Sample>, end: nat)
    requires end == pos + |rows| && end <= |lines| && lines[pos..end] == Lines(rows) && RowsShow(rows, kept)
    ensures SamplesFrom(lines, pos, ss, date) == SamplesFrom(lines, end, ss + kept, date)
    decreases |rows|
  {
    if rows == [] {
      assert ss + kept == ss;
    } else {
      RowsShowTail(rows, kept, ss);
      RowLineAdds(lines, pos, ss, date, rows, end);
      RowsReadBack(lines, pos + 1, ss + [kept[0]], date, rows[1..], kept[1..], end);
    }
  }

  /** Where the parts of a section lie: a head, a first and a second line, the rows, and a last line. */
  lemma SectionLayout(head: seq<string>, first: string, second: string, rows: seq<Row>, last: string, text: seq<string>)
    requires text == head + [first] + [second] + Lines(rows) + [last]
    ensures var b := |head|; var end := b + 2 + |rows|;
      && end < |text| && text[b] == first && text[b + 1] == second
      && text[b + 2..end] == Lines(rows) && text[end] == last
  {
    var b := |head|;
    assert text[b + 2..b + 2 + |rows|] == Lines(rows);
  }

  /** The BEGIN line gives its date and reading goes on. */
  lemma BeginLineRead(text: seq<string>, b: nat, total: int, date: string, ss: seq<Sample>, date0: string)
    requires b < |text| && text[b] == BeginLine(total, date) && IsInt32(total)
    ensures SamplesFrom(text, b, ss, date0) == SamplesFrom(text, b + 1, ss, date)
  {
    BeginStep(total, date, ss, date0);
    SamplesFromMore(text, b, ss, date0, ss, date);
  }

  /** The column header is passed over. */
  lemma HeaderLineRead(text: seq<string>, b: nat, ss: seq<Sample>, date: string)
    requires b < |text| && text[b] == RowHeader
    ensures SamplesFrom(text, b, ss, date) == SamplesFrom(text, b + 1, ss, date)
  {
    HeaderStep(ss, date);
    SamplesFromMore(text, b, ss, date, ss, date);
  }

  /**
   * A BEGIN line, the column header, the rows for `kept` and the END line
   * read back as `kept`, with the BEGIN line's date.
   */
  lemma SectionReadsBack(text: seq<string>, b: nat, total: int, date: string, rows: seq<Row>, kept: seq<Sample>,
                         end: nat, ss: seq<Sample>, date0: string)
    requires IsInt32(total) && RowsShow(rows, kept) && end == b + 2 + |rows| && end < |text|
    requires text[b] == BeginLine(total, date) && text[b + 1] == RowHeader
    requires text[b + 2..end] == Lines(rows) && text[end] == SamplesEnd
    ensures SamplesFrom(text, b, ss, date0) == Ok(SampleSection(ss + kept, date))
  {
    TailReadsBack(text, b + 2, date, rows, kept, end, ss);
    HeadRead(text, b, total, date, ss, date0);
  }

  /** The BEGIN line and the column header: the date taken, nothing added. */
  lemma HeadRead(text: seq<string>, b: nat, total: int, date: string, ss: seq<Sample>, date0: string)
    requires IsInt32(total) && b + 1 < |text| && text[b] == BeginLine(total, date) && text[b + 1] == RowHeader
    ensures SamplesFrom(text, b, ss, date0) == SamplesFrom(text, b + 2, ss, date)
  {
    BeginLineRead(text, b, total, date, ss, date0);
    HeaderLineRead(text, b + 1, ss, date);
  }

  /** The rows for `kept` and the END line: `kept` added, and the reading ends. */
  lemma TailReadsBack(text: seq<string>, b: nat, date: string, rows: seq<Row>, kept: seq<Sample>, end: nat, ss: seq<Sample>)
    requires RowsShow(rows, kept) && end == b + |rows| && end < |text|
    requires text[b..end] == Lines(rows) && text[end] == SamplesEnd
    ensures SamplesFrom(text, b, ss, date) == Ok(SampleSection(ss + kept, date))
  {
    RowsReadBack(text, b, ss, date, rows, kept, end);
    EndLineEnds(text, end, ss + kept, date);
  }

  /** The kept samples, sorted, are samples that were read. */
  lemma KeptArePrintable(ss: seq<Sample>, t: Table)
    requires forall i :: 0 <= i < |ss| ==> Printable(ss[i])
    ensures var kept := SortByCount(Retained(ss, t)); forall i :: 0 <= i < |kept| ==> Printable(kept[i])
  {
    var kept := SortByCount(Retained(ss, t));
    forall i | 0 <= i < |kept|
      ensures Printable(kept[i])
    {
      assert kept[i] in multiset(kept);
      RetainedMembers(ss, t, kept[i]);
    }
  }

  /** The rows `emit` writes for the kept samples show them, one each. */
  lemma KeptRowsShow(ss: seq<Sample>, t: Table)
    requires forall i :: 0 <= i < |ss| ==> Printable(ss[i])
    ensures var kept := SortByCount(Retained(ss, t)); RowsShow(Rows(kept, Total(kept), 1, Finite(0.0)), kept)
  {
    var kept := SortByCount(Retained(ss, t));
    var rows := Rows(kept, Total(kept), 1, Finite(0.0));
    KeptArePrintable(ss, t);
    forall i | 0 <= i < |rows|
      ensures rows[i].sample == kept[i]
    {
      RowsAt(kept, Total(kept), 1, Finite(0.0), i);
    }
  }

  /** The text `emit` writes for samples: the trace definitions, the BEGIN line, the header, the rows and the END line. */
  lemma EmitLayout(out: seq<string>, ss: seq<Sample>, t: Table, date: string)
    requires ss != []
    ensures var kept := SortByCount(Retained(ss, t)); var total := Total(kept);
      EmitText(out, ss, t, date) == TraceDefinitions(out, t.order, t, RelevantIds(ss, t))
        + [BeginLine(total, date)] + [RowHeader] + Lines(Rows(kept, total, 1, Finite(0.0))) + [SamplesEnd]
  {
    var kept := SortByCount(Retained(ss, t));
    var head := TraceDefinitions(out, t.order, t, RelevantIds(ss, t)) + [BeginLine(Total(kept), date)] + [RowHeader];
    SampleRowsLines(head, kept, Total(kept), 1, Finite(0.0));
  }

  /**
   * A filtered report can be filtered again: the sample section `emit`
   * writes after the trace definitions reads back, through `readSamples`, as
   * the kept samples in their sorted order, with the date it was given.
   */
  lemma EmittedSectionReadsBack(out: seq<string>, ss: seq<Sample>, t: Table, date: string, ss0: seq<Sample>, date0: string)
    requires ss != [] && forall i :: 0 <= i < |ss| ==> Printable(ss[i])
    requires IsInt32(Total(SortByCount(Retained(ss, t))))
    ensures var text := EmitText(out, ss, t, date);
      var b := |TraceDefinitions(out, t.order, t, RelevantIds(ss, t))|;
      && b < |text| && text[b] == BeginLine(Total(SortByCount(Retained(ss, t))), date)
      && SamplesFrom(text, b, ss0, date0) == Ok(SampleSection(ss0 + SortByCount(Retained(ss, t)), date))
  {
    var kept := SortByCount(Retained(ss, t));
    var defs := TraceDefinitions(out, t.order, t, RelevantIds(ss, t));
    EmitLayout(out, ss, t, date);
    KeptRowsShow(ss, t);
    LaidOutSectionReadsBack(EmitText(out, ss, t, date), defs, kept, date, ss0, date0);
  }

  /** A section laid out as `emit` lays it out reads back as its samples. */
  lemma LaidOutSectionReadsBack(text: seq<string>, defs: seq<string>, kept: seq<Sample>, date: string,
                                ss0: seq<Sample>, date0: string)
    requires IsInt32(Total(kept)) && RowsShow(Rows(kept, Total(kept), 1, Finite(0.0)), kept)
    requires text == defs + [BeginLine(Total(kept), date)] + [RowHeader] + Lines(Rows(kept, Total(kept), 1, Finite(0.0))) + [SamplesEnd]
    ensures |defs| < |text| && text[|defs|] == BeginLine(Total(kept), date)
    ensures SamplesFrom(text, |defs|, ss0, date0) == Ok(SampleSection(ss0 + kept, date))
  {
    var total := Total(kept);
    var rows := Rows(kept, total, 1, Finite(0.0));
    SectionLayout(defs, BeginLine(total, date), RowHeader, rows, SamplesEnd, text);
    SectionReadsBack(text, |defs|, total, date, rows, kept, |defs| + 2 + |rows|, ss0, date0);
  }

  // ---------------------------------------------------------------------
  // run
  // ---------------------------------------------------------------------

  lemma Regroup(out: seq<string>, defs: seq<string>, first: string, second: string, rows: seq<string>, last: string)
    ensures out + defs + [first] + [second] + rows + [last] == out + (defs + [first] + [second] + rows + [last])
  {
  }

  /** `emit` only appends: what it writes does not depend on what was written before, and with no samples it writes nothing. */
  lemma EmitAppends(out: seq<string>, ss: seq<Sample>, t: Table, date: string)
    ensures EmitText(out, ss, t, date) == out + EmitText([], ss, t, date)
    ensures ss == [] ==> EmitText(out, ss, t, date) == out
  {
    if ss != [] {
      var kept := SortByCount(Retained(ss, t));
      var total := Total(kept);
      EmitLayout(out, ss, t, date);
      EmitLayout([], ss, t, date);
      TraceDefinitionsAfter(out, t.order, t, RelevantIds(ss, t));
      Regroup(out, TraceDefinitions([], t.order, t, RelevantIds(ss, t)), BeginLine(total, date), RowHeader,
              Lines(Rows(kept, total, 1, Finite(0.0))), SamplesEnd);
    }
  }

  /**
   * A run writes the header first, whatever follows: on an error it writes
   * the header and nothing else; otherwise the header is followed by the
   * filtered report of the active section.
   */
  lemma RunWritesHeaderFirst(out: seq<string>, lines: seq<string>, pos: nat, mark: Option<nat>, index: int)
    requires pos <= |lines| && (mark.Some? ==> mark.value <= |lines|)
    ensures var header := out + lines[pos..HeaderEnd(lines, pos, false)];
      var r := FilterReport(out, lines, pos, mark, index);
      var active := ActiveSection(lines, HeaderEnd(lines, pos, false), mark, index);
      && (r.error.Some? <==> active.Err?)
      && (active.Err? ==> r == Outcome(header, Some(active.error)))
      && (active.Ok? ==> r.out == header + EmitText([], active.value.samples, active.value.table, active.value.date))
  {
    var header := out + lines[pos..HeaderEnd(lines, pos, false)];
    var active := ActiveSection(lines, HeaderEnd(lines, pos, false), mark, index);
    if active.Ok? {
      EmitAppends(header, active.value.samples, active.value.table, active.value.date);
    }
  }
}
