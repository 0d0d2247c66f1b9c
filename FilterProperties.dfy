/**
 * What the phases of the report filter promise, stated over the functions
 * that specify them: where the header ends, how a trace line and a BEGIN
 * line read back, where skipping and trace reading stop, and that a
 * filtered report's sample section reads back as the samples it lists.
 */
module FilterProperties {
  import opened Options
  import opened Text
  import opened Errors
  import opened Traces
  import opened TraceTable
  import opened Samples
  import opened HProfFilter

  // ---------------------------------------------------------------------
  // readHeader
  // ---------------------------------------------------------------------

  /** Past line `pos`, a line ends the header from `pos` exactly when it ends the header from `pos + 1`. */
  lemma HeaderStopsShift(lines: seq<string>, pos: nat, passed: bool, j: nat)
    requires pos < j < |lines|
    ensures HeaderStopsAt(lines, pos, passed, j)
      == HeaderStopsAt(lines, pos + 1, passed || StartsWith(lines[pos], HeaderRule), j)
  {
    if HeaderStopsAt(lines, pos + 1, passed || StartsWith(lines[pos], HeaderRule), j) {
      if !passed && !StartsWith(lines[pos], HeaderRule) {
        var i :| pos + 1 <= i < j && StartsWith(lines[i], HeaderRule);
        assert pos <= i < j;
      }
    }
  }

  /**
   * The header is echoed up to and including the first line that ends it;
   * with no such line it is the whole input.
   */
  lemma {:induction false} HeaderEndIsFirstStop(lines: seq<string>, pos: nat, passed: bool)
    requires pos <= |lines|
    ensures var e := HeaderEnd(lines, pos, passed);
      && (forall j :: pos <= j < e - 1 ==> !HeaderStopsAt(lines, pos, passed, j))
      && ((e == |lines| && forall j :: pos <= j < |lines| ==> !HeaderStopsAt(lines, pos, passed, j))
          || (pos < e && HeaderStopsAt(lines, pos, passed, e - 1)))
    decreases |lines| - pos
  {
    if pos < |lines| {
      var rule := StartsWith(lines[pos], HeaderRule);
      if rule || !passed {
        HeaderEndIsFirstStop(lines, pos + 1, passed || rule);
        forall j | pos < j < |lines|
          ensures HeaderStopsAt(lines, pos, passed, j) == HeaderStopsAt(lines, pos + 1, passed || rule, j)
        {
          HeaderStopsShift(lines, pos, passed, j);
        }
        assert !HeaderStopsAt(lines, pos, passed, pos);
      }
    }
  }

  // ---------------------------------------------------------------------
  // createTrace
  // ---------------------------------------------------------------------

  /** The pieces of a line whose first space ends `lead`, the rest `tail` holding none. */
  lemma PiecesOfPair(lead: string, tail: string)
    requires |lead| >= 1 && IndexOf(lead, ' ') == |lead| - 1 && ' ' !in tail
    ensures Pieces(lead + tail, ' ') == [lead[..|lead| - 1], tail]
  {
    var line := lead + tail;
    var k := |lead| - 1;
    assert IndexOf(line, ' ') == k by {
      IndexOfBefore(lead, tail, ' ');
    }
    assert line[..k] == lead[..k] && line[k + 1..] == tail;
  }

  /** Two pieces, the last one not empty: `split` keeps both. */
  lemma JavaSplitOfTwoPieces(line: string, ps: seq<string>)
    requires Pieces(line, ' ') == ps && |ps| == 2 && ps[1] != []
    ensures JavaSplit(line, ' ') == ps
  {
  }

  /** A line of two space-free tokens joined by one space splits into those two. */
  lemma SplitOfPair(lead: string, tail: string)
    requires |lead| >= 1 && IndexOf(lead, ' ') == |lead| - 1
    requires tail != [] && ' ' !in tail
    ensures JavaSplit(lead + tail, ' ') == [lead[..|lead| - 1], tail]
  {
    PiecesOfPair(lead, tail);
    JavaSplitOfTwoPieces(lead + tail, [lead[..|lead| - 1], tail]);
  }

  /** A TRACE line put together from its parts reads back as the id its numeral holds. */
  lemma TraceIdOfParts(lead: string, d: string, id: int)
    requires |lead| >= 1 && IndexOf(lead, ' ') == |lead| - 1
    requires ' ' !in d && ':' !in d && ParseInt(d) == Some(id)
    ensures TraceId(lead + (d + ":")) == Ok(id)
  {
    assert ' ' !in d + ":";
    SplitOfPair(lead, d + ":");
    RemoveCharOfLast(d, ':');
  }

  /** The line `Trace.emit` writes first reads back, through `createTrace`, as the trace's own id. */
  lemma TraceIdOfHeader(id: int)
    requires IsInt32(id)
    ensures TraceId(TraceHeader(id)) == Ok(id)
  {
    IntToStringLacks(id, ' ');
    IntToStringLacks(id, ':');
    ParseIntOfIntToString(id);
    assert IndexOf("TRACE ", ' ') == 5;
    TraceIdOfParts("TRACE ", IntToString(id), id);
  }

  /** A line with no space is a single token, which `createTrace` rejects. */
  lemma TraceIdWithoutSpace(line: string)
    requires ' ' !in line
    ensures TraceId(line) == Err(MalformedTrace(line))
  {
  }

  // ---------------------------------------------------------------------
  // readAndDiscardBlock
  // ---------------------------------------------------------------------

  /** No line from `from` up to `to` is an END line. */
  predicate EndFree(lines: seq<string>, from: int, to: int) {
    forall j :: from <= j < to && 0 <= j < |lines| ==> !StartsWith(lines[j], SamplesEnd)
  }

  lemma EndFreeFrom(lines: seq<string>, pos: nat, to: int)
    requires pos < |lines| && !StartsWith(lines[pos], SamplesEnd) && EndFree(lines, pos + 1, to)
    ensures EndFree(lines, pos, to)
  {
  }

  /** What skipping from `pos` to `p` says about END lines. */
  predicate StopsAfterEnd(lines: seq<string>, pos: nat, p: nat) {
    && EndFree(lines, pos, p - 1)
    && ((p == |lines| && EndFree(lines, pos, |lines|)) || (pos < p <= |lines| && StartsWith(lines[p - 1], SamplesEnd)))
  }

  lemma StopsAfterEndFrom(lines: seq<string>, pos: nat, p: nat)
    requires pos < |lines| && !StartsWith(lines[pos], SamplesEnd) && StopsAfterEnd(lines, pos + 1, p)
    ensures StopsAfterEnd(lines, pos, p)
  {
    EndFreeFrom(lines, pos, p - 1);
    if EndFree(lines, pos + 1, |lines|) {
      EndFreeFrom(lines, pos, |lines|);
    }
  }

  /**
   * Skipping reads up to and including the first END line from `pos`, or to
   * the end of the input when there is none.
   */
  lemma {:induction false} DiscardStopsAfterEnd(lines: seq<string>, pos: nat, t: Table, open: Option<int>)
    requires pos <= |lines| && (open.Some? ==> open.value in t.stacks)
    requires DiscardFrom(lines, pos, t, open).Ok?
    ensures StopsAfterEnd(lines, pos, DiscardFrom(lines, pos, t, open).value.pos)
    decreases |lines| - pos
  {
    if pos < |lines| {
      var next := DiscardStep(lines[pos], t, open).value;
      if StartsWith(lines[pos], SamplesEnd) {
        DiscardFromEnd(lines, pos, t, open, next.0, next.1);
      } else {
        DiscardFromNext(lines, pos, t, open, next.0, next.1);
        DiscardStopsAfterEnd(lines, pos + 1, next.0, next.1);
        StopsAfterEndFrom(lines, pos, DiscardFrom(lines, pos + 1, next.0, next.1).value.pos);
      }
    }
  }

  /** Skipping fails only on a TRACE line whose id does not parse, with that line's error. */
  lemma {:induction false} DiscardFailsOnTrace(lines: seq<string>, pos: nat, t: Table, open: Option<int>)
    requires pos <= |lines| && (open.Some? ==> open.value in t.stacks)
    requires DiscardFrom(lines, pos, t, open).Err?
    ensures exists j :: (pos <= j < |lines| && StartsWith(lines[j], TracePrefix)
      && TraceId(lines[j]) == Err(DiscardFrom(lines, pos, t, open).error))
    decreases |lines| - pos
  {
    var step := DiscardStep(lines[pos], t, open);
    if step.Err? {
      assert StartsWith(lines[pos], TracePrefix) && TraceId(lines[pos]) == Err(step.error);
    } else {
      DiscardFromNext(lines, pos, t, open, step.value.0, step.value.1);
      DiscardFailsOnTrace(lines, pos + 1, step.value.0, step.value.1);
    }
  }

  /** Helper of `MarkerClosesTrace`: a BEGIN or THREAD line is neither an END nor a TRACE line. */
  lemma MarkersDiffer(line: string)
    requires StartsWith(line, SamplesBegin) || StartsWith(line, ThreadPrefix)
    ensures !StartsWith(line, SamplesEnd) && !StartsWith(line, TracePrefix)
  {
    if StartsWith(line, SamplesBegin) {
      assert line[12] == SamplesBegin[12] == 'B' && SamplesEnd[12] == 'E';
      assert line[0] == 'C' && TracePrefix[0] == 'T';
    } else {
      assert line[0] == ThreadPrefix[0] == 'T' && SamplesEnd[0] == 'C';
      assert line[1] == ThreadPrefix[1] == 'H' && TracePrefix[1] == 'R';
    }
  }

  /** A BEGIN or THREAD line closes the open trace: skipping goes on with none open. */
  lemma MarkerClosesTrace(lines: seq<string>, pos: nat, t: Table, open: Option<int>)
    requires pos < |lines| && (open.Some? ==> open.value in t.stacks)
    requires StartsWith(lines[pos], SamplesBegin) || StartsWith(lines[pos], ThreadPrefix)
    ensures DiscardFrom(lines, pos, t, open) == DiscardFrom(lines, pos + 1, t, None)
  {
    MarkersDiffer(lines[pos]);
    assert DiscardStep(lines[pos], t, open) == Ok((t, None));
    DiscardFromNext(lines, pos, t, open, t, None);
  }

  /** No line from `from` on is a TRACE line. */
  predicate NoTraceFrom(lines: seq<string>, from: nat) {
    forall j :: from <= j < |lines| ==> !StartsWith(lines[j], TracePrefix)
  }

  /** With no trace open, a line that is no TRACE line leaves the table as it is. */
  lemma UnopenedLine(lines: seq<string>, pos: nat, t: Table)
    requires pos < |lines| && !StartsWith(lines[pos], TracePrefix)
    ensures DiscardStep(lines[pos], t, None) == Ok((t, None))
  {
  }

  /** With no trace open and no TRACE line to come, skipping attaches no line to any trace and cannot fail. */
  lemma {:induction false} DiscardWithoutTrace(lines: seq<string>, pos: nat, t: Table)
    requires pos <= |lines| && NoTraceFrom(lines, pos)
    ensures DiscardFrom(lines, pos, t, None).Ok? && DiscardFrom(lines, pos, t, None).value.table == t
    decreases |lines| - pos
  {
    if pos < |lines| {
      UnopenedLine(lines, pos, t);
      if StartsWith(lines[pos], SamplesEnd) {
        DiscardFromEnd(lines, pos, t, None, t, None);
      } else {
        DiscardFromNext(lines, pos, t, None, t, None);
        DiscardWithoutTrace(lines, pos + 1, t);
      }
    }
  }

  /** No stack line of the table is an END line. */
  ghost predicate HoldsNoEnd(t: Table) {
    forall k, i | k in t.stacks && 0 <= i < |t.stacks[k]| :: !StartsWith(t.stacks[k][i], SamplesEnd)
  }

  lemma PutHoldsNoEnd(t: Table, id: int)
    requires HoldsNoEnd(t)
    ensures HoldsNoEnd(t.Put(id))
  {
  }

  lemma AppendHoldsNoEnd(t: Table, id: int, line: string)
    requires HoldsNoEnd(t) && id in t.stacks && !StartsWith(line, SamplesEnd)
    ensures HoldsNoEnd(t.Append(id, line))
  {
    var t' := t.Append(id, line);
    forall k, i | k in t'.stacks && 0 <= i < |t'.stacks[k]|
      ensures !StartsWith(t'.stacks[k][i], SamplesEnd)
    {
      if k == id && i == |t.stacks[id]| {
        assert t'.stacks[k][i] == line;
      } else {
        assert t'.stacks[k][i] == t.stacks[k][i];
      }
    }
  }

  /** One line while skipping: no trace leaves the table, a TRACE line's id enters it, and no END line is appended. */
  lemma DiscardStepKeeps(line: string, t: Table, open: Option<int>)
    requires (open.Some? ==> open.value in t.stacks) && DiscardStep(line, t, open).Ok?
    ensures var t' := DiscardStep(line, t, open).value.0;
      && t.stacks.Keys <= t'.stacks.Keys
      && (StartsWith(line, TracePrefix) ==> TraceId(line).Ok? && TraceId(line).value in t'.stacks)
      && (HoldsNoEnd(t) ==> HoldsNoEnd(t'))
  {
    if HoldsNoEnd(t) {
      if StartsWith(line, TracePrefix) {
        PutHoldsNoEnd(t, TraceId(line).value);
      } else if !StartsWith(line, SamplesBegin) && !StartsWith(line, ThreadPrefix)
        && !StartsWith(line, SamplesEnd) && open.Some? {
        AppendHoldsNoEnd(t, open.value, line);
      }
    }
  }

  /** Every TRACE line from `from` up to `to` has an id that parses and is a key of `t`. */
  ghost predicate TracesKnown(lines: seq<string>, from: nat, to: nat, t: Table) {
    forall j :: from <= j < to && j < |lines| && StartsWith(lines[j], TracePrefix) ==>
      TraceId(lines[j]).Ok? && TraceId(lines[j]).value in t.stacks
  }

  lemma TracesKnownFrom(lines: seq<string>, pos: nat, to: nat, t: Table, t': Table)
    requires pos < |lines| && TracesKnown(lines, pos + 1, to, t') && t.stacks.Keys <= t'.stacks.Keys
    requires StartsWith(lines[pos], TracePrefix) ==> TraceId(lines[pos]).Ok? && TraceId(lines[pos]).value in t.stacks
    ensures TracesKnown(lines, pos, to, t')
  {
  }

  /**
   * While a section is skipped, every trace it defines is put in the table,
   * no trace leaves it, and the END line is never added to a trace.
   */
  lemma {:induction false} DiscardKeepsTraces(lines: seq<string>, pos: nat, t: Table, open: Option<int>)
    requires pos <= |lines| && (open.Some? ==> open.value in t.stacks)
    requires DiscardFrom(lines, pos, t, open).Ok?
    ensures var r := DiscardFrom(lines, pos, t, open).value;
      && t.stacks.Keys <= r.table.stacks.Keys
      && TracesKnown(lines, pos, r.pos, r.table)
      && (HoldsNoEnd(t) ==> HoldsNoEnd(r.table))
    decreases |lines| - pos
  {
    if pos < |lines| {
      var next := DiscardStep(lines[pos], t, open).value;
      DiscardStepKeeps(lines[pos], t, open);
      if StartsWith(lines[pos], SamplesEnd) {
        DiscardFromEnd(lines, pos, t, open, next.0, next.1);
        TracesKnownFrom(lines, pos, pos + 1, next.0, next.0);
      } else {
        DiscardFromNext(lines, pos, t, open, next.0, next.1);
        DiscardKeepsTraces(lines, pos + 1, next.0, next.1);
        var r := DiscardFrom(lines, pos + 1, next.0, next.1).value;
        TracesKnownFrom(lines, pos, r.pos, next.0, r.table);
      }
    }
  }

  /** What two stretches of lines each define is known to the later table, when no trace left the earlier one. */
  lemma TracesKnownJoin(lines: seq<string>, a: nat, b: nat, c: nat, t1: Table, t2: Table)
    requires TracesKnown(lines, a, b, t1) && TracesKnown(lines, b, c, t2) && t1.stacks.Keys <= t2.stacks.Keys
    ensures TracesKnown(lines, a, c, t2)
  {
  }

  /**
   * Skipping `index` sections one after the other: every trace they define
   * is put in the table, no trace leaves it, and the END lines are never
   * added to a trace.
   */
  lemma {:induction false} SkipSectionsKeepsTraces(lines: seq<string>, pos: nat, t: Table, index: int)
    requires pos <= |lines| && SkipSections(lines, pos, t, index).Ok?
    ensures var r := SkipSections(lines, pos, t, index).value;
      && t.stacks.Keys <= r.table.stacks.Keys
      && TracesKnown(lines, pos, r.pos, r.table)
      && (HoldsNoEnd(t) ==> HoldsNoEnd(r.table))
    decreases if index <= 0 then 0 else index
  {
    if index > 0 {
      var p := DiscardFrom(lines, pos, t, None).value;
      DiscardKeepsTraces(lines, pos, t, None);
      SkipSectionsKeepsTraces(lines, p.pos, p.table, index - 1);
      var r := SkipSections(lines, p.pos, p.table, index - 1).value;
      TracesKnownJoin(lines, pos, p.pos, r.pos, p.table, r.table);
    }
  }

  // ---------------------------------------------------------------------
  // readTraces
  // ---------------------------------------------------------------------

  /** While the trace definitions are read, no trace leaves the table. */
  lemma {:induction false} TracesFromKeepsKeys(lines: seq<string>, pos: nat, mark: Option<nat>, t: Table, open: Option<int>)
    requires pos <= |lines| && (mark.Some? ==> mark.value <= |lines|) && (open.Some? ==> open.value in t.stacks)
    requires TracesFrom(lines, pos, mark, t, open).Ok?
    ensures t.stacks.Keys <= TracesFrom(lines, pos, mark, t, open).value.table.stacks.Keys
    decreases |lines| - pos
  {
    if pos < |lines| {
      match TracesStep(lines[pos], pos, mark, t, open) {
        case Done(r) =>
          TracesFromDone(lines, pos, mark, t, open, r);
        case Next(m, next, o) =>
          TracesFromNext(lines, pos, mark, t, open, m, next, o);
          TracesFromKeepsKeys(lines, pos + 1, m, next, o);
      }
    }
  }

  /** Every line from `from` up to `to` is a THREAD line. */
  predicate OnlyThreads(lines: seq<string>, from: nat, to: nat)
    requires from <= to <= |lines|
  {
    forall j :: from <= j < to ==> StartsWith(lines[j], ThreadPrefix)
  }

  /**
   * Reading the trace definitions stops at the end of the input, or with the
   * reader put back before the BEGIN line and the THREAD lines in front of
   * it, which are left for `readSamples` to read; the mark has that shape
   * from the start, THREAD lines only lying between it and `pos`.
   */
  lemma {:induction false} TracesStopBeforeBegin(lines: seq<string>, pos: nat, mark: Option<nat>, t: Table, open: Option<int>)
    requires pos <= |lines| && (open.Some? ==> open.value in t.stacks)
    requires mark.Some? ==> mark.value <= pos && OnlyThreads(lines, mark.value, pos)
    requires TracesFrom(lines, pos, mark, t, open).Ok?
    ensures var p := TracesFrom(lines, pos, mark, t, open).value.pos;
      || p == |lines|
      || exists b :: p <= b < |lines| && OnlyThreads(lines, p, b) && StartsWith(lines[b], SamplesBegin)
    decreases |lines| - pos
  {
    if pos < |lines| {
      var step := TracesStep(lines[pos], pos, mark, t, open);
      if step.Next? {
        TracesFromNext(lines, pos, mark, t, open, step.mark, step.table, step.open);
        TracesStopBeforeBegin(lines, pos + 1, step.mark, step.table, step.open);
      } else {
        TracesFromDone(lines, pos, mark, t, open, step.result);
        assert StartsWith(lines[pos], SamplesBegin) && OnlyThreads(lines, mark.value, pos);
      }
    }
  }

  /** A THREAD line is passed over: the mark, the table and the open trace stay as they are. */
  lemma ThreadLinePassed(lines: seq<string>, pos: nat, mark: Option<nat>, t: Table, open: Option<int>)
    requires pos < |lines| && (mark.Some? ==> mark.value <= |lines|) && (open.Some? ==> open.value in t.stacks)
    requires StartsWith(lines[pos], ThreadPrefix)
    ensures TracesFrom(lines, pos, mark, t, open) == TracesFrom(lines, pos + 1, mark, t, open)
  {
    TracesFromNext(lines, pos, mark, t, open, mark, t, open);
  }

  /** A stack line while no trace is open fails. */
  lemma StrayLineFails(lines: seq<string>, pos: nat, mark: Option<nat>, t: Table)
    requires pos < |lines| && (mark.Some? ==> mark.value <= |lines|)
    requires !StartsWith(lines[pos], ThreadPrefix) && !StartsWith(lines[pos], TracePrefix) && !StartsWith(lines[pos], SamplesBegin)
    ensures TracesFrom(lines, pos, mark, t, None) == Err(NoOpenTrace(lines[pos]))
  {
    TracesFromDone(lines, pos, mark, t, None, Err(NoOpenTrace(lines[pos])));
  }

  /** A stack line before any TRACE line, with only THREAD lines in front of it, is an error: no trace is open. */
  lemma {:induction false} StackLineBeforeTrace(lines: seq<string>, pos: nat, mark: Option<nat>, t: Table, j: nat)
    requires pos <= j < |lines| && (mark.Some? ==> mark.value <= |lines|) && OnlyThreads(lines, pos, j)
    requires !StartsWith(lines[j], ThreadPrefix) && !StartsWith(lines[j], TracePrefix) && !StartsWith(lines[j], SamplesBegin)
    ensures TracesFrom(lines, pos, mark, t, None) == Err(NoOpenTrace(lines[j]))
    decreases j - pos
  {
    if pos < j {
      ThreadLinePassed(lines, pos, mark, t, None);
      StackLineBeforeTrace(lines, pos + 1, mark, t, j);
    } else {
      StrayLineFails(lines, pos, mark, t);
    }
  }

  // ---------------------------------------------------------------------
  // readSamples: the BEGIN line
  // ---------------------------------------------------------------------

  /** A total read from where a numeral followed by `)` starts. */
  lemma TotalFromNumeral(line: string, start: nat, d: string, rest: string, total: int)
    requires start <= |line| && line[start..] == d + rest
    requires ')' !in d && rest != [] && rest[0] == ')' && ParseInt(d) == Some(total)
    ensures TotalFrom(line, start) == Ok(total)
  {
    IndexOfAfter(d, rest, ')');
    assert (d + rest)[..|d|] == d;
  }

  /** The total of a line whose first `(` is 9 characters before a numeral followed by `)`. */
  lemma BeginTotalOfParts(lead: string, d: string, rest: string, total: int)
    requires |lead| == 27 && IndexOf(lead, '(') == 18
    requires ')' !in d && rest != [] && rest[0] == ')' && ParseInt(d) == Some(total)
    ensures BeginTotal(lead + (d + rest)) == Ok(total)
  {
    IndexOfBefore(lead, d + rest, '(');
    TotalFromNumeral(lead + (d + rest), 27, d, rest, total);
  }

  /** The date of a line whose first `)` is at `close`. */
  lemma BeginDateAt(line: string, close: nat)
    requires IndexOf(line, ')') == close && close + 2 <= |line|
    ensures BeginDate(line) == Ok(line[close + 2..])
  {
  }

  /** The first `)` of a line written as `lead + (d + (") " + date))`, neither `lead` nor `d` holding one. */
  lemma CloseOfParts(lead: string, d: string, rest: string)
    requires ')' !in lead && ')' !in d && rest != [] && rest[0] == ')'
    ensures IndexOf(lead + (d + rest), ')') == |lead| + |d|
  {
    IndexOfAfter(d, rest, ')');
    IndexOfAfter(lead, d + rest, ')');
  }

  lemma BeginLeadHasNoClose()
    ensures |BeginLead| == 27 && ')' !in BeginLead
  {
  }

  lemma BeginLeadOpen()
    ensures IndexOf(BeginLead, '(') == 18
  {
    assert BeginLead[18] == '(' && '(' !in BeginLead[..18];
  }

  /** `readSamples` takes the total first, then the date. */
  lemma ParseBeginOfResults(line: string, total: int, date: string)
    requires BeginTotal(line) == Ok(total) && BeginDate(line) == Ok(date)
    ensures ParseBegin(line) == Ok((total, date))
  {
  }

  /** The date of a line written as `lead + (d + (") " + date))`, neither `lead` nor `d` holding a `)`. */
  lemma BeginDateOfParts(lead: string, d: string, rest: string)
    requires ')' !in lead && ')' !in d && |rest| >= 2 && rest[0] == ')'
    ensures BeginDate(lead + (d + rest)) == Ok(rest[2..])
  {
    var line := lead + (d + rest);
    CloseOfParts(lead, d, rest);
    assert line[|lead| + |d| + 2..] == rest[2..] by {
      assert line[|lead| + |d|..] == rest;
    }
    BeginDateAt(line, |lead| + |d|);
  }

  lemma DateSeparator(date: string)
    ensures var rest := ") " + date; |rest| >= 2 && rest[0] == ')' && rest[2..] == date
  {
  }

  /** A BEGIN line put together from its parts reads back as its total and date. */
  lemma ParseBeginOfParts(lead: string, d: string, date: string, total: int)
    requires |lead| == 27 && IndexOf(lead, '(') == 18 && ')' !in lead
    requires ')' !in d && ParseInt(d) == Some(total)
    ensures ParseBegin(lead + (d + (") " + date))) == Ok((total, date))
  {
    BeginTotalOfParts(lead, d, ") " + date, total);
    DateSeparator(date);
    BeginDateOfParts(lead, d, ") " + date);
    ParseBeginOfResults(lead + (d + (") " + date)), total, date);
  }

  /** The BEGIN line `emit` writes reads back, through `readSamples`' arithmetic, as its total and date. */
  lemma ParseBeginOfBeginLine(total: int, date: string)
    requires IsInt32(total)
    ensures ParseBegin(BeginLine(total, date)) == Ok((total, date))
  {
    var d := IntToString(total);
    IntToStringLacks(total, ')');
    ParseIntOfIntToString(total);
    BeginLeadHasNoClose();
    BeginLeadOpen();
    ParseBeginOfParts(BeginLead, d, date, total);
  }

  // ---------------------------------------------------------------------
  // The default output name
  // ---------------------------------------------------------------------

  /** A name with an extension: `.filtered.` goes between the name and the extension after its last dot. */
  lemma FilteredNameOfExtension(base: string, ext: string)
    requires '.' !in ext
    ensures FilteredName(base + "." + ext) == base + ".filtered." + ext
  {
    var name := base + "." + ext;
    assert name[|base|] == '.' && name[|base| + 1..] == ext;
    var dot := LastIndexOf(name, '.');
    assert dot == |base|;
    assert name[..dot] == base;
  }

  /** A name without a dot has an empty extension: `.filtered.` is appended. */
  lemma FilteredNameWithoutDot(name: string)
    requires '.' !in name
    ensures FilteredName(name) == name + ".filtered."
  {
  }
}
