/**
 * One run of the hprof report filter over a report already split into
 * lines: the header is copied through, whole sections may be skipped, the
 * trace definitions and the samples of the active section are read, and
 * the re-ranked report of the samples that survive filtering is written.
 *
 * Every reading phase is specified by a function of the rest of the input
 * and the state so far; its method is proved to end in the state that
 * function gives.
 */
module HProfFilter {
  import opened Options
  import opened Text
  import opened Errors
  import opened Streams
  import opened Traces
  import opened TraceTable
  import opened Samples

  const HeaderRule: string := "-----"
  const ThreadPrefix: string := "THREAD"
  const TracePrefix: string := "TRACE"
  const SamplesBegin: string := "CPU SAMPLES BEGIN"
  const RankPrefix: string := "rank"

  /** Where a reading phase stopped, and the trace table as it left it. */
  datatype Position = Position(pos: nat, table: Table)

  /** What the samples phase collects: the samples in file order and the date of the BEGIN line. */
  datatype SampleSection = SampleSection(samples: seq<Sample>, date: string)

  /** The lines a run wrote, and the error that ended it early, if any. */
  datatype Outcome = Outcome(out: seq<string>, error: Option<Error>)

  // ---------------------------------------------------------------------
  // readHeader
  // ---------------------------------------------------------------------

  /**
   * The position after the last header line, reading from `pos`: the header
   * runs to the first line after a `-----` rule that is not itself a rule,
   * that line included, or to the end of the input.
   */
  function HeaderEnd(lines: seq<string>, pos: nat, passed: bool): (end: nat)
    requires pos <= |lines|
    ensures pos <= end <= |lines|
    decreases |lines| - pos
  {
    if pos == |lines| then pos
    else if StartsWith(lines[pos], HeaderRule) then HeaderEnd(lines, pos + 1, true)
    else if passed then pos + 1
    else HeaderEnd(lines, pos + 1, passed)
  }

  /**
   * Line `j` ends a header read from `pos`: it is not a rule, and a rule
   * came before it, either before `pos` (`passed`) or from `pos` on.
   */
  predicate HeaderStopsAt(lines: seq<string>, pos: nat, passed: bool, j: nat)
    requires pos <= j < |lines|
  {
    !StartsWith(lines[j], HeaderRule) && (passed || exists i :: pos <= i < j && StartsWith(lines[i], HeaderRule))
  }

  method ReadHeader(reader: Reader, writer: Writer)
    requires reader.Valid()
    modifies reader, writer
    ensures reader.Valid() && reader.mark == old(reader.mark)
    ensures reader.pos == HeaderEnd(reader.lines, old(reader.pos), false)
    ensures writer.lines == old(writer.lines) + reader.lines[old(reader.pos)..reader.pos]
  {
    var passedHeader := false;
    while true
      invariant reader.Valid() && reader.mark == old(reader.mark) && old(reader.pos) <= reader.pos
      invariant HeaderEnd(reader.lines, reader.pos, passedHeader) == HeaderEnd(reader.lines, old(reader.pos), false)
      invariant writer.lines == old(writer.lines) + reader.lines[old(reader.pos)..reader.pos]
      decreases |reader.lines| - reader.pos
    {
      var line := reader.ReadLine();
      if line.None? {
        break;
      }
      writer.WriteLine(line.value);
      assert reader.lines[old(reader.pos)..reader.pos]
        == reader.lines[old(reader.pos)..reader.pos - 1] + [line.value];
      if StartsWith(line.value, HeaderRule) {
        passedHeader := true;
      } else if passedHeader {
        break;
      }
    }
  }

  // ---------------------------------------------------------------------
  // createTrace
  // ---------------------------------------------------------------------

  /**
   * The id `createTrace` reads from a TRACE line: the second token of
   * `split(" ")` with every `:` removed, as an `int`. A line that splits into
   * fewer than two tokens is rejected.
   */
  function TraceId(line: string): (r: Result<int>)
    ensures r.Ok? ==> IsInt32(r.value)
  {
    var split := JavaSplit(line, ' ');
    if |split| <= 1 then Err(MalformedTrace(line))
    else
      var digits := RemoveChar(split[1], ':');
      match ParseInt(digits) {
        case None => Err(BadNumber(digits))
        case Some(id) => Ok(id)
      }
  }

  /** `createTrace`: a new, empty trace under the line's id. */
  method CreateTrace(line: string) returns (r: Result<Trace>)
    ensures match TraceId(line)
      case Err(e) => r == Err(e)
      case Ok(id) => r.Ok? && fresh(r.value) && r.value.id == id && r.value.stackLines == []
  {
    match TraceId(line) {
      case Err(e) =>
        r := Err(e);
      case Ok(id) =>
        var trace := new Trace(id);
        r := Ok(trace);
    }
  }

  // ---------------------------------------------------------------------
  // readAndDiscardBlock
  // ---------------------------------------------------------------------

  /**
   * What one line does to the table and the open trace while a section is
   * skipped: a TRACE line puts a fresh trace and opens it, a BEGIN or THREAD
   * line closes the open trace, and any other line but the END line is added
   * to the open trace, if there is one.
   */
  function DiscardStep(line: string, t: Table, open: Option<int>): (r: Result<(Table, Option<int>)>)
    requires open.Some? ==> open.value in t.stacks
    ensures r.Ok? ==> r.value.1.Some? ==> r.value.1.value in r.value.0.stacks
  {
    if StartsWith(line, TracePrefix) then
      match TraceId(line) {
        case Err(e) => Err(e)
        case Ok(id) => Ok((t.Put(id), Some(id)))
      }
    else if StartsWith(line, SamplesBegin) || StartsWith(line, ThreadPrefix) then
      Ok((t, None))
    else if !StartsWith(line, SamplesEnd) && open.Some? then
      Ok((t.Append(open.value, line), open))
    else
      Ok((t, open))
  }

  /** Skipping one section from `pos`: up to and including the next END line, or to the end of the input. */
  function DiscardFrom(lines: seq<string>, pos: nat, t: Table, open: Option<int>): (r: Result<Position>)
    requires pos <= |lines|
    requires open.Some? ==> open.value in t.stacks
    ensures r.Ok? ==> pos <= r.value.pos <= |lines|
    decreases |lines| - pos
  {
    if pos == |lines| then Ok(Position(pos, t))
    else
      match DiscardStep(lines[pos], t, open) {
        case Err(e) => Err(e)
        case Ok(next) =>
          if StartsWith(lines[pos], SamplesEnd) then Ok(Position(pos + 1, next.0))
          else DiscardFrom(lines, pos + 1, next.0, next.1)
      }
  }

  /** A line that fails: skipping fails with it. */
  lemma DiscardFromErr(lines: seq<string>, pos: nat, t: Table, open: Option<int>, e: Error)
    requires pos < |lines| && (open.Some? ==> open.value in t.stacks)
    requires DiscardStep(lines[pos], t, open) == Err(e)
    ensures DiscardFrom(lines, pos, t, open) == Err(e)
  {
  }

  /** The END line: skipping stops after it, with the table as that line leaves it. */
  lemma DiscardFromEnd(lines: seq<string>, pos: nat, t: Table, open: Option<int>, t': Table, open': Option<int>)
    requires pos < |lines| && (open.Some? ==> open.value in t.stacks)
    requires DiscardStep(lines[pos], t, open) == Ok((t', open')) && StartsWith(lines[pos], SamplesEnd)
    ensures DiscardFrom(lines, pos, t, open) == Ok(Position(pos + 1, t'))
  {
  }

  /** Any other line: skipping goes on from the next line with the table and open trace it leaves. */
  lemma DiscardFromNext(lines: seq<string>, pos: nat, t: Table, open: Option<int>, t': Table, open': Option<int>)
    requires pos < |lines| && (open.Some? ==> open.value in t.stacks)
    requires DiscardStep(lines[pos], t, open) == Ok((t', open')) && !StartsWith(lines[pos], SamplesEnd)
    ensures open'.Some? ==> open'.value in t'.stacks
    ensures DiscardFrom(lines, pos, t, open) == DiscardFrom(lines, pos + 1, t', open')
  {
  }

  /**
   * The trace the loops of `readAndDiscardBlock` and `readTraces` hold open:
   * none, or the very object the map stores under that id.
   */
  ghost predicate Holds(traces: TraceMap, trace: Trace?, open: Option<int>)
    reads traces
  {
    && (open.Some? <==> trace != null)
    && (open.Some? ==> open.value in traces.entries && traces.entries[open.value] == trace)
  }

  /** Every trace the map now holds was held on entry or is new. */
  twostate predicate Grown(traces: TraceMap)
    reads traces
  {
    forall v :: v in traces.entries.Values ==> v in old(traces.entries.Values) || fresh(v)
  }

  /** `traces.put(trace.getId(), trace)` for a trace with no stack lines yet. */
  method PutEmpty(traces: TraceMap, trace: Trace)
    requires traces.Valid() && trace.stackLines == []
    modifies traces
    ensures traces.Valid() && Holds(traces, trace, Some(trace.id))
    ensures traces.entries.Values <= old(traces.entries.Values) + {trace}
    ensures traces.Value() == old(traces.Value()).Put(trace.id)
  {
    traces.Put(trace);
  }

  /** `trace = createTrace(line); traces.put(trace.getId(), trace)`: a new, empty trace under the line's id. */
  method OpenTrace(traces: TraceMap, line: string) returns (err: Option<Error>, trace: Trace?)
    requires traces.Valid()
    modifies traces
    ensures traces.Valid() && Grown(traces)
    ensures match TraceId(line)
      case Err(e) => err == Some(e) && unchanged(traces)
      case Ok(id) =>
        && err == None && trace != null && trace.id == id && Holds(traces, trace, Some(id))
        && traces.Value() == old(traces.Value()).Put(id)
  {
    var created := CreateTrace(line);
    if created.Err? {
      return Some(created.error), null;
    }
    trace := created.value;
    PutEmpty(traces, trace);
    return None, trace;
  }

  /** `trace.addStackLine(line)` on the open trace, seen through the map that holds it. */
  method AppendToOpen(traces: TraceMap, trace: Trace, line: string, ghost open: Option<int>)
    requires traces.Valid() && Holds(traces, trace, open)
    modifies trace
    ensures traces.Valid() && Holds(traces, trace, open) && unchanged(traces)
    ensures open.Some? && open.value in old(traces.Value()).stacks
    ensures traces.Value() == old(traces.Value()).Append(open.value, line)
  {
    assert trace.id == open.value && trace.id in traces.entries && traces.entries[trace.id] == trace;
    var same := trace.AddStackLine(line);
    AppendThroughEntry(traces, trace, line);
  }

  /** The body of the `readAndDiscardBlock` loop for one line that is not its END line's successor. */
  method DiscardLine(traces: TraceMap, trace: Trace?, line: string, ghost open: Option<int>)
    returns (err: Option<Error>, next: Trace?, ghost open': Option<int>)
    requires traces.Valid() && Holds(traces, trace, open)
    modifies traces, traces.entries.Values
    ensures traces.Valid() && Holds(traces, next, open') && Grown(traces)
    ensures open.Some? ==> open.value in old(traces.Value()).stacks
    ensures match DiscardStep(line, old(traces.Value()), open)
      case Err(e) => err == Some(e)
      case Ok(step) => err == None && traces.Value() == step.0 && open' == step.1
  {
    ghost var t := traces.Value();
    if StartsWith(line, TracePrefix) {
      err, next := OpenTrace(traces, line);
      if err.Some? {
        return err, trace, open;
      }
      ghost var id := TraceId(line).value;
      assert DiscardStep(line, t, open) == Ok((t.Put(id), Some(id)));
      return None, next, Some(id);
    } else if StartsWith(line, SamplesBegin) || StartsWith(line, ThreadPrefix) {
      return None, null, None;
    } else if !StartsWith(line, SamplesEnd) && trace != null {
      AppendToOpen(traces, trace, line, open);
      assert DiscardStep(line, t, open) == Ok((t.Append(open.value, line), open));
    }
    return None, trace, open;
  }

  /** One turn of the `readAndDiscardBlock` loop: a line read and handled; `done` where the loop ends. */
  method DiscardNext(reader: Reader, traces: TraceMap, trace: Trace?, ghost open: Option<int>)
    returns (err: Option<Error>, done: bool, next: Trace?, ghost open': Option<int>)
    requires reader.Valid() && traces.Valid() && Holds(traces, trace, open)
    modifies reader, traces, traces.entries.Values
    ensures reader.Valid() && reader.mark == old(reader.mark) && traces.Valid() && Holds(traces, next, open') && Grown(traces)
    ensures open.Some? ==> open.value in old(traces.Value()).stacks
    ensures done && DiscardFrom(reader.lines, old(reader.pos), old(traces.Value()), open).Err? ==>
      err == Some(DiscardFrom(reader.lines, old(reader.pos), old(traces.Value()), open).error)
    ensures done && DiscardFrom(reader.lines, old(reader.pos), old(traces.Value()), open).Ok? ==>
      err == None && Position(reader.pos, traces.Value()) == DiscardFrom(reader.lines, old(reader.pos), old(traces.Value()), open).value
    ensures !done ==>
      && err == None && old(reader.pos) < reader.pos
      && (open'.Some? ==> open'.value in traces.Value().stacks)
      && DiscardFrom(reader.lines, old(reader.pos), old(traces.Value()), open)
        == DiscardFrom(reader.lines, reader.pos, traces.Value(), open')
  {
    ghost var pos, t := reader.pos, traces.Value();
    assert open.Some? ==> open.value in t.stacks;
    var read := reader.ReadLine();
    if read.None? {
      return None, true, trace, open;
    }
    var line := read.value;
    assert line == reader.lines[pos] && reader.pos == pos + 1 && traces.Value() == t;
    err, next, open' := DiscardLine(traces, trace, line, open);
    if err.Some? {
      DiscardFromErr(reader.lines, pos, t, open, err.value);
      return err, true, next, open';
    }
    done := StartsWith(line, SamplesEnd);
    if done {
      DiscardFromEnd(reader.lines, pos, t, open, traces.Value(), open');
    } else {
      DiscardFromNext(reader.lines, pos, t, open, traces.Value(), open');
    }
  }

  /** `readAndDiscardBlock`: one section skipped, the traces it defines kept in the table. */
  method ReadAndDiscardBlock(reader: Reader, traces: TraceMap) returns (err: Option<Error>)
    requires reader.Valid() && traces.Valid()
    modifies reader, traces, traces.entries.Values
    ensures reader.Valid() && reader.mark == old(reader.mark) && traces.Valid() && Grown(traces)
    ensures DiscardFrom(reader.lines, old(reader.pos), old(traces.Value()), None).Err? ==>
      err == Some(DiscardFrom(reader.lines, old(reader.pos), old(traces.Value()), None).error)
    ensures DiscardFrom(reader.lines, old(reader.pos), old(traces.Value()), None).Ok? ==>
      err == None && Position(reader.pos, traces.Value()) == DiscardFrom(reader.lines, old(reader.pos), old(traces.Value()), None).value
  {
    ghost var start := DiscardFrom(reader.lines, reader.pos, traces.Value(), None);
    var trace: Trace? := null;
    ghost var open: Option<int> := None;
    while true
      invariant reader.Valid() && reader.mark == old(reader.mark) && traces.Valid() && Grown(traces)
      invariant Holds(traces, trace, open)
      invariant open.Some? ==> open.value in traces.Value().stacks
      invariant DiscardFrom(reader.lines, reader.pos, traces.Value(), open) == start
      decreases |reader.lines| - reader.pos
    {
      var done;
      err, done, trace, open := DiscardNext(reader, traces, trace, open);
      if done {
        return;
      }
    }
  }

  /** `index` sections skipped one after the other, from `pos`. */
  function SkipSections(lines: seq<string>, pos: nat, t: Table, index: int): (r: Result<Position>)
    requires pos <= |lines|
    ensures r.Ok? ==> pos <= r.value.pos <= |lines|
    decreases if index <= 0 then 0 else index
  {
    if index <= 0 then Ok(Position(pos, t))
    else
      match DiscardFrom(lines, pos, t, None) {
        case Err(e) => Err(e)
        case Ok(p) => SkipSections(lines, p.pos, p.table, index - 1)
      }
  }

  // ---------------------------------------------------------------------
  // readTraces
  // ---------------------------------------------------------------------

  /** What one line does to `readTraces`: it goes on with a new mark, table and open trace, or it ends the phase. */
  datatype TraceStep = Next(mark: Option<nat>, table: Table, open: Option<int>) | Done(result: Result<Position>)

  /**
   * The line at `pos`, read with the given mark, table and open trace. THREAD
   * lines are passed over; a TRACE line puts a fresh trace and opens it; a
   * BEGIN line rewinds to the mark; any other line is added to the open
   * trace, a stack line with no open trace being an error. The mark is taken
   * after every TRACE and stack line.
   */
  function TracesStep(line: string, pos: nat, mark: Option<nat>, t: Table, open: Option<int>): (r: TraceStep)
    requires open.Some? ==> open.value in t.stacks
    ensures r.Next? ==> (r.open.Some? ==> r.open.value in r.table.stacks) && (r.mark == mark || r.mark == Some(pos + 1))
    ensures r.Done? && r.result.Ok? ==> mark.Some? && r.result.value.pos == mark.value
  {
    if StartsWith(line, ThreadPrefix) then
      Next(mark, t, open)
    else if StartsWith(line, TracePrefix) then
      match TraceId(line) {
        case Err(e) => Done(Err(e))
        case Ok(id) => Next(Some(pos + 1), t.Put(id), Some(id))
      }
    else if StartsWith(line, SamplesBegin) then
      Done(if mark.Some? then Ok(Position(mark.value, t)) else Err(NotMarked))
    else if open.None? then
      Done(Err(NoOpenTrace(line)))
    else
      Next(Some(pos + 1), t.Append(open.value, line), open)
  }

  /**
   * Reading the trace definitions of the active section from `pos`, line by
   * line, until a line ends the phase; the end of the input ends it where it
   * is. Since BEGIN rewinds to the mark, a successful phase ends at the line
   * after the last TRACE or stack line.
   */
  function TracesFrom(lines: seq<string>, pos: nat, mark: Option<nat>, t: Table, open: Option<int>): (r: Result<Position>)
    requires pos <= |lines|
    requires mark.Some? ==> mark.value <= |lines|
    requires open.Some? ==> open.value in t.stacks
    ensures r.Ok? ==> r.value.pos <= |lines|
    decreases |lines| - pos
  {
    if pos == |lines| then Ok(Position(pos, t))
    else
      match TracesStep(lines[pos], pos, mark, t, open) {
        case Done(r) => r
        case Next(m, next, o) => TracesFrom(lines, pos + 1, m, next, o)
      }
  }

  /** A line that does not end the phase: reading goes on from the next line with the step's state. */
  lemma TracesFromNext(lines: seq<string>, pos: nat, mark: Option<nat>, t: Table, open: Option<int>,
                       mark': Option<nat>, t': Table, open': Option<int>)
    requires pos < |lines| && (mark.Some? ==> mark.value <= |lines|) && (open.Some? ==> open.value in t.stacks)
    requires TracesStep(lines[pos], pos, mark, t, open) == Next(mark', t', open')
    ensures (mark'.Some? ==> mark'.value <= |lines|) && (open'.Some? ==> open'.value in t'.stacks)
    ensures TracesFrom(lines, pos, mark, t, open) == TracesFrom(lines, pos + 1, mark', t', open')
  {
  }

  /** A line that ends the phase: its outcome is the phase's. */
  lemma TracesFromDone(lines: seq<string>, pos: nat, mark: Option<nat>, t: Table, open: Option<int>, r: Result<Position>)
    requires pos < |lines| && (mark.Some? ==> mark.value <= |lines|) && (open.Some? ==> open.value in t.stacks)
    requires TracesStep(lines[pos], pos, mark, t, open) == Done(r)
    ensures TracesFrom(lines, pos, mark, t, open) == r
  {
  }

  /** A TRACE line of `readTraces`: the trace put and opened, and the mark taken after the line. */
  method DefineTrace(reader: Reader, traces: TraceMap, line: string) returns (err: Option<Error>, trace: Trace?)
    requires reader.Valid() && traces.Valid()
    modifies reader, traces
    ensures reader.Valid() && traces.Valid() && Grown(traces) && reader.pos == old(reader.pos)
    ensures match TraceId(line)
      case Err(e) => err == Some(e) && unchanged(traces)
      case Ok(id) =>
        && err == None && Holds(traces, trace, Some(id)) && reader.mark == Some(reader.pos)
        && traces.Value() == old(traces.Value()).Put(id)
  {
    err, trace := OpenTrace(traces, line);
    if err.None? {
      reader.Mark();
    }
  }

  /** A stack line of `readTraces` with a trace open: the line added to it, and the mark taken after the line. */
  method ExtendTrace(reader: Reader, traces: TraceMap, trace: Trace, line: string, ghost open: Option<int>)
    requires reader.Valid() && traces.Valid() && Holds(traces, trace, open)
    modifies reader, trace
    ensures reader.Valid() && traces.Valid() && Holds(traces, trace, open) && unchanged(traces)
    ensures reader.pos == old(reader.pos) && reader.mark == Some(reader.pos)
    ensures open.Some? && open.value in old(traces.Value()).stacks
    ensures traces.Value() == old(traces.Value()).Append(open.value, line)
  {
    AppendToOpen(traces, trace, line, open);
    reader.Mark();
  }

  /** What a handled line, as its step says, tells of the phase read from that line. */
  lemma TracesFromAfter(lines: seq<string>, pos: nat, mark: Option<nat>, t: Table, open: Option<int>, step: TraceStep,
                        done: bool, err: Option<Error>, pos': nat, mark': Option<nat>, t': Table, open': Option<int>)
    requires pos < |lines| && (mark.Some? ==> mark.value <= |lines|) && (open.Some? ==> open.value in t.stacks)
    requires step == TracesStep(lines[pos], pos, mark, t, open)
    requires done <==> step.Done?
    requires step.Done? && step.result.Err? ==> err == Some(step.result.error)
    requires step.Done? && step.result.Ok? ==> err == None && Position(pos', t') == step.result.value
    requires step.Next? ==> err == None && pos' == pos + 1 && mark' == step.mark && t' == step.table && open' == step.open
    ensures done && TracesFrom(lines, pos, mark, t, open).Err? ==> err == Some(TracesFrom(lines, pos, mark, t, open).error)
    ensures done && TracesFrom(lines, pos, mark, t, open).Ok? ==>
      err == None && Position(pos', t') == TracesFrom(lines, pos, mark, t, open).value
    ensures !done ==>
      && err == None && pos < pos' <= |lines|
      && (mark'.Some? ==> mark'.value <= |lines|) && (open'.Some? ==> open'.value in t'.stacks)
      && TracesFrom(lines, pos, mark, t, open) == TracesFrom(lines, pos', mark', t', open')
  {
    if done {
      TracesFromDone(lines, pos, mark, t, open, step.result);
    } else {
      TracesFromNext(lines, pos, mark, t, open, mark', t', open');
    }
  }

  /** The line at `pos` of `readTraces`, just read, handled as `TracesStep` says. */
  method TracesAt(reader: Reader, traces: TraceMap, trace: Trace?, line: string,
                  ghost pos: nat, ghost mark: Option<nat>, ghost t: Table, ghost open: Option<int>)
    returns (err: Option<Error>, done: bool, next: Trace?, ghost open': Option<int>, ghost step: TraceStep)
    requires reader.Valid() && reader.pos == pos + 1 && reader.mark == mark
    requires traces.Valid() && traces.Value() == t && Holds(traces, trace, open)
    requires open.Some? ==> open.value in t.stacks
    modifies reader, traces, traces.entries.Values
    ensures reader.Valid() && traces.Valid() && Holds(traces, next, open') && Grown(traces)
    ensures step == TracesStep(line, pos, mark, t, open)
    ensures match step
      case Done(r) =>
        && done && (r.Err? ==> err == Some(r.error))
        && (r.Ok? ==> err == None && Position(reader.pos, traces.Value()) == r.value)
      case Next(m, table, o) =>
        && !done && err == None && reader.pos == pos + 1 && reader.mark == m
        && traces.Value() == table && open' == o
  {
    step := TracesStep(line, pos, mark, t, open);
    if StartsWith(line, ThreadPrefix) {
      assert step == Next(mark, t, open);
      return None, false, trace, open, step;
    } else if StartsWith(line, TracePrefix) {
      err, next := DefineTrace(reader, traces, line);
      if err.Some? {
        return err, true, trace, open, step;
      }
      open' := Some(TraceId(line).value);
      assert step == Next(Some(pos + 1), t.Put(open'.value), open');
      return None, false, next, open', step;
    } else if StartsWith(line, SamplesBegin) {
      var ok := reader.Reset();
      if !ok {
        return Some(NotMarked), true, trace, open, step;
      }
      assert step == Done(Ok(Position(mark.value, t)));
      return None, true, trace, open, step;
    } else {
      if trace == null {
        return Some(NoOpenTrace(line)), true, trace, open, step;
      }
      ExtendTrace(reader, traces, trace, line, open);
      assert step == Next(Some(pos + 1), t.Append(open.value, line), open);
      return None, false, trace, open, step;
    }
  }

  /** The body of the `readTraces` loop: one line read and handled; `done` where the loop breaks. */
  method TracesLine(reader: Reader, traces: TraceMap, trace: Trace?, ghost open: Option<int>)
    returns (err: Option<Error>, done: bool, next: Trace?, ghost open': Option<int>)
    requires reader.Valid() && traces.Valid() && Holds(traces, trace, open)
    requires open.Some? ==> open.value in traces.Value().stacks
    modifies reader, traces, traces.entries.Values
    ensures reader.Valid() && traces.Valid() && Holds(traces, next, open') && Grown(traces)
    ensures done && TracesFrom(reader.lines, old(reader.pos), old(reader.mark), old(traces.Value()), open).Err? ==>
      err == Some(TracesFrom(reader.lines, old(reader.pos), old(reader.mark), old(traces.Value()), open).error)
    ensures done && TracesFrom(reader.lines, old(reader.pos), old(reader.mark), old(traces.Value()), open).Ok? ==>
      err == None && Position(reader.pos, traces.Value())
        == TracesFrom(reader.lines, old(reader.pos), old(reader.mark), old(traces.Value()), open).value
    ensures !done ==>
      && err == None && old(reader.pos) < reader.pos
      && (open'.Some? ==> open'.value in traces.Value().stacks)
      && TracesFrom(reader.lines, old(reader.pos), old(reader.mark), old(traces.Value()), open)
        == TracesFrom(reader.lines, reader.pos, reader.mark, traces.Value(), open')
  {
    ghost var pos, mark, t := reader.pos, reader.mark, traces.Value();
    var read := reader.ReadLine();
    if read.None? {
      return None, true, trace, open;
    }
    var line := read.value;
    assert line == reader.lines[pos] && reader.pos == pos + 1 && reader.mark == mark && traces.Value() == t;
    ghost var step;
    err, done, next, open', step := TracesAt(reader, traces, trace, line, pos, mark, t, open);
    TracesFromAfter(reader.lines, pos, mark, t, open, step, done, err, reader.pos, reader.mark, traces.Value(), open');
  }

  /** `readTraces`: the active section's traces put in the table, the reader left at the mark. */
  method ReadTraces(reader: Reader, traces: TraceMap) returns (err: Option<Error>)
    requires reader.Valid() && traces.Valid()
    modifies reader, traces, traces.entries.Values
    ensures reader.Valid() && traces.Valid() && Grown(traces)
    ensures TracesFrom(reader.lines, old(reader.pos), old(reader.mark), old(traces.Value()), None).Err? ==>
      err == Some(TracesFrom(reader.lines, old(reader.pos), old(reader.mark), old(traces.Value()), None).error)
    ensures TracesFrom(reader.lines, old(reader.pos), old(reader.mark), old(traces.Value()), None).Ok? ==>
      err == None && Position(reader.pos, traces.Value()) == TracesFrom(reader.lines, old(reader.pos), old(reader.mark), old(traces.Value()), None).value
  {
    ghost var start := TracesFrom(reader.lines, reader.pos, reader.mark, traces.Value(), None);
    var trace: Trace? := null;
    ghost var open: Option<int> := None;
    while true
      invariant reader.Valid() && traces.Valid() && Grown(traces)
      invariant Holds(traces, trace, open)
      invariant open.Some? ==> open.value in traces.Value().stacks
      invariant TracesFrom(reader.lines, reader.pos, reader.mark, traces.Value(), open) == start
      decreases |reader.lines| - reader.pos
    {
      var done;
      err, done, trace, open := TracesLine(reader, traces, trace, open);
      if done {
        return;
      }
    }
  }

  // ---------------------------------------------------------------------
  // readSamples
  // ---------------------------------------------------------------------

  /**
   * The total of a BEGIN line, by `readSamples`' substring arithmetic: read
   * from 9 characters past the first `(`.
   */
  function BeginTotal(line: string): (r: Result<int>)
    ensures r.Ok? ==> IsInt32(r.value)
    ensures r.Err? ==> r.error.MalformedBegin? || r.error.BadNumber?
  {
    TotalFrom(line, IndexOf(line, '(') + 9)
  }

  /** The total of `line` read from `start`: the text up to the next `)`, as an `int`. */
  function TotalFrom(line: string, start: nat): (r: Result<int>)
    ensures r.Ok? ==> IsInt32(r.value)
    ensures r.Err? ==> r.error.MalformedBegin? || r.error.BadNumber?
  {
    if start > |line| then Err(MalformedBegin(line))
    else
      var totals := line[start..];
      var close := IndexOf(totals, ')');
      if close < 0 then Err(MalformedBegin(line))
      else
        match ParseInt(totals[..close]) {
          case None => Err(BadNumber(totals[..close]))
          case Some(total) => Ok(total)
        }
  }

  /** The date of a BEGIN line: the text from 2 characters past the first `)`. */
  function BeginDate(line: string): (r: Result<string>)
    ensures r.Err? ==> r.error == MalformedBegin(line)
  {
    var dateStart := IndexOf(line, ')') + 2;
    if dateStart > |line| then Err(MalformedBegin(line)) else Ok(line[dateStart..])
  }

  /**
   * The total and the date of a BEGIN line, the total taken first; a line
   * the arithmetic does not fit is an error.
   */
  function ParseBegin(line: string): (r: Result<(int, string)>)
    ensures r.Ok? ==> IsInt32(r.value.0)
    ensures r.Err? ==> r.error.MalformedBegin? || r.error.BadNumber?
  {
    match BeginTotal(line) {
      case Err(e) => Err(e)
      case Ok(total) =>
        match BeginDate(line) {
          case Err(e) => Err(e)
          case Ok(date) => Ok((total, date))
        }
    }
  }

  /** What one line does to `readSamples`: it goes on with the samples and date so far, or it ends the phase. */
  datatype SampleStep = More(samples: seq<Sample>, date: string) | Finished(result: Result<SampleSection>)

  /**
   * One line of the sample section, with the samples `ss` read so far and
   * the date taken so far: THREAD lines and the column header are passed
   * over, a BEGIN line gives the date, an END line ends the phase, and every
   * other line is a sample row.
   */
  function SamplesStep(line: string, ss: seq<Sample>, date: string): (r: SampleStep)
    ensures r.More? ==> r.samples == ss || (|r.samples| == |ss| + 1 && r.samples[..|ss|] == ss && Printable(r.samples[|ss|]))
    ensures r.More? && !StartsWith(line, SamplesBegin) ==> r.date == date
    ensures r.Finished? && r.result.Ok? ==> StartsWith(line, SamplesEnd) && r.result.value == SampleSection(ss, date)
  {
    if StartsWith(line, ThreadPrefix) then
      More(ss, date)
    else if StartsWith(line, SamplesBegin) then
      match ParseBegin(line) {
        case Err(e) => Finished(Err(e))
        case Ok(begin) => More(ss, begin.1)
      }
    else if StartsWith(JavaTrim(line), RankPrefix) then
      More(ss, date)
    else if StartsWith(line, SamplesEnd) then
      Finished(Ok(SampleSection(ss, date)))
    else
      match ParseSample(line) {
        case Err(e) => Finished(Err(e))
        case Ok(s) => More(ss + [s], date)
      }
  }

  /** Reading the sample section from `pos` line by line; the end of the input ends it too. */
  function SamplesFrom(lines: seq<string>, pos: nat, ss: seq<Sample>, date: string): (r: Result<SampleSection>)
    requires pos <= |lines|
    ensures r.Ok? ==> |ss| <= |r.value.samples| && r.value.samples[..|ss|] == ss
    ensures r.Ok? && AllPrintable(ss) ==> AllPrintable(r.value.samples)
    decreases |lines| - pos
  {
    if pos == |lines| then Ok(SampleSection(ss, date))
    else
      match SamplesStep(lines[pos], ss, date) {
        case Finished(r) => r
        case More(ss', date') => SamplesFrom(lines, pos + 1, ss', date')
      }
  }

  /** A line that does not end the phase: reading goes on from the next line with the step's samples and date. */
  lemma SamplesFromMore(lines: seq<string>, pos: nat, ss: seq<Sample>, date: string, ss': seq<Sample>, date': string)
    requires pos < |lines| && SamplesStep(lines[pos], ss, date) == More(ss', date')
    ensures SamplesFrom(lines, pos, ss, date) == SamplesFrom(lines, pos + 1, ss', date')
  {
  }

  /** A line that ends the phase: its outcome is the phase's. */
  lemma SamplesFromFinished(lines: seq<string>, pos: nat, ss: seq<Sample>, date: string, r: Result<SampleSection>)
    requires pos < |lines| && SamplesStep(lines[pos], ss, date) == Finished(r)
    ensures SamplesFrom(lines, pos, ss, date) == r
  {
  }

  /** The body of the `readSamples` loop: one line read and handled; `done` where the loop breaks or throws. */
  method SamplesLine(reader: Reader, samples: Samples, date: string)
    returns (err: Option<Error>, done: bool, date': string)
    requires reader.Valid()
    modifies reader, samples
    ensures reader.Valid()
    ensures done && SamplesFrom(reader.lines, old(reader.pos), old(samples.samples), date).Err? ==>
      err == Some(SamplesFrom(reader.lines, old(reader.pos), old(samples.samples), date).error)
    ensures done && SamplesFrom(reader.lines, old(reader.pos), old(samples.samples), date).Ok? ==>
      err == None &&
      SampleSection(samples.samples, date') == SamplesFrom(reader.lines, old(reader.pos), old(samples.samples), date).value
    ensures !done ==>
      err == None && old(reader.pos) < reader.pos <= |reader.lines| &&
      SamplesFrom(reader.lines, old(reader.pos), old(samples.samples), date)
        == SamplesFrom(reader.lines, reader.pos, samples.samples, date')
  {
    ghost var pos, ss := reader.pos, samples.samples;
    date' := date;
    var next := reader.ReadLine();
    if next.None? {
      return None, true, date';
    }
    var line := next.value;
    ghost var step := SamplesStep(line, ss, date);
    if StartsWith(line, ThreadPrefix) {
      err, done := None, false;
    } else if StartsWith(line, SamplesBegin) {
      match ParseBegin(line) {
        case Err(e) =>
          err, done := Some(e), true;
        case Ok(begin) =>
          err, done, date' := None, false, begin.1;
      }
    } else if StartsWith(JavaTrim(line), RankPrefix) {
      err, done := None, false;
    } else if StartsWith(line, SamplesEnd) {
      err, done := None, true;
    } else {
      err := samples.AddLine(line);
      done := err.Some?;
    }
    if done {
      SamplesFromFinished(reader.lines, pos, ss, date, step.result);
    } else {
      SamplesFromMore(reader.lines, pos, ss, date, samples.samples, date');
    }
  }

  /** `readSamples`: the section's rows added to `samples`, and the date returned. */
  method ReadSamples(reader: Reader, samples: Samples) returns (date: string, err: Option<Error>)
    requires reader.Valid()
    modifies reader, samples
    ensures reader.Valid()
    ensures SamplesFrom(reader.lines, old(reader.pos), old(samples.samples), "").Err? ==>
      err == Some(SamplesFrom(reader.lines, old(reader.pos), old(samples.samples), "").error)
    ensures SamplesFrom(reader.lines, old(reader.pos), old(samples.samples), "").Ok? ==>
      err == None && SampleSection(samples.samples, date) == SamplesFrom(reader.lines, old(reader.pos), old(samples.samples), "").value
  {
    ghost var start := SamplesFrom(reader.lines, reader.pos, samples.samples, "");
    date := "";
    while true
      invariant reader.Valid()
      invariant SamplesFrom(reader.lines, reader.pos, samples.samples, date) == start
      decreases |reader.lines| - reader.pos
    {
      var done;
      err, done, date := SamplesLine(reader, samples, date);
      if done {
        return;
      }
    }
  }

  // ---------------------------------------------------------------------
  // run
  // ---------------------------------------------------------------------

  /** What `run` gathers before it writes the report: the trace table, the sample rows and the date. */
  datatype Section = Section(table: Table, samples: seq<Sample>, date: string)

  /**
   * The phases after the header: `index` sections skipped, the trace
   * definitions of the active section read with the given mark, then its
   * sample rows; the first phase that fails ends the reading.
   */
  function ActiveSection(lines: seq<string>, pos: nat, mark: Option<nat>, index: int): (r: Result<Section>)
    requires pos <= |lines|
    requires mark.Some? ==> mark.value <= |lines|
    ensures r.Ok? ==> AllPrintable(r.value.samples)
  {
    match SkipSections(lines, pos, Empty, index) {
      case Err(e) => Err(e)
      case Ok(skipped) =>
        match TracesFrom(lines, skipped.pos, mark, skipped.table, None) {
          case Err(e) => Err(e)
          case Ok(defined) =>
            match SamplesFrom(lines, defined.pos, [], "") {
              case Err(e) => Err(e)
              case Ok(section) => Ok(Section(defined.table, section.samples, section.date))
            }
        }
    }
  }

  /**
   * Everything one run writes after `out`, reading `lines` from `pos` with
   * the given mark and skipping `index` sections: the header, then, when
   * every phase succeeds, the filtered report of the active section. An
   * error ends the run after the header.
   */
  function FilterReport(out: seq<string>, lines: seq<string>, pos: nat, mark: Option<nat>, index: int): (r: Outcome)
    requires pos <= |lines|
    requires mark.Some? ==> mark.value <= |lines|
    ensures var h := HeaderEnd(lines, pos, false);
      |out| + (h - pos) <= |r.out| && r.out[..|out| + (h - pos)] == out + lines[pos..h]
    ensures r.error.Some? ==> |r.out| == |out| + (HeaderEnd(lines, pos, false) - pos)
  {
    var headerEnd := HeaderEnd(lines, pos, false);
    var header := out + lines[pos..headerEnd];
    match ActiveSection(lines, headerEnd, mark, index) {
      case Err(e) => Outcome(header, Some(e))
      case Ok(section) => Outcome(EmitText(header, section.samples, section.table, section.date), None)
    }
  }

  /** The loop of `run` that skips the first `index` sections, each with `readAndDiscardBlock`. */
  method SkipBlocks(reader: Reader, traces: TraceMap, index: int) returns (err: Option<Error>)
    requires reader.Valid() && traces.Valid()
    modifies reader, traces, traces.entries.Values
    ensures reader.Valid() && reader.mark == old(reader.mark) && traces.Valid() && Grown(traces)
    ensures SkipSections(reader.lines, old(reader.pos), old(traces.Value()), index).Err? ==>
      err == Some(SkipSections(reader.lines, old(reader.pos), old(traces.Value()), index).error)
    ensures SkipSections(reader.lines, old(reader.pos), old(traces.Value()), index).Ok? ==>
      err == None && Position(reader.pos, traces.Value()) == SkipSections(reader.lines, old(reader.pos), old(traces.Value()), index).value
  {
    ghost var start := SkipSections(reader.lines, reader.pos, traces.Value(), index);
    var i := 0;
    while i < index
      invariant reader.Valid() && reader.mark == old(reader.mark) && traces.Valid() && Grown(traces)
      invariant SkipSections(reader.lines, reader.pos, traces.Value(), index - i) == start
      decreases index - i
    {
      err := ReadAndDiscardBlock(reader, traces);
      if err.Some? {
        return;
      }
      i := i + 1;
    }
    return None;
  }

  /** The reading phases of `run`: the traces and the samples of the active section, or the exception that ends it. */
  method ReadSection(reader: Reader, index: int) returns (err: Option<Error>, traces: TraceMap, samples: Samples?, date: string)
    requires reader.Valid()
    modifies reader
    ensures reader.Valid() && fresh(traces) && traces.Valid()
    ensures ActiveSection(reader.lines, old(reader.pos), old(reader.mark), index).Err? ==>
      err == Some(ActiveSection(reader.lines, old(reader.pos), old(reader.mark), index).error)
    ensures ActiveSection(reader.lines, old(reader.pos), old(reader.mark), index).Ok? ==>
      && err == None && samples != null && fresh(samples)
      && Section(traces.Value(), samples.samples, date) == ActiveSection(reader.lines, old(reader.pos), old(reader.mark), index).value
  {
    traces := new TraceMap();
    samples, date := null, "";
    err := SkipBlocks(reader, traces, index);
    if err.Some? {
      return;
    }
    err := ReadTraces(reader, traces);
    if err.Some? {
      return;
    }
    ghost var table := traces.Value();
    samples := new Samples();
    date, err := ReadSamples(reader, samples);
    assert traces.Value() == table;
  }

  /** `run(reader, writer, index)`: the error, if any, is the exception that ends the run. */
  method Run(reader: Reader, writer: Writer, index: int) returns (err: Option<Error>)
    requires reader.Valid()
    modifies reader, writer
    ensures FilterReport(old(writer.lines), reader.lines, old(reader.pos), old(reader.mark), index)
      == Outcome(writer.lines, err)
  {
    ReadHeader(reader, writer);
    var traces, samples, date;
    err, traces, samples, date := ReadSection(reader, index);
    if err.Some? {
      return;
    }
    samples.Emit(writer, traces, date);
  }

  // ---------------------------------------------------------------------
  // The default output name
  // ---------------------------------------------------------------------

  /** The last position of `c` in `s`, or -1. */
  function LastIndexOf(s: string, c: char): (r: int)
    ensures -1 <= r < |s|
    ensures r >= 0 ==> s[r] == c && c !in s[r + 1..]
    ensures r == -1 ==> c !in s
  {
    if s == [] then -1
    else if s[|s| - 1] == c then |s| - 1
    else
      var k := LastIndexOf(s[..|s| - 1], c);
      assert k >= 0 ==> s[k + 1..] == s[..|s| - 1][k + 1..] + [s[|s| - 1]];
      k
  }

  /** The last occurrence of `c` is the one after which `c` does not occur again. */
  lemma LastIndexOfAt(s: string, c: char, k: nat)
    requires k < |s| && s[k] == c && c !in s[k + 1..]
    ensures LastIndexOf(s, c) == k
  {
  }

  /** `Files.getFileExtension(name)`: what follows the last dot, or nothing when there is no dot. */
  function FileExtension(name: string): (ext: string)
    ensures '.' !in ext
  {
    var dot := LastIndexOf(name, '.');
    if dot < 0 then [] else name[dot + 1..]
  }

  /** `Files.getNameWithoutExtension(name)`: what precedes the last dot, or the whole name. */
  function NameWithoutExtension(name: string): (base: string)
    ensures name == base + (if '.' in name then "." + FileExtension(name) else [])
  {
    var dot := LastIndexOf(name, '.');
    if dot < 0 then name
    else
      assert name == name[..dot] + "." + name[dot + 1..];
      name[..dot]
  }

  /**
   * The name of the filtered report next to the report `name` when no output
   * path is given: the name without its extension, `.filtered.`, and the
   * extension; the result has the same extension, and `.filtered` added to
   * the name without it.
   */
  function FilteredName(name: string): (r: string)
    ensures FileExtension(r) == FileExtension(name)
    ensures NameWithoutExtension(r) == NameWithoutExtension(name) + ".filtered"
  {
    var base := NameWithoutExtension(name);
    var ext := FileExtension(name);
    var r := base + ".filtered." + ext;
    assert r == (base + ".filtered") + "." + ext;
    assert r[|base| + 9] == '.' && r[|base| + 10..] == ext;
    LastIndexOfAt(r, '.', |base| + 9);
    assert r[..|base| + 9] == base + ".filtered";
    r
  }
}
