/**
 * The sample table of the active section: parsing its rows, and writing the
 * re-ranked report of the samples whose traces survive filtering.
 */
module Samples {
  import opened Options
  import opened Text
  import opened Errors
  import opened Streams
  import opened Traces
  import opened TraceTable

  /** One sample row: how often the trace was seen, the trace id, and the method it is attributed to. */
  datatype Sample = Sample(count: int, trace: int, methodName: string)

  /** What `addLine` can produce, and what prints and reads back: counts and ids that fit `int`, and a trimmed method name. */
  predicate Printable(s: Sample) {
    IsInt32(s.count) && IsInt32(s.trace) && IsTrimmedText(s.methodName)
  }

  predicate AllPrintable(ss: seq<Sample>) {
    forall i :: 0 <= i < |ss| ==> Printable(ss[i])
  }

  /** A sample row holds rank, self, accum, count, trace and method: six fields. */
  const RowFields: nat := 6

  /**
   * The sample a row holds, as `Samples.addLine` reads it: the row is split
   * into at most six trimmed, non-empty fields, the fourth is the count, the
   * fifth the trace id and the sixth, the rest of the row, the method.
   */
  function ParseSample(line: string): (r: Result<Sample>)
    ensures r.Ok? ==> Printable(r.value)
    ensures r.Err? ==> r.error.MalformedSample? || r.error.BadNumber?
  {
    var fields := Fields(line, RowFields);
    if |fields| != RowFields then Err(MalformedSample(line))
    else
      match ParseInt(fields[3]) {
        case None => Err(BadNumber(fields[3]))
        case Some(count) =>
          match ParseInt(fields[4]) {
            case None => Err(BadNumber(fields[4]))
            case Some(trace) => Ok(Sample(count, trace, fields[5]))
          }
      }
  }

  // ---------------------------------------------------------------------
  // Which samples survive, and in which order
  // ---------------------------------------------------------------------

  /** A sample is kept when its trace is in the table and that trace is not filtered. */
  predicate Keeps(t: Table, s: Sample) {
    s.trace in t.stacks && !IsFiltered(t.stacks[s.trace])
  }

  /** The samples the stream filter lets through, in file order. */
  function Retained(ss: seq<Sample>, t: Table): (r: seq<Sample>)
    ensures |r| <= |ss|
    ensures forall i :: 0 <= i < |r| ==> Keeps(t, r[i])
  {
    if ss == [] then [] else (if Keeps(t, ss[0]) then [ss[0]] else []) + Retained(ss[1..], t)
  }

  /** The ids the stream filter collects: the traces of the retained samples. */
  function RelevantIds(ss: seq<Sample>, t: Table): (r: set<int>)
    ensures forall k | k in r :: k in t.stacks && !IsFiltered(t.stacks[k])
  {
    var kept := Retained(ss, t);
    assert forall s | s in kept :: Keeps(t, s) by {
      forall s | s in kept
        ensures Keeps(t, s)
      {
        var i :| 0 <= i < |kept| && kept[i] == s;
      }
    }
    set s | s in kept :: s.trace
  }

  predicate SortedByCount(ss: seq<Sample>) {
    forall i, j :: 0 <= i < j < |ss| ==> ss[i].count >= ss[j].count
  }

  /** The samples of `ss` whose count is `c`, in their order in `ss`. */
  function WithCount(ss: seq<Sample>, c: int): seq<Sample> {
    if ss == [] then [] else (if ss[0].count == c then [ss[0]] else []) + WithCount(ss[1..], c)
  }

  /** `s` placed in front of the first element whose count is not greater than its own. */
  function InsertByCount(s: Sample, ss: seq<Sample>): (r: seq<Sample>)
    ensures multiset(r) == multiset(ss) + multiset{s}
  {
    if ss != [] && ss[0].count > s.count then
      assert ss == [ss[0]] + ss[1..];
      [ss[0]] + InsertByCount(s, ss[1..])
    else
      [s] + ss
  }

  /**
   * The stream's `sorted` with the comparator
   * `Integer.compare(s2.getCount(), s1.getCount())`: descending count; the
   * sort is stable, so equal counts keep their input order.
   */
  function SortByCount(ss: seq<Sample>): (r: seq<Sample>)
    ensures SortedByCount(r)
    ensures multiset(r) == multiset(ss)
  {
    if ss == [] then []
    else
      assert ss == [ss[0]] + ss[1..];
      InsertSorted(ss[0], SortByCount(ss[1..]));
      InsertByCount(ss[0], SortByCount(ss[1..]))
  }

  /** `mapToLong(s -> s._count).sum()` */
  function Total(ss: seq<Sample>): (r: int)
    ensures (forall i :: 0 <= i < |ss| ==> ss[i].count >= 0) ==> r >= 0
    ensures (forall i :: 0 <= i < |ss| ==> ss[i].count == 0) ==> r == 0
  {
    if ss == [] then 0 else ss[0].count + Total(ss[1..])
  }

  // ---------------------------------------------------------------------
  // Percentages, with the special values of double division
  // ---------------------------------------------------------------------

  /** A percentage column as Java computes it in `double`: a finite value, or a special value. */
  datatype Percent = Finite(value: real) | PosInfinity | NegInfinity | NaN

  /** `(double) count / total * 100`; a zero total gives an infinity or NaN, as IEEE division does. */
  function SelfPercent(count: int, total: int): (r: Percent)
    ensures r.Finite? <==> total != 0
    ensures r.Finite? ==> r.value * total as real == count as real * 100.0
    ensures total == 0 ==> (r.NaN? <==> count == 0)
  {
    if total != 0 then Finite(count as real / total as real * 100.0)
    else if count > 0 then PosInfinity
    else if count < 0 then NegInfinity
    else NaN
  }

  /** `accum += perc` */
  function AddPercent(a: Percent, b: Percent): (r: Percent)
    ensures r.Finite? <==> a.Finite? && b.Finite?
    ensures r.NaN? <==> a.NaN? || b.NaN? || (a.PosInfinity? && b.NegInfinity?) || (a.NegInfinity? && b.PosInfinity?)
  {
    if a.NaN? || b.NaN? then NaN
    else if a.Finite? && b.Finite? then Finite(a.value + b.value)
    else if (a.PosInfinity? && b.NegInfinity?) || (a.NegInfinity? && b.PosInfinity?) then NaN
    else if a.PosInfinity? || b.PosInfinity? then PosInfinity
    else NegInfinity
  }

  /** The running percentage after the samples `ss`, starting from `accum`. */
  function Accumulate(accum: Percent, ss: seq<Sample>, total: int): (r: Percent)
    ensures accum.NaN? ==> r.NaN?
    ensures total != 0 ==> (r.Finite? <==> accum.Finite?)
    decreases |ss|
  {
    if ss == [] then accum
    else Accumulate(AddPercent(accum, SelfPercent(ss[0].count, total)), ss[1..], total)
  }

  predicate IsNumeral(c: char) {
    IsDigit(c) || c == '-' || c == '.'
  }

  /**
   * `%.2f` of a finite value in a locale such as `Locale.US` (ASCII digits,
   * `.` as separator): rounded half up to hundredths, with a minus sign in
   * front of a negative value.
   */
  function FixedTwo(v: real): (r: string)
    ensures r != [] && r[0] != ' '
    ensures forall i :: 0 <= i < |r| ==> IsNumeral(r[i])
  {
    var magnitude := if v < 0.0 then -v else v;
    var hundredths: nat := (magnitude * 100.0 + 0.5).Floor;
    var whole := NatToString(hundredths / 100);
    (if v < 0.0 then "-" else "") + whole + "."
      + [DigitChar(hundredths % 100 / 10), DigitChar(hundredths % 10)]
  }

  /** `%.2f` of any value, special values included, before padding. */
  function PercentText(p: Percent): string {
    match p
    case Finite(v) => FixedTwo(v)
    case PosInfinity => "Infinity"
    case NegInfinity => "-Infinity"
    case NaN => "NaN"
  }

  /** `%5.2f`: right-justified in five columns. */
  function FormatPercent(p: Percent): string {
    PadLeft(PercentText(p), 5)
  }

  // ---------------------------------------------------------------------
  // The emitted report
  // ---------------------------------------------------------------------

  const RowHeader: string := "rank   self  accum   count trace method"
  const SamplesEnd: string := "CPU SAMPLES END"

  const BeginLead: string := "CPU SAMPLES BEGIN (total = "

  /** `String.format("CPU SAMPLES BEGIN (total = %d) %s", total, date)` */
  function BeginLine(total: int, date: string): (r: string)
    ensures StartsWith(r, BeginLead)
    ensures |date| < |r| && r[|r| - |date|..] == date
  {
    var r := BeginLead + (IntToString(total) + (") " + date));
    StartsWithConcat(BeginLead, IntToString(total) + (") " + date));
    r
  }

  /** What one row of the report shows. */
  datatype Row = Row(rank: int, perc: Percent, accum: Percent, sample: Sample)

  /** The six conversions of `"%4d %5.2f%% %5.2f%% %7d %5d %s"`, one cell each. */
  function RowCells(rank: int, perc: Percent, accum: Percent, s: Sample): (r: seq<string>)
    ensures |r| == RowFields && r[RowFields - 1] == s.methodName
    ensures |r[0]| >= 4 && |r[1]| >= 6 && |r[2]| >= 6 && |r[3]| >= 7 && |r[4]| >= 5
  {
    [PadLeft(IntToString(rank), 4), FormatPercent(perc) + "%", FormatPercent(accum) + "%",
     PadLeft(IntToString(s.count), 7), PadLeft(IntToString(s.trace), 5), s.methodName]
  }

  /** `String.format("%4d %5.2f%% %5.2f%% %7d %5d %s", rank, perc, accum, count, trace, method)` */
  function FormatRow(rank: int, perc: Percent, accum: Percent, s: Sample): (r: string)
    ensures StartsWith(r, PadLeft(IntToString(rank), 4) + " ")
    ensures var m := " " + s.methodName; |m| <= |r| && r[|r| - |m|..] == m
  {
    JoinEnds(RowCells(rank, perc, accum, s));
    Join(RowCells(rank, perc, accum, s))
  }

  /** The definition written for key `k`: its trace when relevant and not filtered, else nothing. */
  function TraceEntry(k: int, t: Table, relevant: set<int>): seq<string> {
    if k in relevant && k in t.stacks && !IsFiltered(t.stacks[k]) then TraceText(k, t.stacks[k]) else []
  }

  /** The output `out` followed by the definitions written for the keys `order`, in that order. */
  function TraceDefinitions(out: seq<string>, order: seq<int>, t: Table, relevant: set<int>): seq<string>
    decreases order
  {
    if order == [] then out
    else TraceDefinitions(out + TraceEntry(order[0], t, relevant), order[1..], t, relevant)
  }

  /** The output `out` followed by the rows of `ss`, ranked from `rank`, the running percentage continued from `accum`. */
  function SampleRows(out: seq<string>, ss: seq<Sample>, total: int, rank: int, accum: Percent): seq<string>
    decreases ss
  {
    if ss == [] then out
    else
      var perc := SelfPercent(ss[0].count, total);
      var next := AddPercent(accum, perc);
      SampleRows(out + [FormatRow(rank, perc, next, ss[0])], ss[1..], total, rank + 1, next)
  }

  /** The output `out` followed by everything `Samples.emit` writes for the samples `ss` against the table `t`. */
  function EmitText(out: seq<string>, ss: seq<Sample>, t: Table, date: string): (r: seq<string>)
    ensures |out| <= |r| && r[..|out|] == out
    ensures ss == [] ==> r == out
    ensures ss != [] ==> |out| + 3 <= |r| && r[|r| - 1] == SamplesEnd
  {
    if ss == [] then out
    else
      var kept := SortByCount(Retained(ss, t));
      var total := Total(kept);
      var defs := TraceDefinitions(out, t.order, t, RelevantIds(ss, t));
      TraceDefinitionsAfter(out, t.order, t, RelevantIds(ss, t));
      SampleRowsLines(defs + [BeginLine(total, date)] + [RowHeader], kept, total, 1, Finite(0.0));
      SampleRows(TraceDefinitions(out, t.order, t, RelevantIds(ss, t)) + [BeginLine(total, date)] + [RowHeader],
                 kept, total, 1, Finite(0.0))
        + [SamplesEnd]
  }

  /** The samples of one section, in file order. */
  class Samples {
    var samples: seq<Sample>

    constructor ()
      ensures samples == []
    {
      samples := [];
    }

    /** Appends the sample a row holds; a row that does not parse changes nothing. */
    method AddLine(line: string) returns (err: Option<Error>)
      modifies this
      ensures ParseSample(line).Ok? ==> err == None && samples == old(samples) + [ParseSample(line).value]
      ensures ParseSample(line).Err? ==> err == Some(ParseSample(line).error) && samples == old(samples)
    {
      match ParseSample(line) {
        case Ok(s) =>
          samples := samples + [s];
          err := None;
        case Err(e) =>
          err := Some(e);
      }
    }

    /** Writes nothing for an empty section, else the traces, the re-ranked rows and the end marker. */
    method Emit(writer: Writer, traces: TraceMap, date: string)
      requires traces.Valid()
      modifies writer
      ensures writer.lines == EmitText(old(writer.lines), samples, old(traces.Value()), date)
    {
      if samples == [] {
        return;
      }
      ghost var table := traces.Value();
      var filtered := EmitRelevantTraces(writer, traces);
      var total := Total(filtered);
      writer.WriteLine(BeginLine(total, date));
      writer.WriteLine(RowHeader);
      ghost var rowsStart := writer.lines;
      assert rowsStart
        == TraceDefinitions(old(writer.lines), table.order, table, RelevantIds(samples, table))
           + [BeginLine(total, date)] + [RowHeader];
      var rank := 1;
      var accum := Finite(0.0);
      for i := 0 to |filtered|
        invariant SampleRows(writer.lines, filtered[i..], total, rank, accum)
          == SampleRows(rowsStart, filtered, total, 1, Finite(0.0))
      {
        var perc := SelfPercent(filtered[i].count, total);
        accum := AddPercent(accum, perc);
        writer.WriteLine(FormatRow(rank, perc, accum, filtered[i]));
        assert filtered[i..][1..] == filtered[i + 1..];
        rank := rank + 1;
      }
      assert filtered[|filtered|..] == [];
      writer.WriteLine(SamplesEnd);
      assert writer.lines == SampleRows(rowsStart, filtered, total, 1, Finite(0.0)) + [SamplesEnd];
      assert writer.lines == EmitText(old(writer.lines), samples, table, date);
    }

    /**
     * Picks the retained samples, sorted, and writes the definitions of the
     * traces they refer to, in table order.
     */
    method EmitRelevantTraces(writer: Writer, traces: TraceMap) returns (filtered: seq<Sample>)
      requires traces.Valid()
      modifies writer
      ensures filtered == SortByCount(Retained(samples, old(traces.Value())))
      ensures writer.lines
        == TraceDefinitions(old(writer.lines), traces.keys, old(traces.Value()), RelevantIds(samples, old(traces.Value())))
    {
      var table := traces.Value();
      var relevantTraces := RelevantIds(samples, table);
      filtered := SortByCount(Retained(samples, table));
      for i := 0 to |traces.keys|
        invariant TraceDefinitions(writer.lines, traces.keys[i..], table, relevantTraces)
          == TraceDefinitions(old(writer.lines), traces.keys, table, relevantTraces)
      {
        var key := traces.keys[i];
        assert traces.keys[i..][1..] == traces.keys[i + 1..];
        assert key in table.stacks;
        if key in relevantTraces {
          var trace := traces.entries[key];
          assert trace.id == key && trace.stackLines == table.stacks[key];
          if !trace.ShouldFilter() {
            trace.Emit(writer);
          }
        } else {
          assert writer.lines + TraceEntry(key, table, relevantTraces) == writer.lines;
        }
      }
      assert traces.keys[|traces.keys|..] == [];
    }
  }

  // ---------------------------------------------------------------------
  // Properties
  // ---------------------------------------------------------------------

  /** Inserting into a sequence sorted by descending count keeps it sorted. */
  lemma {:induction false} InsertSorted(s: Sample, ss: seq<Sample>)
    requires SortedByCount(ss)
    ensures SortedByCount(InsertByCount(s, ss))
  {
    if ss != [] && ss[0].count > s.count {
      InsertSorted(s, ss[1..]);
      InsertBelow(s, ss[1..], ss[0].count);
      SortedCons(ss[0], InsertByCount(s, ss[1..]));
    } else {
      SortedCons(s, ss);
    }
  }

  /** Inserting a sample no greater than a bound into samples no greater than it keeps them below it. */
  lemma {:induction false} InsertBelow(s: Sample, ss: seq<Sample>, bound: int)
    requires s.count <= bound && forall k :: 0 <= k < |ss| ==> ss[k].count <= bound
    ensures forall k :: 0 <= k < |InsertByCount(s, ss)| ==> InsertByCount(s, ss)[k].count <= bound
  {
    if ss != [] && ss[0].count > s.count {
      InsertBelow(s, ss[1..], bound);
      var r := InsertByCount(s, ss);
      assert forall k :: 0 < k < |r| ==> r[k] == InsertByCount(s, ss[1..])[k - 1];
    }
  }

  /** A sample in front of sorted samples none of which is greater keeps them sorted. */
  lemma SortedCons(x: Sample, rest: seq<Sample>)
    requires SortedByCount(rest) && forall k :: 0 <= k < |rest| ==> rest[k].count <= x.count
    ensures SortedByCount([x] + rest)
  {
    var r := [x] + rest;
    forall i, j | 0 <= i < j < |r|
      ensures r[i].count >= r[j].count
    {
      assert r[j] == rest[j - 1];
      if i > 0 {
        assert r[i] == rest[i - 1];
      }
    }
  }

  /** Inserting `s` puts it in front of the samples of its own count already there. */
  lemma {:induction false} InsertWithCount(s: Sample, ss: seq<Sample>, c: int)
    ensures WithCount(InsertByCount(s, ss), c) == (if s.count == c then [s] else []) + WithCount(ss, c)
  {
    if ss != [] && ss[0].count > s.count {
      var rest := InsertByCount(s, ss[1..]);
      InsertWithCount(s, ss[1..], c);
      WithCountCons(ss[0], rest, c);
      WithCountCons(ss[0], ss[1..], c);
      assert [ss[0]] + ss[1..] == ss;
      if ss[0].count == c {
        assert s.count != c;
      }
    } else {
      WithCountCons(s, ss, c);
    }
  }

  lemma WithCountCons(x: Sample, rest: seq<Sample>, c: int)
    ensures WithCount([x] + rest, c) == (if x.count == c then [x] else []) + WithCount(rest, c)
  {
    assert ([x] + rest)[1..] == rest;
  }

  /**
   * The sort is stable: the samples of any one count come out in the order
   * they were read.
   */
  lemma {:induction false} SortStable(ss: seq<Sample>, c: int)
    ensures WithCount(SortByCount(ss), c) == WithCount(ss, c)
  {
    if ss != [] {
      SortStable(ss[1..], c);
      InsertWithCount(ss[0], SortByCount(ss[1..]), c);
    }
  }

  lemma {:induction false} TotalOfInsert(s: Sample, ss: seq<Sample>)
    ensures Total(InsertByCount(s, ss)) == s.count + Total(ss)
  {
    if ss != [] && ss[0].count > s.count {
      TotalOfInsert(s, ss[1..]);
      assert InsertByCount(s, ss)[1..] == InsertByCount(s, ss[1..]);
    } else {
      assert ([s] + ss)[1..] == ss;
    }
  }

  /** Sorting leaves the sample total alone. */
  lemma {:induction false} TotalOfSort(ss: seq<Sample>)
    ensures Total(SortByCount(ss)) == Total(ss)
  {
    if ss != [] {
      TotalOfSort(ss[1..]);
      TotalOfInsert(ss[0], SortByCount(ss[1..]));
    }
  }

  /** A sample survives the filter exactly when it was read and its trace is known and not filtered. */
  lemma {:induction false} RetainedMembers(ss: seq<Sample>, t: Table, x: Sample)
    ensures x in Retained(ss, t) <==> x in ss && Keeps(t, x)
  {
    if ss != [] {
      RetainedMembers(ss[1..], t, x);
      assert x in ss <==> x == ss[0] || x in ss[1..];
    }
  }

  /** The filter drops no copy of a kept sample and lets no other through. */
  lemma {:induction false} RetainedMultiplicity(ss: seq<Sample>, t: Table, x: Sample)
    ensures multiset(Retained(ss, t))[x] == if Keeps(t, x) then multiset(ss)[x] else 0
  {
    if ss != [] {
      RetainedMultiplicity(ss[1..], t, x);
      assert ss == [ss[0]] + ss[1..];
    }
  }

  /**
   * Every relevant id names a known trace that is not filtered, so the second
   * `shouldFilter` test in `emitRelevantTraces` never skips a trace.
   */
  lemma RelevantAreUnfiltered(ss: seq<Sample>, t: Table, k: int)
    requires k in RelevantIds(ss, t)
    ensures k in t.stacks && !IsFiltered(t.stacks[k])
    ensures TraceEntry(k, t, RelevantIds(ss, t)) == TraceText(k, t.stacks[k])
  {
    var s :| s in Retained(ss, t) && s.trace == k;
    RetainedMembers(ss, t, s);
  }

  /** An id is relevant exactly when some kept sample refers to it. */
  lemma RelevantIdsMembers(ss: seq<Sample>, t: Table, k: int)
    ensures k in RelevantIds(ss, t) <==> exists i :: 0 <= i < |ss| && ss[i].trace == k && Keeps(t, ss[i])
  {
    if k in RelevantIds(ss, t) {
      var s :| s in Retained(ss, t) && s.trace == k;
      RetainedMembers(ss, t, s);
      var i :| 0 <= i < |ss| && ss[i] == s;
    }
    if exists i :: 0 <= i < |ss| && ss[i].trace == k && Keeps(t, ss[i]) {
      var i :| 0 <= i < |ss| && ss[i].trace == k && Keeps(t, ss[i]);
      RetainedMembers(ss, t, ss[i]);
    }
  }

  /** The keys of `order` that are in `relevant`, in order. */
  function Selected(order: seq<int>, relevant: set<int>): seq<int> {
    if order == [] then [] else (if order[0] in relevant then [order[0]] else []) + Selected(order[1..], relevant)
  }

  /** The lines of the definitions of `keys`, one after the other. */
  function Definitions(keys: seq<int>, t: Table): seq<string>
    requires forall k | k in keys :: k in t.stacks
  {
    if keys == [] then [] else TraceText(keys[0], t.stacks[keys[0]]) + Definitions(keys[1..], t)
  }

  lemma {:induction false} SelectedMembers(order: seq<int>, relevant: set<int>, k: int)
    ensures k in Selected(order, relevant) <==> k in order && k in relevant
  {
    if order != [] {
      SelectedMembers(order[1..], relevant, k);
      assert k in order <==> k == order[0] || k in order[1..];
    }
  }

  lemma {:induction false} SelectedDistinct(order: seq<int>, relevant: set<int>)
    requires NoDuplicates(order)
    ensures NoDuplicates(Selected(order, relevant))
  {
    if order != [] {
      SelectedDistinct(order[1..], relevant);
      if order[0] in relevant {
        var rest := Selected(order[1..], relevant);
        SelectedMembers(order[1..], relevant, order[0]);
        assert forall j | 0 <= j < |order[1..]| :: order[1..][j] == order[j + 1] != order[0];
        assert order[0] !in order[1..];
        var r := [order[0]] + rest;
        forall i, j | 0 <= i < j < |r|
          ensures r[i] != r[j]
        {
          if i == 0 {
            assert r[j] == rest[j - 1] && r[j] in rest;
          } else {
            assert r[i] == rest[i - 1] && r[j] == rest[j - 1];
          }
        }
      }
    }
  }

  lemma {:induction false} TraceDefinitionsAppend(out: seq<string>, order: seq<int>, t: Table, relevant: set<int>)
    requires forall k | k in order :: k in t.stacks
    requires forall k | k in relevant :: k in t.stacks && !IsFiltered(t.stacks[k])
    ensures forall k | k in Selected(order, relevant) :: k in t.stacks
    ensures TraceDefinitions(out, order, t, relevant) == out + Definitions(Selected(order, relevant), t)
    decreases order
  {
    forall k | k in Selected(order, relevant)
      ensures k in t.stacks
    {
      SelectedMembers(order, relevant, k);
    }
    if order != [] {
      var e := TraceEntry(order[0], t, relevant);
      assert forall k | k in order[1..] :: k in order;
      TraceDefinitionsAppend(out + e, order[1..], t, relevant);
      if order[0] in relevant {
        assert Selected(order, relevant) == [order[0]] + Selected(order[1..], relevant);
        assert Selected(order, relevant)[1..] == Selected(order[1..], relevant);
      } else {
        assert e == [];
        assert out + e == out;
        assert Selected(order, relevant) == Selected(order[1..], relevant);
      }
    }
  }

  /** The definitions are written after whatever `out` already holds, whatever it holds. */
  lemma {:induction false} TraceDefinitionsAfter(out: seq<string>, order: seq<int>, t: Table, relevant: set<int>)
    ensures TraceDefinitions(out, order, t, relevant) == out + TraceDefinitions([], order, t, relevant)
    decreases order
  {
    if order != [] {
      var e := TraceEntry(order[0], t, relevant);
      TraceDefinitionsAfter(out + e, order[1..], t, relevant);
      TraceDefinitionsAfter(e, order[1..], t, relevant);
      assert [] + e == e;
    }
  }

  /**
   * The trace section of a report holds the definition of every relevant
   * trace, each once, in the table's iteration order, and nothing else.
   */
  lemma TraceSectionContents(out: seq<string>, ss: seq<Sample>, t: Table)
    requires t.Valid()
    ensures var keys := Selected(t.order, RelevantIds(ss, t));
      && NoDuplicates(keys)
      && (forall k :: k in keys <==> k in RelevantIds(ss, t))
      && (forall k | k in keys :: k in t.stacks)
      && TraceDefinitions(out, t.order, t, RelevantIds(ss, t)) == out + Definitions(keys, t)
  {
    var relevant := RelevantIds(ss, t);
    forall k | k in relevant
      ensures k in t.stacks && !IsFiltered(t.stacks[k])
    {
      RelevantAreUnfiltered(ss, t, k);
    }
    SelectedDistinct(t.order, relevant);
    forall k
      ensures k in Selected(t.order, relevant) <==> k in relevant
    {
      SelectedMembers(t.order, relevant, k);
    }
    TraceDefinitionsAppend(out, t.order, t, relevant);
  }

  /** The values shown by the rows for `ss`, ranked from `rank`, the running percentage continued from `accum`. */
  function Rows(ss: seq<Sample>, total: int, rank: int, accum: Percent): (rows: seq<Row>)
    ensures |rows| == |ss|
    decreases ss
  {
    if ss == [] then []
    else
      var perc := SelfPercent(ss[0].count, total);
      var next := AddPercent(accum, perc);
      [Row(rank, perc, next, ss[0])] + Rows(ss[1..], total, rank + 1, next)
  }

  /** The text of each row. */
  function Lines(rows: seq<Row>): (lines: seq<string>)
    ensures |lines| == |rows|
  {
    if rows == [] then [] else [FormatRow(rows[0].rank, rows[0].perc, rows[0].accum, rows[0].sample)] + Lines(rows[1..])
  }

  /** The rows written after `out` are the text of the rows for the samples, one line each. */
  lemma {:induction false} SampleRowsLines(out: seq<string>, ss: seq<Sample>, total: int, rank: int, accum: Percent)
    ensures SampleRows(out, ss, total, rank, accum) == out + Lines(Rows(ss, total, rank, accum))
    decreases ss
  {
    if ss != [] {
      var perc := SelfPercent(ss[0].count, total);
      var next := AddPercent(accum, perc);
      var rows := Rows(ss, total, rank, accum);
      SampleRowsLines(out + [FormatRow(rank, perc, next, ss[0])], ss[1..], total, rank + 1, next);
      assert rows[0] == Row(rank, perc, next, ss[0]);
      assert rows[1..] == Rows(ss[1..], total, rank + 1, next);
    }
  }

  /** Line `i` is the text of row `i`. */
  lemma {:induction false} LinesAt(rows: seq<Row>, i: nat)
    requires i < |rows|
    ensures Lines(rows)[i] == FormatRow(rows[i].rank, rows[i].perc, rows[i].accum, rows[i].sample)
  {
    if i > 0 {
      LinesAt(rows[1..], i - 1);
    }
  }

  /** The running percentage over a prefix, starting from the first sample's share. */
  lemma AccumulatePrefix(accum: Percent, ss: seq<Sample>, total: int, i: nat)
    requires i < |ss|
    ensures Accumulate(accum, ss[..i + 1], total)
      == Accumulate(AddPercent(accum, SelfPercent(ss[0].count, total)), ss[1..][..i], total)
  {
    assert ss[..i + 1][0] == ss[0];
    assert ss[..i + 1][1..] == ss[1..][..i];
  }

  /**
   * Row `i` carries the rank `rank + i`, its own share of the total, and the
   * running percentage over the samples up to and including its own.
   */
  lemma {:induction false} RowsAt(ss: seq<Sample>, total: int, rank: int, accum: Percent, i: nat)
    requires i < |ss|
    ensures Rows(ss, total, rank, accum)[i]
      == Row(rank + i, SelfPercent(ss[i].count, total), Accumulate(accum, ss[..i + 1], total), ss[i])
  {
    var next := AddPercent(accum, SelfPercent(ss[0].count, total));
    AccumulatePrefix(accum, ss, total, i);
    if i == 0 {
      assert ss[1..][..0] == [];
    } else {
      RowsAt(ss[1..], total, rank + 1, next, i - 1);
      assert ss[1..][i - 1] == ss[i];
    }
  }

  lemma AddOver(x: real, y: real, t: real)
    requires t != 0.0
    ensures x / t * 100.0 + y / t * 100.0 == (x + y) / t * 100.0
  {
  }

  /** With a non-zero total, the running percentage is the exact share of the samples so far. */
  lemma {:induction false} AccumulateFinite(a: real, ss: seq<Sample>, total: int)
    requires total != 0
    ensures Accumulate(Finite(a), ss, total) == Finite(a + Total(ss) as real / total as real * 100.0)
    decreases ss
  {
    if ss != [] {
      var c := ss[0].count as real;
      AccumulateFinite(a + c / total as real * 100.0, ss[1..], total);
      AddOver(c, Total(ss[1..]) as real, total as real);
    }
  }

  /** With a non-zero total, the last row's running percentage is 100. */
  lemma AccumulateToHundred(ss: seq<Sample>)
    requires Total(ss) != 0
    ensures Accumulate(Finite(0.0), ss, Total(ss)) == Finite(100.0)
  {
    AccumulateFinite(0.0, ss, Total(ss));
    DivSelf(Total(ss) as real);
  }

  lemma DivSelf(t: real)
    requires t != 0.0
    ensures t / t == 1.0
  {
  }

  /** Once NaN, the running percentage stays NaN. */
  lemma {:induction false} AccumulateNaN(ss: seq<Sample>, total: int)
    ensures Accumulate(NaN, ss, total) == NaN
  {
    if ss != [] {
      AccumulateNaN(ss[1..], total);
    }
  }

  /** A section whose kept samples all count zero shows NaN in both percentage columns of every row. */
  lemma ZeroCountsGiveNaN(ss: seq<Sample>, i: nat)
    requires i < |ss| && forall j :: 0 <= j < |ss| ==> ss[j].count == 0
    ensures SelfPercent(ss[i].count, 0) == NaN
    ensures Accumulate(Finite(0.0), ss[..i + 1], 0) == NaN
  {
    assert ss[..i + 1][0].count == 0;
    AccumulateNaN(ss[..i + 1][1..], 0);
  }

  lemma IntCell(n: int, width: nat)
    ensures IsToken(Unpad(PadLeft(IntToString(n), width)))
    ensures Unpad(PadLeft(IntToString(n), width)) == IntToString(n)
  {
    IntToStringHasNoWhitespace(n);
    UnpadOfPadLeft(IntToString(n), width);
  }

  lemma PercentTextVisible(p: Percent)
    ensures PercentText(p) != []
    ensures forall i :: 0 <= i < |PercentText(p)| ==> IsVisibleAscii(PercentText(p)[i])
  {
  }

  lemma PercentCell(p: Percent)
    ensures Unpad(FormatPercent(p) + "%") == PercentText(p) + "%"
    ensures IsToken(PercentText(p) + "%")
  {
    var body := PercentText(p);
    PercentTextVisible(p);
    var cell := FormatPercent(p) + "%";
    var pad := |cell| - |body| - 1;
    assert cell == Spaces(pad) + (body + "%");
    UnpadSpaces(pad, body + "%");
    VisibleToken(body + "%");
  }

  /** Each cell but the last is a padded token. */
  lemma RowCellsUnpadded(rank: int, perc: Percent, accum: Percent, s: Sample)
    ensures var c := RowCells(rank, perc, accum, s);
      && Unpad(c[0]) == IntToString(rank) && IsToken(Unpad(c[0]))
      && Unpad(c[1]) == PercentText(perc) + "%" && IsToken(Unpad(c[1]))
      && Unpad(c[2]) == PercentText(accum) + "%" && IsToken(Unpad(c[2]))
      && Unpad(c[3]) == IntToString(s.count) && IsToken(Unpad(c[3]))
      && Unpad(c[4]) == IntToString(s.trace) && IsToken(Unpad(c[4]))
  {
    IntCell(rank, 4);
    IntCell(s.count, 7);
    IntCell(s.trace, 5);
    PercentCell(perc);
    PercentCell(accum);
  }

  /** The fields the row splitter finds in a formatted row: the six cells without their padding. */
  lemma FieldsOfFormatRow(rank: int, perc: Percent, accum: Percent, s: Sample)
    requires IsTrimmedText(s.methodName)
    ensures var f := Fields(FormatRow(rank, perc, accum, s), RowFields);
      && |f| == RowFields
      && f[0] == IntToString(rank) && f[1] == PercentText(perc) + "%" && f[2] == PercentText(accum) + "%"
      && f[3] == IntToString(s.count) && f[4] == IntToString(s.trace) && f[5] == s.methodName
  {
    var c := RowCells(rank, perc, accum, s);
    RowCellsUnpadded(rank, perc, accum, s);
    FieldsOfCells(c, [IntToString(rank), PercentText(perc) + "%", PercentText(accum) + "%", IntToString(s.count), IntToString(s.trace)]);
  }

  /** The fields of six joined cells, the first five padded tokens. */
  lemma FieldsOfCells(c: seq<string>, u: seq<string>)
    requires |c| == RowFields && |u| == RowFields - 1
    requires forall i :: 0 <= i < |u| ==> Unpad(c[i]) == u[i] && IsToken(u[i])
    requires IsTrimmedText(c[RowFields - 1])
    ensures var f := Fields(Join(c), RowFields);
      |f| == RowFields && f[0] == u[0] && f[1] == u[1] && f[2] == u[2] && f[3] == u[3] && f[4] == u[4] && f[5] == c[5]
  {
    FieldsOfJoin(c);
  }

  /**
   * A row written by `emit` reads back, through `addLine`'s parser, as the
   * very sample it was written for: a filtered report can be filtered again.
   */
  lemma ParseOfFormatRow(rank: int, perc: Percent, accum: Percent, s: Sample)
    requires IsInt32(s.count) && IsInt32(s.trace) && IsTrimmedText(s.methodName)
    ensures ParseSample(FormatRow(rank, perc, accum, s)) == Ok(s)
  {
    FieldsOfFormatRow(rank, perc, accum, s);
    ParseIntOfIntToString(s.count);
    ParseIntOfIntToString(s.trace);
  }
}
