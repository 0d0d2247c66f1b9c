/** One hprof stack-trace definition: its id and its stack lines, most recent frame first. */
module Traces {
  import opened Text
  import opened Streams

  /** The top-of-stack prefixes that mark a trace as runtime plumbing. */
  const ExcludedPrefixes: seq<string> := ["sun.nio", "sun.misc.Unsafe"]

  /** Whether a frame, once trimmed, lies in one of the excluded packages. */
  predicate IsExcludedFrame(frame: string) {
    exists i :: 0 <= i < |ExcludedPrefixes| && StartsWith(JavaTrim(frame), ExcludedPrefixes[i])
  }

  /** Whether a trace with these stack lines is left out of the report. */
  predicate IsFiltered(stackLines: seq<string>) {
    stackLines == [] || IsExcludedFrame(stackLines[0])
  }

  /** The line that opens a trace definition. */
  function TraceHeader(id: int): string {
    "TRACE " + (IntToString(id) + ":")
  }

  /** The lines one trace definition takes in a report. */
  function TraceText(id: int, stackLines: seq<string>): seq<string> {
    [TraceHeader(id)] + stackLines
  }

  class Trace {
    const id: int
    var stackLines: seq<string>

    constructor (id: int)
      ensures this.id == id && stackLines == []
    {
      this.id := id;
      stackLines := [];
    }

    /** Appends one stack line and returns this same trace, for chaining. */
    method AddStackLine(line: string) returns (self: Trace)
      modifies this
      ensures self == this
      ensures stackLines == old(stackLines) + [line]
    {
      stackLines := stackLines + [line];
      self := this;
    }

    /** True for an empty trace and for one whose top frame is excluded. */
    function ShouldFilter(): (r: bool)
      reads this
      ensures r <==> IsFiltered(stackLines)
    {
      if stackLines == [] then true
      else
        var topLine := JavaTrim(stackLines[0]);
        assert ExcludedPrefixes[0] == "sun.nio" && ExcludedPrefixes[1] == "sun.misc.Unsafe";
        if StartsWith(topLine, "sun.nio") then true
        else if StartsWith(topLine, "sun.misc.Unsafe") then true
        else false
    }

    /** Writes the TRACE line and then every stack line in order. */
    method Emit(writer: Writer)
      modifies writer
      ensures writer.lines == old(writer.lines) + TraceText(id, stackLines)
    {
      writer.WriteLine(TraceHeader(id));
      var i := 0;
      while i < |stackLines|
        invariant 0 <= i <= |stackLines|
        invariant writer.lines == old(writer.lines) + TraceText(id, stackLines[..i])
      {
        writer.WriteLine(stackLines[i]);
        assert stackLines[..i + 1] == stackLines[..i] + [stackLines[i]];
        i := i + 1;
      }
      assert stackLines[..i] == stackLines;
    }

    function GetId(): int {
      id
    }

    /** Value equality: the same object, or another trace with the same id and the same lines. */
    predicate Equals(other: object?)
      reads this, other
      ensures Equals(other) <==> other is Trace && id == (other as Trace).id && stackLines == (other as Trace).stackLines
    {
      if other == this then true
      else if !(other is Trace) then false
      else
        var that := other as Trace;
        id == that.id && stackLines == that.stackLines
    }
  }

  /** Once a trace has a line, more lines never change whether it is filtered. */
  lemma FilterFixedByTopFrame(stackLines: seq<string>, more: seq<string>)
    requires stackLines != []
    ensures IsFiltered(stackLines + more) == IsFiltered(stackLines)
  {
    assert (stackLines + more)[0] == stackLines[0];
  }

  lemma JavaTrimOfTrimmed(s: string)
    requires s != [] && !IsJavaTrimmable(s[0]) && !IsJavaTrimmable(s[|s| - 1])
    ensures JavaTrim(s) == s
  {
  }

  /** The excluded list spelled out: a frame is excluded iff it starts with one of the two prefixes. */
  lemma ExcludedFrameCases(frame: string)
    ensures IsExcludedFrame(frame)
      <==> StartsWith(JavaTrim(frame), "sun.nio") || StartsWith(JavaTrim(frame), "sun.misc.Unsafe")
  {
    assert ExcludedPrefixes[0] == "sun.nio" && ExcludedPrefixes[1] == "sun.misc.Unsafe";
  }

  /** A frame with no surrounding blanks is filtered exactly when it starts with an excluded prefix. */
  lemma FilterOfSingleFrame(frame: string)
    requires frame != [] && !IsJavaTrimmable(frame[0]) && !IsJavaTrimmable(frame[|frame| - 1])
    ensures IsFiltered([frame]) <==> StartsWith(frame, "sun.nio") || StartsWith(frame, "sun.misc.Unsafe")
  {
    ExcludedFrameCases(frame);
    JavaTrimOfTrimmed(frame);
  }

  /** The unit test's frames in the excluded packages are filtered. */
  lemma FilterExcludedExamples()
    ensures IsFiltered(["sun.nio.foo.bar"]) && IsFiltered(["sun.misc.Unsafe.foo.bar"])
  {
    assert "sun.nio.foo.bar" == "sun.nio" + ".foo.bar";
    StartsWithConcat("sun.nio", ".foo.bar");
    FilterOfSingleFrame("sun.nio.foo.bar");
    assert "sun.misc.Unsafe.foo.bar" == "sun.misc.Unsafe" + ".foo.bar";
    StartsWithConcat("sun.misc.Unsafe", ".foo.bar");
    FilterOfSingleFrame("sun.misc.Unsafe.foo.bar");
  }

  /** The unit test's frames elsewhere are kept, even one under `sun.`. */
  lemma FilterKeptExamples()
    ensures !IsFiltered(["com.java"]) && !IsFiltered(["sun.foo"])
  {
    assert "com.java"[0] != "sun.nio"[0];
    FilterOfSingleFrame("com.java");
    assert "sun.foo"[4] != "sun.nio"[4];
    FilterOfSingleFrame("sun.foo");
  }
}
