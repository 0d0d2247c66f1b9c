/**
 * The reader and the writer the filter is handed: a report already split
 * into lines with a read cursor and an optional mark, and a growing list of
 * written lines (each `write` followed by `newLine`).
 */
module Streams {
  import opened Options

  class Reader {
    const lines: seq<string>
    var pos: nat
    var mark: Option<nat>

    ghost predicate Valid()
      reads this
    {
      pos <= |lines| && (mark.Some? ==> mark.value <= |lines|)
    }

    constructor (lines: seq<string>)
      ensures Valid() && this.lines == lines && pos == 0 && mark == None
    {
      this.lines := lines;
      pos := 0;
      mark := None;
    }

    /** `readLine()`: the next line, or `None` at the end of the stream. */
    method ReadLine() returns (line: Option<string>)
      requires Valid()
      modifies this
      ensures Valid() && mark == old(mark)
      ensures old(pos) < |lines| ==> line == Some(lines[old(pos)]) && pos == old(pos) + 1
      ensures old(pos) == |lines| ==> line == None && pos == old(pos)
    {
      if pos < |lines| {
        line := Some(lines[pos]);
        pos := pos + 1;
      } else {
        line := None;
      }
    }

    /** `mark(limit)`: remember the current position. */
    method Mark()
      requires Valid()
      modifies this
      ensures Valid() && pos == old(pos) && mark == Some(pos)
    {
      mark := Some(pos);
    }

    /** `reset()`: back to the mark; `false` where Java throws "Stream not marked". */
    method Reset() returns (ok: bool)
      requires Valid()
      modifies this
      ensures Valid() && mark == old(mark) && ok == mark.Some?
      ensures pos == if ok then mark.value else old(pos)
    {
      ok := mark.Some?;
      if ok {
        pos := mark.value;
      }
    }
  }

  class Writer {
    var lines: seq<string>

    constructor ()
      ensures lines == []
    {
      lines := [];
    }

    /** `write(line)` followed by `newLine()`. */
    method WriteLine(line: string)
      modifies this
      ensures lines == old(lines) + [line]
    {
      lines := lines + [line];
    }
  }
}
