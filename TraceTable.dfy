/**
 * The trace population: a LinkedHashMap from trace id to Trace, shared by
 * every phase of one run. A re-put of a known id replaces the trace but keeps
 * the key's original place in the iteration order.
 */
module TraceTable {
  import opened Traces

  predicate NoDuplicates(s: seq<int>) {
    forall i, j :: 0 <= i < j < |s| ==> s[i] != s[j]
  }

  /** The map's content as a value: keys in first-insertion order and each key's stack lines. */
  datatype Table = Table(order: seq<int>, stacks: map<int, seq<string>>) {

    ghost predicate Valid() {
      NoDuplicates(order) && forall k :: k in stacks <==> k in order
    }

    /** `put(id, new Trace(id))`: a fresh, empty trace under `id`. */
    function Put(id: int): (t: Table)
      ensures Valid() ==> t.Valid()
      ensures id in t.stacks && t.stacks.Keys == stacks.Keys + {id}
    {
      Table(if id in stacks then order else order + [id], stacks[id := []])
    }

    /** `addStackLine(line)` on the trace stored under `id`. */
    function Append(id: int, line: string): (t: Table)
      requires id in stacks
      ensures t.stacks.Keys == stacks.Keys && t.order == order
    {
      Table(order, stacks[id := stacks[id] + [line]])
    }
  }

  const Empty: Table := Table([], map[])

  /** Re-putting a known id leaves every key where it was in the iteration order. */
  lemma PutKnownKeepsOrder(t: Table, id: int)
    requires id in t.stacks
    ensures t.Put(id).order == t.order
    ensures t.Put(id).stacks[id] == []
  {
  }

  class TraceMap {
    var keys: seq<int>
    var entries: map<int, Trace>

    /** The keys list the map's keys once each, and every trace is stored under its own id. */
    ghost predicate Valid()
      reads this
    {
      && NoDuplicates(keys)
      && (forall k :: k in entries <==> k in keys)
      && (forall k :: k in entries ==> entries[k].id == k)
    }

    /** The map's content as a value. */
    function Value(): (t: Table)
      reads this, entries.Values
      ensures t.stacks.Keys == entries.Keys && t.order == keys
    {
      Table(keys, map k | k in entries :: entries[k].stackLines)
    }

    /** The content of a well-formed map is a well-formed table. */
    lemma ValueValid()
      requires Valid()
      ensures Value().Valid()
    {
    }

    constructor ()
      ensures Valid() && entries == map[] && Value() == Empty
    {
      keys := [];
      entries := map[];
    }

    /** `put(trace.getId(), trace)` */
    method Put(trace: Trace)
      requires Valid()
      modifies this
      ensures Valid()
      ensures keys == if trace.id in old(entries) then old(keys) else old(keys) + [trace.id]
      ensures entries == old(entries)[trace.id := trace]
      ensures entries.Values <= old(entries.Values) + {trace}
      ensures Value() == Table(keys, old(Value()).stacks[trace.id := trace.stackLines])
      ensures trace.stackLines == [] ==> Value() == old(Value()).Put(trace.id)
    {
      if trace.id !in entries {
        keys := keys + [trace.id];
      }
      entries := entries[trace.id := trace];
    }

    /** `get(id)`: the trace stored under `id`, or null. */
    function Get(id: int): (t: Trace?)
      requires Valid()
      reads this
      ensures t != null <==> id in Value().stacks
      ensures t != null ==> t.id == id && t in entries.Values
    {
      if id in entries then entries[id] else null
    }
  }

  /**
   * A line appended through another reference to a trace the map holds
   * shows in the map as that line appended under the trace's id; the other
   * traces, distinct objects since they carry other ids, are untouched.
   */
  twostate lemma AppendThroughEntry(new m: TraceMap, new trace: Trace, line: string)
    requires old(allocated(m)) && old(allocated(trace))
    requires old(m.Valid())
    requires trace.id in old(m.entries)
    requires old(m.entries[trace.id]) == trace
    requires m.keys == old(m.keys)
    requires m.entries == old(m.entries)
    requires trace.stackLines == old(trace.stackLines) + [line]
    requires forall k | k in m.entries && k != trace.id :: m.entries[k].stackLines == old(m.entries[k].stackLines)
    ensures m.Valid()
    ensures m.Value() == old(m.Value()).Append(trace.id, line)
  {
    var before := old(m.Value());
    var after := before.stacks[trace.id := before.stacks[trace.id] + [line]];
    forall k | k in m.entries
      ensures m.entries[k].stackLines == after[k]
    {
      if k != trace.id {
        assert old(m.entries[k].stackLines) == before.stacks[k];
      }
    }
    assert m.Value().stacks == after;
  }
}
