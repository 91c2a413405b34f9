/** The byte counts that the report divides by times, and the start times, at every point of a trace: both are those of
    the last outermost START. */
module ProfilerBytes {
  import opened Options
  import opened Profiler
  import opened ProfilerStack
  import opened ProfilerTicks

  /** The last START of `s` at which `s` was not open already. */
  function LastEntry(trace: seq<Event>, s: slot): Option<Event>
    decreases |trace|
  {
    if trace == [] then None
    else
      var before, last := trace[..|trace| - 1], trace[|trace| - 1];
      if last.Start? && last.slot == s && OpenCalls(before).Open? && s !in OpenCalls(before).calls then Some(last)
      else LastEntry(before, s)
  }

  lemma {:induction false} EntryIsStart(trace: seq<Event>, s: slot)
    ensures LastEntry(trace, s).Some? ==> LastEntry(trace, s).value.Start?
    decreases |trace|
  {
    if trace == [] {
    } else {
      EntryIsStart(trace[..|trace| - 1], s);
    }
  }

  /** Block `b` of a slot after a trace: the bytes of its last entry, and the time of it while it is open. */
  predicate Recalls(b: Block, entry: Option<Event>, open: bool)
    requires entry.Some? ==> entry.value.Start?
  {
    if entry.None? then !open && b.processedByteCount == 0 && b.startRdtsc == 0
    else b.processedByteCount == entry.value.bytes && b.startRdtsc == if open then entry.value.time else 0
  }

  lemma StartRecalls(p: Profile, i: slot, time: ticks, bytes: ticks, calls: seq<slot>, s: slot, entry: Option<Event>)
    requires At(p, calls) && DirectStart(calls, i) && (entry.Some? ==> entry.value.Start?)
    requires Recalls(p.blocks[s], entry, s in calls)
    ensures Recalls(BlockStart(p, i, time, bytes).blocks[s],
                    if i == s && s !in calls then Some(Start(i, time, bytes)) else entry, s in calls + [i])
  {
    CollapseFacts(calls, i);
  }

  lemma EndRecalls(p: Profile, i: slot, time: ticks, calls: seq<slot>, s: slot, entry: Option<Event>)
    requires At(p, calls + [i]) && DirectStart(calls, i) && (entry.Some? ==> entry.value.Start?)
    requires Recalls(p.blocks[s], entry, s in calls + [i])
    ensures Recalls(BlockEnd(p, i, time).blocks[s], entry, s in calls)
  {
    EndBlocks(p, i, time, calls, s);
  }

  lemma EventRecalls(p: Profile, calls: seq<slot>, e: Event, s: slot, entry: Option<Event>)
    requires At(p, calls) && AllDirect(calls) && (entry.Some? ==> entry.value.Start?)
    requires Recalls(p.blocks[s], entry, s in calls)
    requires if e.Start? then DirectStart(calls, e.slot) else calls != [] && calls[|calls| - 1] == e.slot
    ensures var after := if e.Start? then calls + [e.slot] else calls[..|calls| - 1];
            Recalls(Apply(p, e).blocks[s], if e.Start? && e.slot == s && s !in calls then Some(e) else entry,
                    s in after)
  {
    if e.Start? {
      StartRecalls(p, e.slot, e.time, e.bytes, calls, s, entry);
    } else {
      var d := calls[..|calls| - 1];
      assert calls == d + [e.slot];
      assert DirectStart(calls[..|d|], calls[|d|]);
      EndRecalls(p, e.slot, e.time, d, s, entry);
    }
  }

  /** At every point of a well-bracketed trace in which blocks are re-entered only directly, a block's byte count is
      that of its last outermost START, or zero; its start time is the time of that START while it is open, and zero
      otherwise. */
  lemma {:induction false} BlocksRecallEntry(trace: seq<Event>, s: slot)
    requires OpenCalls(trace).Open? && DirectOnly(trace)
    ensures LastEntry(trace, s).Some? ==> LastEntry(trace, s).value.Start?
    ensures Recalls(ApplyAll(INITIAL, trace).blocks[s], LastEntry(trace, s), s in OpenCalls(trace).calls)
    decreases |trace|
  {
    EntryIsStart(trace, s);
    if trace == [] {
    } else {
      var before := trace[..|trace| - 1];
      BlocksRecallEntry(before, s);
      ApplyLast(INITIAL, trace);
      StackInvariant(before);
      OpenCallsAreDirect(before);
      EventRecalls(ApplyAll(INITIAL, before), OpenCalls(before).calls, trace[|trace| - 1], s, LastEntry(before, s));
    }
  }
}
