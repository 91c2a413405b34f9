/** The traces of the stack theorem and the forests of the tick theorem are the same runs: every balanced trace is the
    event sequence of a forest of calls. */
module ProfilerForest {
  import opened Profiler
  import opened ProfilerStack
  import opened ProfilerTicks

  /** The clock readings of a trace never go back and stay between `lo` and `hi`. */
  predicate Monotone(trace: seq<Event>, lo: int, hi: int)
    decreases |trace|
  {
    if trace == [] then lo <= hi else lo <= trace[0].time && Monotone(trace[1..], trace[0].time, hi)
  }

  lemma {:induction false} MonotoneAround(a: seq<Event>, e: Event, b: seq<Event>, lo: int, hi: int)
    ensures Monotone(a + [e] + b, lo, hi) <==> Monotone(a, lo, e.time) && Monotone(b, e.time, hi)
    decreases |a|
  {
    if a == [] {
      assert a + [e] + b == [e] + b;
    } else {
      assert (a + [e] + b)[1..] == a[1..] + [e] + b;
      MonotoneAround(a[1..], e, b, a[0].time, hi);
    }
  }

  lemma {:induction false} TimedIffMonotone(f: Forest, lo: int, hi: int)
    ensures Timed(f, lo, hi) <==> Monotone(Events(f), lo, hi)
    decreases f
  {
    if f.Nil? {
    } else {
      TimedIffMonotone(f.inner, f.enter, f.leave);
      TimedIffMonotone(f.rest, f.leave, hi);
      var start, end := Start(f.slot, f.enter, f.bytes), End(f.slot, f.leave);
      assert Events(f) == [] + [start] + (Events(f.inner) + [end] + Events(f.rest));
      MonotoneAround([], start, Events(f.inner) + [end] + Events(f.rest), lo, hi);
      MonotoneAround(Events(f.inner), end, Events(f.rest), f.enter, hi);
    }
  }

  lemma OneStart(trace: seq<Event>, e: Event, calls: seq<slot>)
    requires OpenCalls(trace) == Open(calls) && e.Start?
    ensures OpenCalls(trace + [e]) == Open(calls + [e.slot])
    ensures DirectOnly(trace + [e]) <==> DirectOnly(trace) && DirectStart(calls, e.slot)
  {
    assert (trace + [e])[..|trace|] == trace;
  }

  lemma OneEnd(trace: seq<Event>, e: Event, calls: seq<slot>)
    requires OpenCalls(trace) == Open(calls + [e.slot]) && e.End?
    ensures OpenCalls(trace + [e]) == Open(calls)
    ensures DirectOnly(trace + [e]) <==> DirectOnly(trace)
  {
    assert (trace + [e])[..|trace|] == trace;
    assert (calls + [e.slot])[..|calls|] == calls;
  }

  lemma EventsAfter(before: seq<Event>, f: Forest)
    requires f.Call?
    ensures before + Events(f)
            == before + [Start(f.slot, f.enter, f.bytes)] + Events(f.inner) + [End(f.slot, f.leave)] + Events(f.rest)
  {
  }

  /** A forest's events leave the open calls as they were, and are direct-only exactly when the forest is admissible. */
  lemma {:induction false} AdmissibleIffDirect(f: Forest, before: seq<Event>, calls: seq<slot>)
    requires OpenCalls(before) == Open(calls)
    ensures OpenCalls(before + Events(f)) == Open(calls)
    ensures DirectOnly(before + Events(f)) <==> DirectOnly(before) && Admissible(f, calls)
    decreases f
  {
    if f.Nil? {
      assert before + Events(f) == before;
    } else {
      var start, end := Start(f.slot, f.enter, f.bytes), End(f.slot, f.leave);
      var entered := before + [start];
      var ran := entered + Events(f.inner);
      OneStart(before, start, calls);
      AdmissibleIffDirect(f.inner, entered, calls + [f.slot]);
      OneEnd(ran, end, calls);
      AdmissibleIffDirect(f.rest, ran + [end], calls);
      EventsAfter(before, f);
    }
  }

  function Append(f: Forest, g: Forest): Forest {
    if f.Nil? then g else f.(rest := Append(f.rest, g))
  }

  lemma {:induction false} AppendEvents(f: Forest, g: Forest)
    ensures Events(Append(f, g)) == Events(f) + Events(g)
  {
    if f.Nil? {
    } else {
      AppendEvents(f.rest, g);
      assert Append(f, g).rest == Append(f.rest, g);
    }
  }

  /** A forest under construction: the calls done so far inside each open call. */
  datatype Context = Root(done: Forest) | Within(outer: Context, slot: slot, enter: ticks, bytes: ticks, done: Forest)

  function ContextEvents(c: Context): seq<Event> {
    match c
    case Root(done) => Events(done)
    case Within(outer, i, enter, bytes, done) => ContextEvents(outer) + [Start(i, enter, bytes)] + Events(done)
  }

  function ContextCalls(c: Context): seq<slot> {
    match c
    case Root(_) => []
    case Within(outer, i, _, _, _) => ContextCalls(outer) + [i]
  }

  lemma Completed(c: Context, g: Forest)
    ensures ContextEvents(c.(done := Append(c.done, g))) == ContextEvents(c) + Events(g)
    ensures ContextCalls(c.(done := Append(c.done, g))) == ContextCalls(c)
  {
    AppendEvents(c.done, g);
  }

  /** The context once its innermost open call ends. */
  function Leave(c: Context, leave: ticks): Context
    requires c.Within?
  {
    c.outer.(done := Append(c.outer.done, Call(c.slot, c.enter, leave, c.bytes, c.done, Nil)))
  }

  lemma LeaveEvents(c: Context, leave: ticks)
    requires c.Within?
    ensures ContextEvents(Leave(c, leave)) == ContextEvents(c) + [End(c.slot, leave)]
    ensures ContextCalls(Leave(c, leave)) == ContextCalls(c.outer)
  {
    var g := Call(c.slot, c.enter, leave, c.bytes, c.done, Nil);
    assert Events(g) == [Start(c.slot, c.enter, c.bytes)] + Events(c.done) + [End(c.slot, leave)];
    Completed(c.outer, g);
  }

  /** Reads a trace back into the forest it came from. */
  lemma {:induction false} Rebuild(trace: seq<Event>) returns (c: Context)
    requires OpenCalls(trace).Open?
    ensures ContextEvents(c) == trace && ContextCalls(c) == OpenCalls(trace).calls
    decreases |trace|
  {
    if trace == [] {
      c := Root(Nil);
    } else {
      var before, last := trace[..|trace| - 1], trace[|trace| - 1];
      assert trace == before + [last];
      var b := Rebuild(before);
      match last {
        case Start(i, enter, bytes) =>
          c := Within(b, i, enter, bytes, Nil);
          assert ContextEvents(c) == before + [last] + [];
        case End(_, leave) =>
          LeaveEvents(b, leave);
          c := Leave(b, leave);
          assert ContextCalls(b)[..|ContextCalls(b)| - 1] == ContextCalls(b.outer);
      }
    }
  }

  /** The balanced, direct-only, monotone traces are exactly the event sequences of admissible, timed forests. */
  lemma TracesAreForests(trace: seq<Event>, lo: int, hi: int)
    ensures OpenCalls(trace) == Open([]) && DirectOnly(trace) && Monotone(trace, lo, hi)
            <==> exists f :: Events(f) == trace && Admissible(f, []) && Timed(f, lo, hi)
  {
    if OpenCalls(trace) == Open([]) {
      var c := Rebuild(trace);
      if c.Root? {
        TimedIffMonotone(c.done, lo, hi);
        AdmissibleIffDirect(c.done, [], []);
        assert [] + Events(c.done) == trace;
      }
    }
    forall f | Events(f) == trace && Admissible(f, []) && Timed(f, lo, hi)
      ensures OpenCalls(trace) == Open([]) && DirectOnly(trace) && Monotone(trace, lo, hi)
    {
      TimedIffMonotone(f, lo, hi);
      AdmissibleIffDirect(f, [], []);
      assert [] + Events(f) == trace;
    }
  }
}
