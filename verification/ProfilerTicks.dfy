/** What the profiler's ticks mean: a well-bracketed trace is a forest of calls, and the totals, counts and child
    charges the macros accumulate are sums over that forest. */
module ProfilerTicks {
  import opened Profiler
  import opened ProfilerStack

  /** Calls in order: one call of `slot` with the calls made inside it, then the calls after it. */
  datatype Forest = Nil | Call(slot: slot, enter: ticks, leave: ticks, bytes: ticks, inner: Forest, rest: Forest)

  function Events(f: Forest): seq<Event> {
    match f
    case Nil => []
    case Call(i, enter, leave, bytes, inner, rest) =>
      [Start(i, enter, bytes)] + Events(inner) + [End(i, leave)] + Events(rest)
  }

  /** Blocks are re-entered only directly, given the calls already open around the forest. */
  predicate Admissible(f: Forest, calls: seq<slot>) {
    f.Call? ==> DirectStart(calls, f.slot) && Admissible(f.inner, calls + [f.slot]) && Admissible(f.rest, calls)
  }

  /** The clock readings are monotone and lie between `lo` and `hi`. */
  predicate Timed(f: Forest, lo: int, hi: int) {
    if f.Nil? then lo <= hi
    else lo <= f.enter && Timed(f.inner, f.enter, f.leave) && Timed(f.rest, f.leave, hi)
  }

  function Top(calls: seq<slot>): int {
    if calls == [] then -1 else calls[|calls| - 1]
  }

  // ----- the meaning of the counters -----

  /** Time spent in the outermost activations of `s`. */
  function Outer(f: Forest, calls: seq<slot>, s: slot): int {
    if f.Nil? then 0
    else
      (if f.slot == s && s !in calls then f.leave - f.enter else 0)
      + Outer(f.inner, calls + [f.slot], s) + Outer(f.rest, calls, s)
  }

  /** Number of outermost activations of `s`. */
  function Entries(f: Forest, calls: seq<slot>, s: slot): nat {
    if f.Nil? then 0
    else
      (if f.slot == s && s !in calls then 1 else 0)
      + Entries(f.inner, calls + [f.slot], s) + Entries(f.rest, calls, s)
  }

  /** The totals once `f` is over. */
  function After(f: Forest, calls: seq<slot>, totals: slot -> int): slot -> int {
    (s: slot) => totals(s) + Outer(f, calls, s)
  }

  /** A call without its followers. */
  function Alone(f: Forest): Forest
    requires f.Call?
  {
    f.(rest := Nil)
  }

  predicate ChildOf(f: Forest, calls: seq<slot>, s: slot)
    requires f.Call?
  {
    Top(calls) == s && f.slot !in calls
  }

  /** What is charged to `s` as time of its children: the running total of a child at each of its closes. */
  function Charged(f: Forest, calls: seq<slot>, s: slot, totals: slot -> int): int {
    if f.Nil? then 0
    else
      (if ChildOf(f, calls, s) then totals(f.slot) + (f.leave - f.enter) else 0)
      + Charged(f.inner, calls + [f.slot], s, totals) + Charged(f.rest, calls, s, After(Alone(f), calls, totals))
  }

  /** The time actually spent in direct children of `s`. */
  function ChildTime(f: Forest, calls: seq<slot>, s: slot): int {
    if f.Nil? then 0
    else
      (if ChildOf(f, calls, s) then f.leave - f.enter else 0)
      + ChildTime(f.inner, calls + [f.slot], s) + ChildTime(f.rest, calls, s)
  }

  // ----- the macros compute it -----

  predicate At(p: Profile, calls: seq<slot>) {
    Spells(p, Collapse(calls)) && Counts(p, calls)
  }

  predicate Agree(p: Profile, totals: slot -> int)
    requires Indexed(p)
  {
    forall s: slot :: p.blocks[s].totalTicks == U64(totals(s))
  }

  /** Block `s` went from `b` to `c` by these amounts. */
  predicate Grew(b: Block, c: Block, total: int, entries: int, charged: int) {
    c.totalTicks == U64(b.totalTicks + total) && c.count == U64(b.count + entries)
    && c.childrenTicks == U64(b.childrenTicks + charged)
  }

  predicate Effect(p: Profile, q: Profile, f: Forest, calls: seq<slot>, totals: slot -> int, s: slot)
    requires Indexed(p) && Indexed(q)
  {
    Grew(p.blocks[s], q.blocks[s], Outer(f, calls, s), Entries(f, calls, s), Charged(f, calls, s, totals))
    && (s in calls ==> q.blocks[s].startRdtsc == p.blocks[s].startRdtsc)
  }

  lemma GrewTwice(b: Block, c: Block, d: Block, t: int, e: int, k: int, t': int, e': int, k': int)
    requires Grew(b, c, t, e, k) && Grew(c, d, t', e', k')
    ensures Grew(b, d, t + t', e + e', k + k')
  {
  }

  /** The START of a call reads the clock once per outermost activation and touches no counter. */
  lemma StartEffect(p: Profile, i: slot, time: ticks, bytes: ticks, calls: seq<slot>, s: slot)
    requires At(p, calls) && DirectStart(calls, i)
    ensures Grew(p.blocks[s], BlockStart(p, i, time, bytes).blocks[s], 0, 0, 0)
    ensures s in calls ==> BlockStart(p, i, time, bytes).blocks[s].startRdtsc == p.blocks[s].startRdtsc
    ensures i !in calls ==> BlockStart(p, i, time, bytes).blocks[i].startRdtsc == time
  {
    CollapseFacts(calls, i);
    CollapseFacts(calls, s);
  }

  /** At the END of a call, the counter says whether an outer call is open and the parent is the caller. */
  lemma EndOf(p: Profile, i: slot, calls: seq<slot>)
    requires At(p, calls + [i]) && DirectStart(calls, i)
    ensures p.blocks[i].recursiveCount == 0 <==> i !in calls
    ensures i !in calls ==> p.blocks[i].parentIndex == Top(calls)
  {
    CollapseFacts(calls, i);
    PushFacts(calls, i, i);
    assert Expected(p, calls + [i], i);
    if i !in calls {
      var frames := Collapse(calls);
      assert p.blocks[i].parentIndex == Below(frames + [i], |frames|);
    }
  }

  /** `b` after `total` was charged to it as child time. */
  function ChargedWith(b: Block, total: ticks): Block {
    b.(childrenTicks := U64(b.childrenTicks + total))
  }

  /** Which block an END changes, and how. */
  lemma EndBlocks(p: Profile, i: slot, time: ticks, calls: seq<slot>, s: slot)
    requires At(p, calls + [i]) && DirectStart(calls, i)
    ensures var b, c := p.blocks[s], BlockEnd(p, i, time).blocks[s];
            if i in calls then c == if s == i then b.(recursiveCount := b.recursiveCount - 1) else b
            else if s == i then c == Closed(b, time)
            else if Top(calls) == s then c == ChargedWith(b, Closed(p.blocks[i], time).totalTicks)
            else c == b
  {
    EndOf(p, i, calls);
  }

  lemma ClosedGrew(b: Block, time: ticks)
    ensures Grew(b, Closed(b, time), time - b.startRdtsc, 1, 0)
    ensures Closed(b, time).totalTicks == U64(b.totalTicks + (time - b.startRdtsc))
  {
  }

  lemma ChargeGrew(b: Block, total: int)
    ensures Grew(b, ChargedWith(b, U64(total)), 0, 0, total)
  {
  }

  lemma UnchangedGrew(b: Block, count: int)
    ensures Grew(b, b, 0, 0, 0) && Grew(b, b.(recursiveCount := count), 0, 0, 0)
  {
  }

  /** The END of a call adds to its own total and to its parent's child time, at the outermost activation only. */
  lemma EndEffect(p: Profile, i: slot, time: ticks, calls: seq<slot>, s: slot)
    requires At(p, calls + [i]) && DirectStart(calls, i)
    ensures var outer, spent := i !in calls, time - p.blocks[i].startRdtsc;
            Grew(p.blocks[s], BlockEnd(p, i, time).blocks[s],
                 if outer && s == i then spent else 0, if outer && s == i then 1 else 0,
                 if outer && Top(calls) == s then p.blocks[i].totalTicks + spent else 0)
    ensures s in calls ==> BlockEnd(p, i, time).blocks[s].startRdtsc == p.blocks[s].startRdtsc
  {
    var b := p.blocks[s];
    EndBlocks(p, i, time, calls, s);
    if i !in calls && s == i {
      ClosedGrew(b, time);
    } else if i !in calls && Top(calls) == s {
      ClosedGrew(p.blocks[i], time);
      ChargeGrew(b, p.blocks[i].totalTicks + (time - p.blocks[i].startRdtsc));
    } else {
      UnchangedGrew(b, b.recursiveCount - 1);
    }
  }

  lemma GrewModulo(b: Block, c: Block, t: int, e: int, k: int, spent: int)
    requires Grew(b, c, t, e, U64(k) + spent)
    ensures Grew(b, c, t, e, k + spent)
  {
  }

  lemma {:induction false} OpenNotOuter(f: Forest, calls: seq<slot>, s: slot)
    requires s in calls
    ensures Outer(f, calls, s) == 0 && Entries(f, calls, s) == 0
  {
    if f.Nil? {
    } else {
      OpenNotOuter(f.inner, calls + [f.slot], s);
      OpenNotOuter(f.rest, calls, s);
    }
  }

  /** When a call ends, its block still holds the time it was entered, and the total it had then. */
  lemma StillOpen(p: Profile, q: Profile, f: Forest, calls: seq<slot>, totals: slot -> int)
    requires f.Call? && At(p, calls) && DirectStart(calls, f.slot) && f.slot !in calls && Agree(p, totals) && Indexed(q)
    requires Effect(BlockStart(p, f.slot, f.enter, f.bytes), q, f.inner, calls + [f.slot], totals, f.slot)
    ensures q.blocks[f.slot].totalTicks == U64(totals(f.slot)) && q.blocks[f.slot].startRdtsc == f.enter
  {
    StartEffect(p, f.slot, f.enter, f.bytes, calls, f.slot);
    OpenNotOuter(f.inner, calls + [f.slot], f.slot);
  }

  /** What the END of call `f` adds, in terms of the totals before the call. */
  lemma EndOfCall(q: Profile, f: Forest, calls: seq<slot>, totals: slot -> int, s: slot)
    requires f.Call? && At(q, calls + [f.slot]) && DirectStart(calls, f.slot)
    requires f.slot !in calls ==>
               q.blocks[f.slot].totalTicks == U64(totals(f.slot)) && q.blocks[f.slot].startRdtsc == f.enter
    ensures var outer, spent := f.slot !in calls, f.leave - f.enter;
            Grew(q.blocks[s], BlockEnd(q, f.slot, f.leave).blocks[s],
                 if outer && s == f.slot then spent else 0, if outer && s == f.slot then 1 else 0,
                 if ChildOf(f, calls, s) then totals(f.slot) + spent else 0)
  {
    var i, spent := f.slot, f.leave - f.enter;
    EndEffect(q, i, f.leave, calls, s);
    if ChildOf(f, calls, s) {
      GrewModulo(q.blocks[s], BlockEnd(q, i, f.leave).blocks[s], 0, 0, totals(i), spent);
    }
  }

  lemma AloneSums(f: Forest, calls: seq<slot>, totals: slot -> int, s: slot)
    requires f.Call?
    ensures var outer, spent, mine := f.slot !in calls, f.leave - f.enter, calls + [f.slot];
            && Outer(Alone(f), calls, s) == Outer(f.inner, mine, s) + (if outer && s == f.slot then spent else 0)
            && Entries(Alone(f), calls, s) == Entries(f.inner, mine, s) + (if outer && s == f.slot then 1 else 0)
            && Charged(Alone(f), calls, s, totals)
               == Charged(f.inner, mine, s, totals) + (if ChildOf(f, calls, s) then totals(f.slot) + spent else 0)
  {
  }

  lemma CallSums(b: Block, r: Block, q: Block, w: Block, f: Forest, calls: seq<slot>, totals: slot -> int, s: slot)
    requires f.Call? && Grew(b, r, 0, 0, 0)
    requires var mine := calls + [f.slot];
             Grew(r, q, Outer(f.inner, mine, s), Entries(f.inner, mine, s), Charged(f.inner, mine, s, totals))
    requires var outer, spent := f.slot !in calls, f.leave - f.enter;
             Grew(q, w, if outer && s == f.slot then spent else 0, if outer && s == f.slot then 1 else 0,
                  if ChildOf(f, calls, s) then totals(f.slot) + spent else 0)
    ensures Grew(b, w, Outer(Alone(f), calls, s), Entries(Alone(f), calls, s), Charged(Alone(f), calls, s, totals))
  {
    var mine, outer, spent := calls + [f.slot], f.slot !in calls, f.leave - f.enter;
    AloneSums(f, calls, totals, s);
    var t, e, k := Outer(f.inner, mine, s), Entries(f.inner, mine, s), Charged(f.inner, mine, s, totals);
    GrewTwice(b, r, q, 0, 0, 0, t, e, k);
    GrewTwice(b, q, w, t, e, k, if outer && s == f.slot then spent else 0, if outer && s == f.slot then 1 else 0,
              if ChildOf(f, calls, s) then totals(f.slot) + spent else 0);
  }

  /** Across a call a block grows by what the calls inside it add and by what the END adds. */
  lemma CallGrew(p: Profile, q: Profile, f: Forest, calls: seq<slot>, totals: slot -> int, s: slot)
    requires f.Call? && At(p, calls) && At(q, calls + [f.slot]) && DirectStart(calls, f.slot)
    requires var r := BlockStart(p, f.slot, f.enter, f.bytes); Effect(r, q, f.inner, calls + [f.slot], totals, s)
    requires f.slot !in calls ==>
               q.blocks[f.slot].totalTicks == U64(totals(f.slot)) && q.blocks[f.slot].startRdtsc == f.enter
    ensures Grew(p.blocks[s], BlockEnd(q, f.slot, f.leave).blocks[s], Outer(Alone(f), calls, s),
                 Entries(Alone(f), calls, s), Charged(Alone(f), calls, s, totals))
  {
    StartEffect(p, f.slot, f.enter, f.bytes, calls, s);
    EndOfCall(q, f, calls, totals, s);
    CallSums(p.blocks[s], BlockStart(p, f.slot, f.enter, f.bytes).blocks[s], q.blocks[s],
             BlockEnd(q, f.slot, f.leave).blocks[s], f, calls, totals, s);
  }

  /** One call: its START, the calls inside it and its END. */
  lemma CallEffect(p: Profile, q: Profile, f: Forest, calls: seq<slot>, totals: slot -> int, s: slot)
    requires f.Call? && At(p, calls) && DirectStart(calls, f.slot) && Agree(p, totals)
    requires At(q, calls + [f.slot])
    requires var r := BlockStart(p, f.slot, f.enter, f.bytes);
             && Effect(r, q, f.inner, calls + [f.slot], totals, s)
             && Effect(r, q, f.inner, calls + [f.slot], totals, f.slot)
    ensures Effect(p, BlockEnd(q, f.slot, f.leave), Alone(f), calls, totals, s)
  {
    if f.slot !in calls {
      StillOpen(p, q, f, calls, totals);
    }
    CallGrew(p, q, f, calls, totals, s);
    StartEffect(p, f.slot, f.enter, f.bytes, calls, s);
    EndEffect(q, f.slot, f.leave, calls, s);
  }

  predicate WholeEffect(p: Profile, q: Profile, f: Forest, calls: seq<slot>, totals: slot -> int)
    requires Indexed(p) && Indexed(q)
  {
    forall s: slot {:trigger Effect(p, q, f, calls, totals, s)} :: Effect(p, q, f, calls, totals, s)
  }

  lemma GrewFrom(b: Block, c: Block, before: int, t: int, e: int, k: int)
    requires b.totalTicks == U64(before) && Grew(b, c, t, e, k)
    ensures c.totalTicks == U64(before + t)
  {
  }

  lemma AgreeAfter(p: Profile, q: Profile, f: Forest, calls: seq<slot>, totals: slot -> int)
    requires Indexed(p) && Indexed(q) && Agree(p, totals) && WholeEffect(p, q, f, calls, totals)
    ensures Agree(q, After(f, calls, totals))
  {
    forall s: slot
      ensures q.blocks[s].totalTicks == U64(After(f, calls, totals)(s))
    {
      assert Effect(p, q, f, calls, totals, s);
      GrewFrom(p.blocks[s], q.blocks[s], totals(s), Outer(f, calls, s), Entries(f, calls, s),
               Charged(f, calls, s, totals));
    }
  }

  /** A call and then the calls after it. */
  lemma ThenEffect(p: Profile, q: Profile, r: Profile, f: Forest, calls: seq<slot>, totals: slot -> int, s: slot)
    requires f.Call? && Indexed(p) && Indexed(q) && Indexed(r)
    requires Effect(p, q, Alone(f), calls, totals, s)
    requires Effect(q, r, f.rest, calls, After(Alone(f), calls, totals), s)
    ensures Effect(p, r, f, calls, totals, s)
  {
    var t, e, k := Outer(Alone(f), calls, s), Entries(Alone(f), calls, s), Charged(Alone(f), calls, s, totals);
    AloneSums(f, calls, totals, s);
    GrewTwice(p.blocks[s], q.blocks[s], r.blocks[s], t, e, k, Outer(f.rest, calls, s), Entries(f.rest, calls, s),
              Charged(f.rest, calls, s, After(Alone(f), calls, totals)));
  }

  lemma EventsInOrder(p: Profile, f: Forest)
    requires Indexed(p) && f.Call?
    ensures var r := ApplyAll(BlockStart(p, f.slot, f.enter, f.bytes), Events(f.inner));
            ApplyAll(p, Events(f)) == ApplyAll(BlockEnd(r, f.slot, f.leave), Events(f.rest))
  {
    var start, end := [Start(f.slot, f.enter, f.bytes)], [End(f.slot, f.leave)];
    var s := BlockStart(p, f.slot, f.enter, f.bytes);
    var r := ApplyAll(s, Events(f.inner));
    assert ApplyAll(p, start) == s;
    assert ApplyAll(r, end) == BlockEnd(r, f.slot, f.leave);
    ApplyConcat(p, start + Events(f.inner) + end, Events(f.rest));
    ApplyConcat(p, start + Events(f.inner), end);
    ApplyConcat(p, start, Events(f.inner));
  }

  lemma CallWhole(p: Profile, q: Profile, f: Forest, calls: seq<slot>, totals: slot -> int)
    requires f.Call? && At(p, calls) && DirectStart(calls, f.slot) && Agree(p, totals)
    requires At(q, calls + [f.slot])
    requires WholeEffect(BlockStart(p, f.slot, f.enter, f.bytes), q, f.inner, calls + [f.slot], totals)
    ensures WholeEffect(p, BlockEnd(q, f.slot, f.leave), Alone(f), calls, totals)
  {
    var r := BlockStart(p, f.slot, f.enter, f.bytes);
    assert Effect(r, q, f.inner, calls + [f.slot], totals, f.slot);
    forall s: slot
      ensures Effect(p, BlockEnd(q, f.slot, f.leave), Alone(f), calls, totals, s)
    {
      assert Effect(r, q, f.inner, calls + [f.slot], totals, s);
      CallEffect(p, q, f, calls, totals, s);
    }
  }

  /** On every trace in which blocks are re-entered only directly, and whatever the clock says, each block's total,
      count and child time grow by exactly the sums over the calls, modulo 2^64, and the stack is as before. */
  lemma {:induction false} ForestEffect(p: Profile, f: Forest, calls: seq<slot>, totals: slot -> int)
    requires At(p, calls) && Admissible(f, calls) && Agree(p, totals)
    ensures var q := ApplyAll(p, Events(f)); At(q, calls) && WholeEffect(p, q, f, calls, totals)
    decreases f
  {
    if f.Nil? {
    } else {
      var i, mine := f.slot, calls + [f.slot];
      var r := BlockStart(p, i, f.enter, f.bytes);
      StartKeeps(p, calls, i, f.enter, f.bytes);
      forall s: slot
        ensures r.blocks[s].totalTicks == U64(totals(s))
      {
        StartEffect(p, i, f.enter, f.bytes, calls, s);
      }
      ForestEffect(r, f.inner, mine, totals);
      var q := ApplyAll(r, Events(f.inner));
      var w := BlockEnd(q, i, f.leave);
      EndKeeps(q, calls, i, f.leave);
      CallWhole(p, q, f, calls, totals);
      AgreeAfter(p, w, Alone(f), calls, totals);
      ForestEffect(w, f.rest, calls, After(Alone(f), calls, totals));
      EventsInOrder(p, f);
      var z := ApplyAll(p, Events(f));
      forall s: slot
        ensures Effect(p, z, f, calls, totals, s)
      {
        ThenEffect(p, w, z, f, calls, totals, s);
      }
    }
  }

  // ----- on a monotone clock -----

  lemma {:induction false} OuterWithin(f: Forest, calls: seq<slot>, s: slot, lo: int, hi: int)
    requires Timed(f, lo, hi)
    ensures 0 <= Outer(f, calls, s) <= hi - lo
    decreases f
  {
    if f.Nil? {
    } else {
      OuterWithin(f.inner, calls + [f.slot], s, f.enter, f.leave);
      OuterWithin(f.rest, calls, s, f.leave, hi);
      if f.slot == s {
        OpenNotOuter(f.inner, calls + [f.slot], s);
      }
    }
  }

  function Zero(): slot -> int {
    (s: slot) => 0
  }

  lemma FromInitial(f: Forest, s: slot)
    requires Admissible(f, [])
    ensures Effect(INITIAL, ApplyAll(INITIAL, Events(f)), f, [], Zero(), s)
    ensures ApplyAll(INITIAL, Events(f)).index == -1
  {
    forall i: slot
      ensures Expected(INITIAL, [], i)
    {
    }
    ForestEffect(INITIAL, f, [], Zero());
  }

  /** From a zeroed profile the totals and counts are exact: nothing wraps. */
  lemma TotalsAreExact(f: Forest, lo: ticks, hi: ticks, s: slot)
    requires Admissible(f, []) && Timed(f, lo, hi) && Entries(f, [], s) < TICK_RANGE
    ensures var b := ApplyAll(INITIAL, Events(f)).blocks[s];
            b.totalTicks == Outer(f, [], s) && b.count == Entries(f, [], s)
  {
    FromInitial(f, s);
    OuterWithin(f, [], s, lo, hi);
  }

  /** The child time fits in the time of the block: in its outermost activations if it is not open yet, in the whole
      interval if it is the innermost open block; a block with another block open inside it gets none. */
  lemma {:induction false} ChildTimeWithin(f: Forest, calls: seq<slot>, s: slot, lo: int, hi: int)
    requires Admissible(f, calls) && Timed(f, lo, hi)
    ensures 0 <= ChildTime(f, calls, s)
    ensures s !in calls ==> ChildTime(f, calls, s) <= Outer(f, calls, s)
    ensures Top(calls) == s ==> ChildTime(f, calls, s) <= hi - lo
    ensures s in calls && Top(calls) != s ==> ChildTime(f, calls, s) == 0
    decreases f
  {
    if f.Nil? {
    } else {
      var mine := calls + [f.slot];
      assert Top(mine) == f.slot && (s in mine <==> s in calls || s == f.slot);
      ChildTimeWithin(f.inner, mine, s, f.enter, f.leave);
      ChildTimeWithin(f.rest, calls, s, f.leave, hi);
      OuterWithin(f.inner, mine, s, f.enter, f.leave);
    }
  }

  /** The blocks with an outermost activation that took any time. */
  function Ran(f: Forest, calls: seq<slot>): set<slot> {
    if f.Nil? then {}
    else
      (if f.slot !in calls && f.leave > f.enter then {f.slot} else {})
      + Ran(f.inner, calls + [f.slot]) + Ran(f.rest, calls)
  }

  /** Some call made directly from `s` enters a block that already has ticks; `seen` are the blocks that have. */
  predicate Repeats(f: Forest, calls: seq<slot>, s: slot, seen: set<slot>) {
    f.Call? &&
    ((ChildOf(f, calls, s) && f.slot in seen)
     || Repeats(f.inner, calls + [f.slot], s, seen)
     || Repeats(f.rest, calls, s, seen + Ran(Alone(f), calls)))
  }

  lemma {:induction false} RanIffOuter(f: Forest, calls: seq<slot>, s: slot, lo: int, hi: int)
    requires Timed(f, lo, hi)
    ensures s in Ran(f, calls) <==> Outer(f, calls, s) > 0
    decreases f
  {
    if f.Nil? {
    } else {
      RanIffOuter(f.inner, calls + [f.slot], s, f.enter, f.leave);
      RanIffOuter(f.rest, calls, s, f.leave, hi);
      OuterWithin(f.inner, calls + [f.slot], s, f.enter, f.leave);
      OuterWithin(f.rest, calls, s, f.leave, hi);
    }
  }

  /** `seen` are the blocks with a nonzero total. */
  predicate Seen(seen: set<slot>, totals: slot -> int) {
    forall s: slot :: totals(s) >= 0 && (s in seen <==> totals(s) > 0)
  }

  lemma SeenAfter(f: Forest, calls: seq<slot>, seen: set<slot>, totals: slot -> int, lo: int, hi: int)
    requires Timed(f, lo, hi) && Seen(seen, totals)
    ensures Seen(seen + Ran(f, calls), After(f, calls, totals))
  {
    forall s: slot
      ensures After(f, calls, totals)(s) >= 0
      ensures s in seen + Ran(f, calls) <==> After(f, calls, totals)(s) > 0
    {
      RanIffOuter(f, calls, s, lo, hi);
      OuterWithin(f, calls, s, lo, hi);
    }
  }

  /** What is charged is at least the true child time, and exactly that unless a child runs again. */
  lemma {:induction false} ChargedVersusChildTime(f: Forest, calls: seq<slot>, s: slot, totals: slot -> int,
                                                  seen: set<slot>, lo: int, hi: int)
    requires Timed(f, lo, hi) && Seen(seen, totals)
    ensures Charged(f, calls, s, totals) >= ChildTime(f, calls, s)
    ensures Charged(f, calls, s, totals) == ChildTime(f, calls, s) <==> !Repeats(f, calls, s, seen)
    decreases f
  {
    if f.Nil? {
    } else {
      ChargedVersusChildTime(f.inner, calls + [f.slot], s, totals, seen, f.enter, f.leave);
      SeenAfter(Alone(f), calls, seen, totals, lo, f.leave);
      ChargedVersusChildTime(f.rest, calls, s, After(Alone(f), calls, totals), seen + Ran(Alone(f), calls),
                             f.leave, hi);
    }
  }

  /** On a monotone clock, from a zeroed profile: a block's child time is exactly the time spent in its direct
      children if and only if no call made from it enters a block that ran before; then it is at most the block's own
      total. Otherwise it is too large. (A sum of running totals that exceeds the counter can only wrap when a block
      runs again.) */
  lemma ChildrenAreExact(f: Forest, lo: ticks, hi: ticks, s: slot)
    requires Admissible(f, []) && Timed(f, lo, hi)
    ensures var b := ApplyAll(INITIAL, Events(f)).blocks[s];
            && (!Repeats(f, [], s, {}) ==> b.childrenTicks == ChildTime(f, [], s) <= b.totalTicks)
            && (Repeats(f, [], s, {}) && Charged(f, [], s, Zero()) < TICK_RANGE
                ==> b.childrenTicks > ChildTime(f, [], s))
  {
    FromInitial(f, s);
    OuterWithin(f, [], s, lo, hi);
    ChildTimeWithin(f, [], s, lo, hi);
    ChargedVersusChildTime(f, [], s, Zero(), {}, lo, hi);
  }

  // ----- a child called twice -----

  const SECOND := Call(1, 111, 121, 0, Nil, Nil)
  const BOTH := Call(1, 101, 111, 0, Nil, SECOND)
  const CALLER := Call(0, 100, 122, 0, BOTH, Nil)

  lemma NoCalls(calls: seq<slot>, s: slot, totals: slot -> int)
    ensures Outer(Nil, calls, s) == 0 && ChildTime(Nil, calls, s) == 0 && Charged(Nil, calls, s, totals) == 0
    ensures Admissible(Nil, calls)
  {
  }

  /** One call of block 1 from block 0 without calls of its own. */
  lemma LeafCall(f: Forest, totals: slot -> int)
    requires f.Call? && f.slot == 1 && f.inner == Nil && f.rest == Nil
    ensures var spent := f.leave - f.enter;
            && Outer(f, [0], 0) == 0 && Outer(f, [0], 1) == spent && ChildTime(f, [0], 0) == spent
            && Charged(f, [0], 0, totals) == totals(1) + spent && Admissible(f, [0])
  {
    NoCalls([0] + [1], 0, totals);
    NoCalls([0] + [1], 1, totals);
    NoCalls([0], 0, After(Alone(f), [0], totals));
    NoCalls([0], 1, totals);
  }

  lemma BothCalls()
    ensures Outer(BOTH, [0], 0) == 0 && ChildTime(BOTH, [0], 0) == 20 && Charged(BOTH, [0], 0, Zero()) == 30
    ensures Admissible(BOTH, [0])
  {
    var first := Alone(BOTH);
    var totals := After(first, [0], Zero());
    LeafCall(first, Zero());
    LeafCall(SECOND, totals);
    assert totals(1) == 10;
    NoCalls([0] + [1], 0, Zero());
  }

  lemma CallerSums()
    ensures Outer(CALLER, [], 0) == 22 && ChildTime(CALLER, [], 0) == 20 && Charged(CALLER, [], 0, Zero()) == 30
    ensures Admissible(CALLER, [])
  {
    var none: seq<slot> := [];
    assert none + [0] == [0];
    BothCalls();
    NoCalls([], 0, After(Alone(CALLER), [], Zero()));
  }

  /** A child called twice is charged its first run twice: here the child time exceeds the caller's own total. */
  lemma RepeatedChildIsOvercharged()
    ensures var b := ApplyAll(INITIAL, Events(CALLER)).blocks[0];
            ChildTime(CALLER, [], 0) == 20 && b.totalTicks == 22 && b.childrenTicks == 30
  {
    CallerSums();
    FromInitial(CALLER, 0);
  }
}
