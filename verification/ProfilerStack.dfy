/** The profiler's parent indices and recursion counters always spell the stack of open blocks, as long as a
    block is re-entered only directly; one indirect re-entry destroys the chain. */
module ProfilerStack {
  import opened Profiler

  // ----- the stack of open blocks, defined from the trace alone -----

  /** The open calls after a trace, outermost first; `Broken` when an END does not match the innermost START. */
  datatype Calls = Open(calls: seq<slot>) | Broken

  function OpenCalls(trace: seq<Event>): Calls
    decreases |trace|
  {
    if trace == [] then Open([])
    else
      var before := OpenCalls(trace[..|trace| - 1]);
      if before.Broken? then Broken
      else
        match trace[|trace| - 1]
        case Start(i, _, _) => Open(before.calls + [i])
        case End(i, _) =>
          var c := before.calls;
          if c != [] && c[|c| - 1] == i then Open(c[..|c| - 1]) else Broken
  }

  /** A START is direct when its block is not open, or is the innermost open block. */
  predicate DirectStart(calls: seq<slot>, i: slot) {
    i in calls ==> calls[|calls| - 1] == i
  }

  predicate DirectOnly(trace: seq<Event>)
    decreases |trace|
  {
    trace == [] ||
    (var before := trace[..|trace| - 1];
     DirectOnly(before)
     && (trace[|trace| - 1].Start? && OpenCalls(before).Open?
         ==> DirectStart(OpenCalls(before).calls, trace[|trace| - 1].slot)))
  }

  /** `frames` with `i` on top, unless it is on top already. */
  function Pushed(frames: seq<slot>, i: slot): seq<slot> {
    if frames != [] && frames[|frames| - 1] == i then frames else frames + [i]
  }

  /** Adjacent duplicates removed. */
  function Collapse(calls: seq<slot>): seq<slot> {
    if calls == [] then [] else Pushed(Collapse(calls[..|calls| - 1]), calls[|calls| - 1])
  }

  function Multiplicity(calls: seq<slot>, i: slot): nat {
    if calls == [] then 0
    else Multiplicity(calls[..|calls| - 1], i) + if calls[|calls| - 1] == i then 1 else 0
  }

  // ----- the invariant -----

  predicate Distinct(s: seq<slot>) {
    forall j, k :: 0 <= j < k < |s| ==> s[j] != s[k]
  }

  /** The index below position `k` of a stack. */
  function Below(frames: seq<slot>, k: int): int
    requires 0 <= k <= |frames|
  {
    if k == 0 then -1 else frames[k - 1]
  }

  /** The profile's pointers spell `frames`. */
  predicate Spells(p: Profile, frames: seq<slot>) {
    && Indexed(p) && Distinct(frames)
    && p.index == Below(frames, |frames|)
    && forall k {:trigger Below(frames, k)} :: 0 <= k < |frames| ==> p.blocks[frames[k]].parentIndex == Below(frames, k)
  }

  /** The recursion counter of `i` is the number of its open calls beyond the first. */
  predicate Expected(p: Profile, calls: seq<slot>, i: slot)
    requires Indexed(p)
  {
    p.blocks[i].recursiveCount == if Multiplicity(calls, i) == 0 then 0 else Multiplicity(calls, i) - 1
  }

  predicate Counts(p: Profile, calls: seq<slot>) {
    Indexed(p) && forall i: slot :: Expected(p, calls, i)
  }

  lemma {:induction false} CollapseFacts(calls: seq<slot>, i: slot)
    ensures i in Collapse(calls) <==> i in calls
    ensures i in calls <==> Multiplicity(calls, i) > 0
    ensures calls == [] <==> Collapse(calls) == []
    ensures calls != [] ==> Collapse(calls)[|Collapse(calls)| - 1] == calls[|calls| - 1]
  {
    if calls == [] {
    } else {
      var init := calls[..|calls| - 1];
      CollapseFacts(init, i);
      assert calls == init + [calls[|calls| - 1]];
    }
  }

  lemma PushFacts(calls: seq<slot>, i: slot, j: slot)
    ensures Collapse(calls + [i]) == Pushed(Collapse(calls), i)
    ensures Multiplicity(calls + [i], j) == Multiplicity(calls, j) + if i == j then 1 else 0
  {
    assert (calls + [i])[..|calls|] == calls;
  }

  lemma DistinctAppend(frames: seq<slot>, i: slot)
    ensures Distinct(frames + [i]) <==> Distinct(frames) && i !in frames
  {
    var all := frames + [i];
    assert all[|frames|] == i;
    assert forall k :: 0 <= k < |frames| ==> all[k] == frames[k];
    if Distinct(all) {
      assert forall k :: 0 <= k < |frames| ==> all[k] != all[|frames|];
    }
  }

  /** A direct START keeps the chain. */
  lemma StartSpells(p: Profile, frames: seq<slot>, i: slot, time: ticks, bytes: ticks)
    requires Spells(p, frames) && DirectStart(frames, i)
    ensures Spells(BlockStart(p, i, time, bytes), Pushed(frames, i))
  {
    if i !in frames {
      var q := BlockStart(p, i, time, bytes);
      var after := frames + [i];
      DistinctAppend(frames, i);
      forall k | 0 <= k < |after|
        ensures q.blocks[after[k]].parentIndex == Below(after, k)
      {
        assert Below(after, k) == Below(frames, k);
      }
    }
  }

  /** The END of the innermost call undoes its START: it pops the block, unless an outer call of it is open. */
  lemma EndSpells(p: Profile, frames: seq<slot>, i: slot, time: ticks)
    requires Spells(p, Pushed(frames, i)) && DirectStart(frames, i)
    requires p.blocks[i].recursiveCount != 0 <==> i in frames
    ensures Spells(BlockEnd(p, i, time), frames)
  {
    var q := BlockEnd(p, i, time);
    if i !in frames {
      var all := frames + [i];
      DistinctAppend(frames, i);
      assert Below(all, |frames|) == Below(frames, |frames|);
      forall k | 0 <= k < |frames|
        ensures q.blocks[frames[k]].parentIndex == Below(frames, k)
      {
        assert Below(all, k) == Below(frames, k);
        assert all[k] == frames[k];
      }
    }
  }

  lemma IndexIsTop(p: Profile, calls: seq<slot>)
    requires Spells(p, Collapse(calls))
    ensures p.index == if calls == [] then -1 else calls[|calls| - 1]
  {
    if calls != [] {
      CollapseFacts(calls, calls[|calls| - 1]);
    }
  }

  lemma StartExpected(p: Profile, calls: seq<slot>, i: slot, time: ticks, bytes: ticks, j: slot)
    requires Indexed(p) && Expected(p, calls, i) && Expected(p, calls, j) && DirectStart(calls, i)
    requires p.index == if calls == [] then -1 else calls[|calls| - 1]
    ensures Expected(BlockStart(p, i, time, bytes), calls + [i], j)
  {
    PushFacts(calls, i, j);
    CollapseFacts(calls, i);
  }

  /** A direct START keeps the counters. */
  lemma StartCounts(p: Profile, calls: seq<slot>, i: slot, time: ticks, bytes: ticks)
    requires Spells(p, Collapse(calls)) && Counts(p, calls) && DirectStart(calls, i)
    ensures Counts(BlockStart(p, i, time, bytes), calls + [i])
  {
    IndexIsTop(p, calls);
    forall j: slot
      ensures Expected(BlockStart(p, i, time, bytes), calls + [i], j)
    {
      assert Expected(p, calls, i) && Expected(p, calls, j);
      StartExpected(p, calls, i, time, bytes, j);
    }
  }

  lemma EndCounts(p: Profile, calls: seq<slot>, i: slot, time: ticks)
    requires Counts(p, calls + [i])
    ensures Counts(BlockEnd(p, i, time), calls)
  {
    forall j: slot
      ensures Expected(BlockEnd(p, i, time), calls, j)
    {
      PushFacts(calls, i, j);
      assert Expected(p, calls + [i], j);
      assert Expected(p, calls + [i], i);
      PushFacts(calls, i, i);
    }
  }

  /** A direct START extends or keeps the chain and the counters. */
  lemma StartKeeps(p: Profile, calls: seq<slot>, i: slot, time: ticks, bytes: ticks)
    requires Spells(p, Collapse(calls)) && Counts(p, calls) && DirectStart(calls, i)
    ensures var q := BlockStart(p, i, time, bytes); Spells(q, Collapse(calls + [i])) && Counts(q, calls + [i])
  {
    CollapseFacts(calls, i);
    PushFacts(calls, i, i);
    StartSpells(p, Collapse(calls), i, time, bytes);
    StartCounts(p, calls, i, time, bytes);
  }

  lemma EndKeeps(p: Profile, calls: seq<slot>, i: slot, time: ticks)
    requires Spells(p, Collapse(calls + [i])) && Counts(p, calls + [i]) && DirectStart(calls, i)
    ensures var q := BlockEnd(p, i, time); Spells(q, Collapse(calls)) && Counts(q, calls)
  {
    CollapseFacts(calls, i);
    PushFacts(calls, i, i);
    assert Expected(p, calls + [i], i);
    EndSpells(p, Collapse(calls), i, time);
    EndCounts(p, calls, i, time);
  }

  predicate AllDirect(calls: seq<slot>) {
    forall k :: 0 <= k < |calls| ==> DirectStart(calls[..k], calls[k])
  }

  lemma AllDirectPushPop(calls: seq<slot>, i: slot)
    requires AllDirect(calls)
    ensures DirectStart(calls, i) ==> AllDirect(calls + [i])
    ensures calls != [] ==> AllDirect(calls[..|calls| - 1])
  {
    var more := calls + [i];
    assert more[..|calls|] == calls;
    forall k | 0 <= k < |calls|
      ensures DirectStart(more[..k], more[k])
    {
      assert more[..k] == calls[..k];
    }
    if calls != [] {
      var less := calls[..|calls| - 1];
      forall k | 0 <= k < |less|
        ensures DirectStart(less[..k], less[k])
      {
        assert less[..k] == calls[..k];
      }
    }
  }

  /** Every open call of a direct-only trace was a direct START. */
  lemma {:induction false} OpenCallsAreDirect(trace: seq<Event>)
    requires OpenCalls(trace).Open? && DirectOnly(trace)
    ensures AllDirect(OpenCalls(trace).calls)
    decreases |trace|
  {
    if trace == [] {
    } else {
      var before := trace[..|trace| - 1];
      OpenCallsAreDirect(before);
      AllDirectPushPop(OpenCalls(before).calls, trace[|trace| - 1].slot);
    }
  }

  lemma {:induction false} ApplyLast(p: Profile, trace: seq<Event>)
    requires Indexed(p) && trace != []
    ensures ApplyAll(p, trace) == Apply(ApplyAll(p, trace[..|trace| - 1]), trace[|trace| - 1])
  {
    var init, last := trace[..|trace| - 1], trace[|trace| - 1];
    assert trace == init + [last];
    ApplyConcat(p, init, [last]);
    assert ApplyAll(ApplyAll(p, init), [last]) == Apply(ApplyAll(p, init), last);
  }

  /** One event keeps the invariant. */
  lemma EventKeeps(p: Profile, calls: seq<slot>, e: Event)
    requires Spells(p, Collapse(calls)) && Counts(p, calls) && AllDirect(calls)
    requires if e.Start? then DirectStart(calls, e.slot) else calls != [] && calls[|calls| - 1] == e.slot
    ensures var after := if e.Start? then calls + [e.slot] else calls[..|calls| - 1];
            Spells(Apply(p, e), Collapse(after)) && Counts(Apply(p, e), after)
  {
    if e.Start? {
      StartKeeps(p, calls, e.slot, e.time, e.bytes);
    } else {
      var d := calls[..|calls| - 1];
      assert calls == d + [e.slot];
      assert DirectStart(calls[..|d|], calls[|d|]);
      EndKeeps(p, d, e.slot, e.time);
    }
  }

  lemma InitialSpells()
    ensures Spells(INITIAL, Collapse([])) && Counts(INITIAL, [])
  {
  }

  /** At every point of a well-bracketed trace in which blocks are re-entered only directly, the parent chain from
      the profile index is the stack of open calls with adjacent duplicates collapsed, and each recursion counter
      is the multiplicity of its block minus one. */
  lemma {:induction false} StackInvariant(trace: seq<Event>)
    requires OpenCalls(trace).Open? && DirectOnly(trace)
    ensures var p := ApplyAll(INITIAL, trace);
            Spells(p, Collapse(OpenCalls(trace).calls)) && Counts(p, OpenCalls(trace).calls)
    decreases |trace|
  {
    if trace == [] {
      InitialSpells();
    } else {
      var before := trace[..|trace| - 1];
      StackInvariant(before);
      ApplyLast(INITIAL, trace);
      OpenCallsAreDirect(before);
      EventKeeps(ApplyAll(INITIAL, before), OpenCalls(before).calls, trace[|trace| - 1]);
    }
  }

  /** A balanced trace leaves no block open: the index is -1 again and every recursion counter is zero. */
  lemma BalancedReturns(trace: seq<Event>)
    requires OpenCalls(trace) == Open([]) && DirectOnly(trace)
    ensures ApplyAll(INITIAL, trace).index == -1
    ensures forall i: slot :: ApplyAll(INITIAL, trace).blocks[i].recursiveCount == 0
  {
    StackInvariant(trace);
    var p := ApplyAll(INITIAL, trace);
    forall i: slot
      ensures p.blocks[i].recursiveCount == 0
    {
      assert Expected(p, [], i);
    }
  }

  // ----- the chain itself -----

  /** Follows parent indices for at most `fuel` links; innermost block last. */
  function Chain(blocks: seq<Block>, index: int, fuel: nat): seq<int>
    requires |blocks| == SLOTS && -1 <= index < SLOTS
    requires forall i :: 0 <= i < SLOTS ==> -1 <= blocks[i].parentIndex < SLOTS
    decreases fuel
  {
    if fuel == 0 || index == -1 then [] else Chain(blocks, blocks[index].parentIndex, fuel - 1) + [index]
  }

  lemma {:induction false} ChainOfPrefix(p: Profile, frames: seq<slot>, k: nat, fuel: nat)
    requires Spells(p, frames) && k <= |frames| && fuel >= k
    ensures var c := Chain(p.blocks, Below(frames, k), fuel);
            |c| == k && forall j :: 0 <= j < k ==> c[j] == frames[j]
    decreases k
  {
    if k == 0 {
    } else {
      assert p.blocks[frames[k - 1]].parentIndex == Below(frames, k - 1);
      ChainOfPrefix(p, frames, k - 1, fuel - 1);
    }
  }

  /** Following parents from the profile index spells the stack and then ends at -1. */
  lemma ChainSpellsStack(p: Profile, frames: seq<slot>, fuel: nat)
    requires Spells(p, frames) && fuel >= |frames|
    ensures var c := Chain(p.blocks, p.index, fuel);
            |c| == |frames| && forall j :: 0 <= j < |c| ==> c[j] == frames[j]
  {
    ChainOfPrefix(p, frames, |frames|, fuel);
  }

  // ----- indirect re-entry -----

  /** `q` differs from `p` in that block `i` now hangs below the innermost block of `p`. */
  predicate Rehung(p: Profile, q: Profile, i: slot) {
    Indexed(p) && Indexed(q) && q.index == i && q.blocks[i].parentIndex == p.index
    && forall j: slot :: j != i ==> q.blocks[j].parentIndex == p.blocks[j].parentIndex
  }

  lemma {:induction false} CycleForcesFrames(p: Profile, q: Profile, frames: seq<slot>, i: slot,
                                             after: seq<slot>, d: nat)
    requires Spells(p, frames) && Spells(q, after) && Rehung(p, q, i)
    requires d < |frames| && i !in frames[|frames| - d..]
    ensures |after| >= d + 2 && after[|after| - 2 - d] == frames[|frames| - 1 - d]
    decreases d
  {
    if d == 0 {
      assert after != [] && after[|after| - 1] == i;
      assert p.index == Below(after, |after| - 1);
    } else {
      var prev := frames[|frames| - d];
      assert frames[|frames| - d..][0] == prev;
      assert frames[|frames| - (d - 1)..] == frames[|frames| - d..][1..];
      CycleForcesFrames(p, q, frames, i, after, d - 1);
      assert after[|after| - 1 - d] == prev;
      assert Below(frames, |frames| - d) == frames[|frames| - d - 1];
      assert q.blocks[prev].parentIndex == Below(after, |after| - 1 - d);
    }
  }

  /** How far from the top the last occurrence of `i` is. */
  function LastDistance(frames: seq<slot>, i: slot): (d: nat)
    requires i in frames
    ensures d < |frames| && frames[|frames| - 1 - d] == i && i !in frames[|frames| - d..]
  {
    if frames[|frames| - 1] == i then 0
    else
      var init := frames[..|frames| - 1];
      assert frames == init + [frames[|frames| - 1]];
      var d := LastDistance(init, i) + 1;
      assert frames[|frames| - d..] == init[|init| - (d - 1)..] + [frames[|frames| - 1]];
      d
  }

  lemma CycleSpellsNothing(p: Profile, q: Profile, frames: seq<slot>, i: slot, after: seq<slot>)
    requires Spells(p, frames) && Rehung(p, q, i) && i in frames
    ensures !Spells(q, after)
  {
    if Spells(q, after) {
      var d := LastDistance(frames, i);
      CycleForcesFrames(p, q, frames, i, after, d);
      assert false;
    }
  }

  /** A START keeps the pointers a stack exactly when it is direct: re-entering an open block that is not the
      innermost one leaves a cycle of parents that spells no stack at all. */
  lemma StartSpellsIffDirect(p: Profile, frames: seq<slot>, i: slot, time: ticks, bytes: ticks)
    requires Spells(p, frames)
    ensures (exists after :: Spells(BlockStart(p, i, time, bytes), after)) <==> DirectStart(frames, i)
  {
    var q := BlockStart(p, i, time, bytes);
    if DirectStart(frames, i) {
      StartSpells(p, frames, i, time, bytes);
      assert Spells(q, Pushed(frames, i));
    } else {
      assert p.index == frames[|frames| - 1] != i;
      assert Rehung(p, q, i);
      forall after
        ensures !Spells(q, after)
      {
        if Spells(q, after) {
          CycleSpellsNothing(p, q, frames, i, after);
        }
      }
    }
  }

  /** Indirect recursion is not supported: after A(B(A)), a balanced trace, the index is still at B, and A has
      been charged all the ticks since the counter was zero. */
  lemma IndirectRecursionMisreports(b: ticks)
    ensures var p1 := BlockStart(INITIAL, 0, 100, b);
            var p2 := BlockStart(p1, 1, 101, b);
            var p3 := BlockStart(p2, 0, 102, b);
            var p4 := BlockEnd(p3, 0, 103);
            var p5 := BlockEnd(p4, 1, 104);
            var p6 := BlockEnd(p5, 0, 105);
            p6.index == 1 && p6.blocks[0].totalTicks == 1 + 105
  {
    var p3 := BlockStart(BlockStart(BlockStart(INITIAL, 0, 100, b), 1, 101, b), 0, 102, b);
    assert p3.blocks[0].parentIndex == 1 && p3.blocks[1].parentIndex == 0 && p3.blocks[0].startRdtsc == 102;
    assert p3.blocks[0].totalTicks == 0 && p3.blocks[0].recursiveCount == 0 && p3.blocks[1].recursiveCount == 0;
    var p4 := BlockEnd(p3, 0, 103);
    assert p4.blocks[0].totalTicks == 1 && p4.blocks[0].startRdtsc == 0 && p4.blocks[0].parentIndex == 1;
    assert p4.blocks[1].parentIndex == 0 && p4.blocks[1].recursiveCount == 0 && p4.blocks[0].recursiveCount == 0;
    var p5 := BlockEnd(p4, 1, 104);
    assert p5.blocks[0].totalTicks == 1 && p5.blocks[0].startRdtsc == 0 && p5.blocks[0].parentIndex == 1;
  }
}
