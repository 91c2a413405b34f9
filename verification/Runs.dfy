/** Runs of a machine given by a step function. */
module Runs {
  datatype Fault = NoFault | BadOpcode | Unsupported | OutsideMemory

  /** `Failed` is the fatal error exit; its machine state is not observable. */
  datatype Outcome<+S> = Running(st: S) | Exited(st: S) | Failed(fault: Fault)

  function Run<S>(step: S -> Outcome<S>, st: S, steps: nat): Outcome<S>
    decreases steps
  {
    if steps == 0 then Running(st)
    else
      var o := step(st);
      if o.Running? then Run(step, o.st, steps - 1) else o
  }

  /** Runs compose. */
  lemma {:induction false} RunAdds<S>(step: S -> Outcome<S>, st: S, a: nat, b: nat)
    requires Run(step, st, a).Running?
    ensures Run(step, st, a + b) == Run(step, Run(step, st, a).st, b)
    decreases a
  {
    if a == 0 {
    } else {
      RunAdds(step, step(st).st, a - 1, b);
    }
  }

  /** A run that has stopped stays stopped. */
  lemma {:induction false} RunStops<S>(step: S -> Outcome<S>, st: S, a: nat, b: nat)
    requires !Run(step, st, a).Running?
    ensures Run(step, st, a + b) == Run(step, st, a)
    decreases a
  {
    if step(st).Running? {
      RunStops(step, step(st).st, a - 1, b);
    }
  }

  /** Consecutive states of a running machine. */
  ghost predicate IsTrace<S>(step: S -> Outcome<S>, trace: seq<S>) {
    forall j :: 0 <= j < |trace| - 1 ==> step(trace[j]) == Running(trace[j + 1])
  }

  /** The trace of a run is the run. */
  lemma {:induction false} TraceIsRun<S>(step: S -> Outcome<S>, trace: seq<S>, more: nat)
    requires trace != [] && IsTrace(step, trace)
    ensures Run(step, trace[0], |trace| - 1 + more) == Run(step, trace[|trace| - 1], more)
    decreases |trace|
  {
    if |trace| == 1 {
    } else {
      var rest := trace[1..];
      forall j | 0 <= j < |rest| - 1
        ensures step(rest[j]) == Running(rest[j + 1])
      {
        assert rest[j] == trace[j + 1] && rest[j + 1] == trace[j + 2];
      }
      TraceIsRun(step, rest, more);
      assert step(trace[0]) == Running(trace[1]);
    }
  }

  /** A trace of a run that exits within `k` steps has at most `k` states, and its last state does not fail; when it is
      the last one of the run, the run exits there. */
  lemma TraceBeforeExit<S>(step: S -> Outcome<S>, trace: seq<S>, k: nat)
    requires trace != [] && IsTrace(step, trace) && Run(step, trace[0], k).Exited?
    ensures |trace| <= k
    ensures !step(trace[|trace| - 1]).Failed?
    ensures step(trace[|trace| - 1]).Exited? ==> step(trace[|trace| - 1]) == Run(step, trace[0], k)
  {
    var steps, last := |trace| - 1, trace[|trace| - 1];
    TraceIsRun(step, trace, 0);
    if k <= steps {
      RunStops(step, trace[0], k, steps - k);
    }
    TraceIsRun(step, trace, k - steps);
  }

  /** An invariant of every step holds in whatever state a run reaches. */
  lemma {:induction false} RunKeeps<S(!new)>(step: S -> Outcome<S>, inv: S -> bool, st: S, steps: nat)
    requires inv(st)
    requires forall s: S :: inv(s) && step(s).Running? ==> inv(step(s).st)
    requires forall s: S :: step(s).Exited? ==> step(s).st == s
    ensures !Run(step, st, steps).Failed? ==> inv(Run(step, st, steps).st)
    decreases steps
  {
    if steps > 0 && step(st).Running? {
      RunKeeps(step, inv, step(st).st, steps - 1);
    }
  }

  /** `ok` holds of every state a run of `steps` steps acts on. */
  ghost predicate AllAlong<S>(step: S -> Outcome<S>, ok: S -> bool, st: S, steps: nat)
    decreases steps
  {
    steps == 0 || (ok(st) && (step(st).Running? ==> AllAlong(step, ok, step(st).st, steps - 1)))
  }

  lemma {:induction false} AllAlongSplit<S>(step: S -> Outcome<S>, ok: S -> bool, st: S, a: nat, b: nat)
    requires AllAlong(step, ok, st, a + b)
    ensures AllAlong(step, ok, st, a)
    ensures Run(step, st, a).Running? ==> AllAlong(step, ok, Run(step, st, a).st, b)
    decreases a
  {
    if a > 0 && step(st).Running? {
      AllAlongSplit(step, ok, step(st).st, a - 1, b);
    }
  }

  /** Two machines that agree on the states of an invariant, which holds as long as `ok` does, run alike. */
  lemma {:induction false} RunsAgree<S(!new)>(f: S -> Outcome<S>, g: S -> Outcome<S>,
                                              ok: S -> bool, inv: S -> bool, st: S, steps: nat)
    requires inv(st) && AllAlong(f, ok, st, steps)
    requires forall s: S :: inv(s) ==> f(s) == g(s)
    requires forall s: S :: inv(s) && ok(s) && f(s).Running? ==> inv(f(s).st)
    ensures Run(f, st, steps) == Run(g, st, steps)
    decreases steps
  {
    if steps > 0 && f(st).Running? {
      RunsAgree(f, g, ok, inv, f(st).st, steps - 1);
    }
  }

  /** A counted loop: `pass` steps lead from a head state back to a head state with the counter down by one,
      or to a done state when the counter was one. */
  ghost predicate IsCountedLoop<S(!new)>(step: S -> Outcome<S>, ok: S -> bool, pass: nat,
                                         head: S -> bool, done: S -> bool, counter: S -> int) {
    forall s: S :: head(s) && AllAlong(step, ok, s, pass) ==>
      && Run(step, s, pass).Running?
      && var t := Run(step, s, pass).st;
         && counter(t) == (counter(s) - 1) % 0x1_0000
         && if counter(s) == 1 then done(t) else head(t)
  }

  /** Passes a 16-bit counter allows: 65536 when it starts at zero. */
  function Count(c: int): nat
    requires 0 <= c < 0x1_0000
  {
    if c == 0 then 0x1_0000 else c
  }

  lemma CounterOne(c: int, j: nat)
    requires 0 <= c < 0x1_0000 && 0 < j <= Count(c)
    ensures (c - (j - 1)) % 0x1_0000 == 1 <==> j == Count(c)
    ensures ((c - (j - 1)) % 0x1_0000 - 1) % 0x1_0000 == (c - j) % 0x1_0000
  {
  }

  /** Such a loop makes exactly `Count` passes. */
  lemma {:induction false} CountedLoop<S(!new)>(step: S -> Outcome<S>, ok: S -> bool, pass: nat,
                                                head: S -> bool, done: S -> bool, counter: S -> int, st: S, j: nat)
    requires IsCountedLoop(step, ok, pass, head, done, counter)
    requires head(st) && 0 <= counter(st) < 0x1_0000 && j <= Count(counter(st))
    requires AllAlong(step, ok, st, j * pass)
    ensures Run(step, st, j * pass).Running?
    ensures var t := Run(step, st, j * pass).st;
            && counter(t) == (counter(st) - j) % 0x1_0000
            && if j == Count(counter(st)) then done(t) else head(t)
    decreases j
  {
    if j == 0 {
    } else {
      var before := (j - 1) * pass;
      assert j * pass == before + pass;
      AllAlongSplit(step, ok, st, before, pass);
      CountedLoop(step, ok, pass, head, done, counter, st, j - 1);
      RunAdds(step, st, before, pass);
      var s := Run(step, st, before).st;
      CounterOne(counter(st), j);
    }
  }
}
