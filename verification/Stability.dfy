/** Code and data share one memory. When no step stores into the code, a run of the simulator is a run over
    the program as it was first decoded. */
module Stability {
  import opened Options
  import opened Words
  import opened Isa
  import opened Grammar
  import opened GrammarFacts
  import opened Runs
  import opened Machine

  // ----- where an instruction stores -----

  /** The memory cell an instruction writes, if it writes one. */
  function StoreTarget(st: Machine, i: Instr): Option<word>
    requires NamesRegisters(i)
  {
    if !i.Two? || !(i.op.Mov? || i.op.Add?) || !(i.src.Register? || i.src.Immediate?) then None
    else if i.dst.Effective? then Some(Address(st, i.dst.base, i.dst.displacement))
    else if i.dst.Direct? && i.op.Mov? && i.src.Immediate? then Some(i.dst.address)
    else None
  }

  predicate StoresAtOrAbove(st: Machine, i: Instr, m: int)
    requires NamesRegisters(i)
  {
    StoreTarget(st, i).None? || StoreTarget(st, i).value >= m
  }

  /** An instruction with a store target does store there: one byte. */
  lemma StoreTargetIsWritten(st: Machine, i: Instr, len: byte)
    requires NamesRegisters(i) && Exec(st, i, len).Some? && StoreTarget(st, i).Some?
    ensures var a := StoreTarget(st, i).value;
            var v: int := if i.src.Register? then Read(st, i.src.reg) else i.src.data;
            Exec(st, i, len).value.mem == st.mem[a := U8(if i.op == Mov then v else st.mem[a] + v)]
  {
  }

  lemma NoStoreTarget(st: Machine, i: Instr, len: byte)
    requires NamesRegisters(i) && Exec(st, i, len).Some? && StoreTarget(st, i).None?
    ensures Exec(st, i, len).value.mem == st.mem
  {
    match i {
      case Short(op, offset) => assert ExecJump(st, op, offset, len).value.mem == st.mem;
      case Two(op, dst, src, _, _) =>
        match op {
          case Mov => assert ExecMov(st, dst, src).value.mem == st.mem;
          case Add => assert ExecAdd(st, dst, src).value.mem == st.mem;
          case Sub => assert ExecSubCmp(st, dst, src, true).value.mem == st.mem;
          case Cmp => assert ExecSubCmp(st, dst, src, false).value.mem == st.mem;
          case _ =>
        }
    }
  }

  /** Memory changes at most at the store target. */
  lemma ExecFrame(st: Machine, i: Instr, len: byte, a: word)
    requires NamesRegisters(i) && Exec(st, i, len).Some?
    requires StoreTarget(st, i).Some? ==> StoreTarget(st, i).value != a
    ensures Exec(st, i, len).value.mem[a] == st.mem[a]
  {
    if StoreTarget(st, i).Some? {
      StoreTargetIsWritten(st, i, len);
    } else {
      NoStoreTarget(st, i, len);
    }
  }

  // ----- fetching from unchanged code -----

  predicate SameBelow(mem: seq<byte>, code: seq<byte>, m: int)
    requires |mem| == |code| == MEMORY_SIZE && 0 <= m <= MEMORY_SIZE
  {
    forall a :: 0 <= a < m ==> mem[a] == code[a]
  }

  /** Six equal bytes decode alike. */
  lemma SameWindow(s: seq<byte>, t: seq<byte>)
    requires |s| >= 6 && |t| >= 6 && forall k :: 0 <= k < 6 ==> s[k] == t[k]
    ensures Decode(s) == Decode(t) && !Decode(s).ReadsPastEnd?
  {
    assert s[0] == t[0] && s[1] == t[1];
    ClassifyIsForm(s[0]);
    if IsForm(Classify(s[0])) {
      LengthBounds(Classify(s[0]), s[1]);
      DecodeReadsOnlyItsBytes(s, t);
    }
  }

  lemma SameFetch(mem: seq<byte>, code: seq<byte>, m: int, ip: word)
    requires |mem| == |code| == MEMORY_SIZE && ip + 6 <= m <= MEMORY_SIZE && SameBelow(mem, code, m)
    ensures Decode(mem[ip..]) == Decode(code[ip..])
  {
    var s, t := mem[ip..], code[ip..];
    forall k | 0 <= k < 6
      ensures s[k] == t[k]
    {
      assert s[k] == mem[ip + k] && t[k] == code[ip + k];
    }
    SameWindow(s, t);
  }

  // ----- whole runs -----

  lemma ImageNamesRegisters(code: seq<byte>, ip: word)
    requires |code| == MEMORY_SIZE
    ensures var d := Decode(code[ip..]); d.Decoded? ==> NamesRegisters(d.instr)
  {
    if Decode(code[ip..]).Decoded? {
      DecodedIsWellFormed(code[ip..]);
    }
  }

  /** The simulator, except that it fetches from a fixed image of the program. */
  function StepFrom(code: seq<byte>, st: Machine, n: nat): Outcome<Machine>
    requires |code| == MEMORY_SIZE
  {
    if st.ip >= n then Exited(st)
    else
      ImageNamesRegisters(code, st.ip);
      Perform(st, Decode(code[st.ip..]))
  }

  function StepperFrom(code: seq<byte>, n: nat): Machine -> Outcome<Machine>
    requires |code| == MEMORY_SIZE
  {
    (st: Machine) => StepFrom(code, st, n)
  }

  /** The next instruction of a program of `n` bytes, if there is one, stores nowhere below `m`. Nothing is asked of the
      bytes behind the program. */
  predicate NextStoresAtOrAbove(st: Machine, n: nat, m: int) {
    FetchNamesRegisters(st);
    st.ip < n && Fetch(st).Decoded? ==> StoresAtOrAbove(st, Fetch(st).instr, m)
  }

  lemma StepsAgree(code: seq<byte>, st: Machine, n: nat, m: int)
    requires |code| == MEMORY_SIZE && n + 5 <= m <= MEMORY_SIZE && SameBelow(st.mem, code, m)
    ensures Step(st, n) == StepFrom(code, st, n)
  {
    if st.ip < n {
      SameFetch(st.mem, code, m, st.ip);
    }
  }

  lemma StepKeepsCode(code: seq<byte>, st: Machine, n: nat, m: int)
    requires |code| == MEMORY_SIZE && 0 <= m <= MEMORY_SIZE && SameBelow(st.mem, code, m)
    requires NextStoresAtOrAbove(st, n, m) && Step(st, n).Running?
    ensures SameBelow(Step(st, n).st.mem, code, m)
  {
    FetchNamesRegisters(st);
    var d := Fetch(st);
    forall a | 0 <= a < m
      ensures Exec(st, d.instr, d.len).value.mem[a] == code[a]
    {
      ExecFrame(st, d.instr, d.len, a);
    }
  }

  /** If no step of a run stores below `n + 5`, where `n` is the number of loaded bytes, then the run is the run
      over the program decoded from the initial memory: same outcome, same final state, up to and including its exit. */
  lemma CodeStability(st: Machine, n: nat, steps: nat)
    requires n + 5 <= MEMORY_SIZE
    requires AllAlong(Stepper(n), (s: Machine) => NextStoresAtOrAbove(s, n, n + 5), st, steps)
    ensures Run(Stepper(n), st, steps) == Run(StepperFrom(st.mem, n), st, steps)
  {
    var code, m := st.mem, n + 5;
    var ok := (s: Machine) => NextStoresAtOrAbove(s, n, m);
    var inv := (s: Machine) => SameBelow(s.mem, code, m);
    forall s: Machine | inv(s)
      ensures Stepper(n)(s) == StepperFrom(code, n)(s)
    {
      StepsAgree(code, s, n, m);
    }
    forall s: Machine | inv(s) && ok(s) && Stepper(n)(s).Running?
      ensures inv(Stepper(n)(s).st)
    {
      StepKeepsCode(code, s, n, m);
    }
    RunsAgree(Stepper(n), StepperFrom(code, n), ok, inv, st, steps);
  }
}
