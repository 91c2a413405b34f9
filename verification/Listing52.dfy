/** A whole machine-code program, end to end: the bytes of listing 52, which fills an array through
    `[bp + si]` and then adds it up, run on the simulator for every array base and every even length. */
module Listing52 {
  import opened Options
  import opened Words
  import opened Isa
  import opened Grammar
  import opened Runs
  import opened Machine
  import opened MachineFacts

  const SIZE := 35

  /** The assembled program with `dx = n` and `bp = b`. */
  function Program(n: word, b: word): (p: seq<byte>)
    ensures |p| == SIZE
  {
    [0xBA, n % 0x100, n / 0x100,   // 00: mov dx, n
     0xBD, b % 0x100, b / 0x100,   // 03: mov bp, b
     0xBE, 0x00, 0x00,             // 06: mov si, 0
     0x89, 0x32,                   // 09: mov [bp + si], si
     0x83, 0xC6, 0x02,             // 0B: add si, 2
     0x39, 0xD6,                   // 0E: cmp si, dx
     0x75, 0xF7,                   // 10: jnz 09
     0xBB, 0x00, 0x00,             // 12: mov bx, 0
     0xBE, 0x00, 0x00,             // 15: mov si, 0
     0x8B, 0x0A,                   // 18: mov cx, [bp + si]
     0x01, 0xCB,                   // 1A: add bx, cx
     0x83, 0xC6, 0x02,             // 1C: add si, 2
     0x39, 0xD6,                   // 1F: cmp si, dx
     0x75, 0xF5]                   // 21: jnz 18
  }

  // ----- decoding the program -----

  function MovImm(r: Reg, v: word): Instr {
    Two(Mov, Register(r), Immediate(S16(v)), NoHint, WordHint)
  }

  const STORE := Two(Mov, Effective(BpSi, 0), Register(SI), NoHint, NoHint)
  const LOAD := Two(Mov, Register(CX), Effective(BpSi, 0), NoHint, NoHint)
  const SUM := Two(Add, Register(BX), Register(CX), NoHint, NoHint)
  const NEXT := Two(Add, Register(SI), Immediate(2), WordHint, NoHint)
  const COMPARE := Two(Cmp, Register(SI), Register(DX), NoHint, NoHint)

  /** The instruction at each address where one starts. */
  function Line(n: word, b: word, at: int): Decoded {
    if at == 0x00 then Decoded(MovImm(DX, n), 3)
    else if at == 0x03 then Decoded(MovImm(BP, b), 3)
    else if at == 0x06 || at == 0x15 then Decoded(MovImm(SI, 0), 3)
    else if at == 0x09 then Decoded(STORE, 2)
    else if at == 0x0B || at == 0x1C then Decoded(NEXT, 3)
    else if at == 0x0E || at == 0x1F then Decoded(COMPARE, 2)
    else if at == 0x10 then Decoded(Short(Jnz, -9), 2)
    else if at == 0x12 then Decoded(MovImm(BX, 0), 3)
    else if at == 0x18 then Decoded(LOAD, 2)
    else if at == 0x1A then Decoded(SUM, 2)
    else if at == 0x21 then Decoded(Short(Jnz, -11), 2)
    else Unknown
  }

  /** A view that starts with the bytes at `at`. */
  predicate StartsAt(s: seq<byte>, n: word, b: word, at: nat, len: nat) {
    at + len <= SIZE && |s| >= len && forall k :: 0 <= k < len ==> s[k] == Program(n, b)[at + k]
  }

  lemma MovImmBytes(s: seq<byte>, c: int, v: word)
    requires 0 <= c < 8 && |s| >= 3 && s[0] == 0xB8 + c && s[1] == v % 0x100 && s[2] == v / 0x100
    ensures Decode(s) == Decoded(MovImm(WIDE[c], v), 3)
  {
    assert Classify(s[0]) == ImmToReg(true, c);
  }

  lemma DecodeMovImm(s: seq<byte>, n: word, b: word, at: nat)
    requires at in {0x00, 0x03, 0x06, 0x12, 0x15} && StartsAt(s, n, b, at, 3)
    ensures Decode(s) == Line(n, b, at)
  {
    assert s[0] == Program(n, b)[at] && s[1] == Program(n, b)[at + 1] && s[2] == Program(n, b)[at + 2];
    MovImmBytes(s, s[0] - 0xB8, if at == 0 then n else if at == 3 then b else 0);
  }

  lemma DecodeNext(s: seq<byte>)
    requires |s| >= 3 && s[0] == 0x83 && s[1] == 0xC6 && s[2] == 2
    ensures Decode(s) == Decoded(NEXT, 3)
  {
  }

  lemma DecodeArith(s: seq<byte>, n: word, b: word, at: nat)
    requires at in {0x0B, 0x1C} && StartsAt(s, n, b, at, 3)
    ensures Decode(s) == Line(n, b, at)
  {
    assert s[0] == Program(n, b)[at] == 0x83;
    assert s[1] == Program(n, b)[at + 1] == 0xC6;
    assert s[2] == Program(n, b)[at + 2] == 2;
    DecodeNext(s);
  }

  lemma DecodeMove(s: seq<byte>, n: word, b: word, at: nat)
    requires at in {0x09, 0x0E, 0x18, 0x1A, 0x1F} && StartsAt(s, n, b, at, 2)
    ensures Decode(s) == Line(n, b, at)
  {
    assert s[0] == Program(n, b)[at] && s[1] == Program(n, b)[at + 1];
    if at == 0x09 {
      assert s[0] == 0x89 && s[1] == 0x32;
    } else if at == 0x18 {
      assert s[0] == 0x8B && s[1] == 0x0A;
    } else if at == 0x1A {
      assert s[0] == 0x01 && s[1] == 0xCB;
    } else {
      assert s[0] == 0x39 && s[1] == 0xD6;
    }
  }

  lemma DecodeJump(s: seq<byte>, n: word, b: word, at: nat)
    requires at in {0x10, 0x21} && StartsAt(s, n, b, at, 2)
    ensures Decode(s) == Line(n, b, at)
  {
    assert s[0] == 0x75 && s[1] == Program(n, b)[at + 1];
  }

  /** The first bytes of memory are the program. */
  predicate Loaded(mem: seq<byte>, n: word, b: word) {
    |mem| == MEMORY_SIZE && forall k {:trigger Program(n, b)[k]} :: 0 <= k < SIZE ==> mem[k] == Program(n, b)[k]
  }

  lemma FetchLine(st: Machine, n: word, b: word)
    requires Loaded(st.mem, n, b) && Line(n, b, st.ip).Decoded?
    ensures Fetch(st) == Line(n, b, st.ip)
  {
    var s, at := st.mem[st.ip..], st.ip as nat;
    var len := Line(n, b, at).len;
    assert StartsAt(s, n, b, at, len) by {
      forall k | 0 <= k < len
        ensures s[k] == Program(n, b)[at + k]
      {
        assert s[k] == st.mem[at + k];
      }
    }
    if at in {0x00, 0x03, 0x06, 0x12, 0x15} {
      DecodeMovImm(s, n, b, at);
    } else if at in {0x0B, 0x1C} {
      DecodeArith(s, n, b, at);
    } else if at in {0x10, 0x21} {
      DecodeJump(s, n, b, at);
    } else {
      DecodeMove(s, n, b, at);
    }
  }

  // ----- what each instruction does to the registers in use -----

  datatype Used = Used(bx: word, cx: word, dx: word, bp: word, si: word)

  function ViewOf(regs: Registers): Used {
    Used(ReadFrom(regs, BX), ReadFrom(regs, CX), ReadFrom(regs, DX), ReadFrom(regs, BP), ReadFrom(regs, SI))
  }

  function View(st: Machine): Used {
    ViewOf(st.regs)
  }

  lemma WriteView(st: Machine, r: Reg, v: word)
    requires r.BX? || r.CX? || r.DX? || r.BP? || r.SI?
    ensures var u := View(Write(st, r, v));
            var w := View(st);
            u == Used(if r.BX? then v else w.bx, if r.CX? then v else w.cx, if r.DX? then v else w.dx,
                      if r.BP? then v else w.bp, if r.SI? then v else w.si)
  {
  }

  /** The instruction completed: it fell through with this view of the registers and this memory. */
  predicate Became(o: Option<Machine>, st: Machine, len: int, u: Used, mem: seq<byte>) {
    o.Some? && o.value.ip == U16(st.ip + len) && View(o.value) == u && o.value.mem == mem
  }

  lemma MovImmEffect(st: Machine, r: Reg, v: word)
    requires r.BX? || r.DX? || r.BP? || r.SI?
    ensures var w := View(st);
            Became(Exec(st, MovImm(r, v), 3), st, 3,
                   Used(if r.BX? then v else w.bx, w.cx, if r.DX? then v else w.dx,
                        if r.BP? then v else w.bp, if r.SI? then v else w.si), st.mem)
  {
    WriteView(st, r, v);
    assert MovValue(st, Immediate(S16(v))) == v;
  }

  lemma StoreEffect(st: Machine)
    requires View(st).bp + View(st).si < 0x1_0000
    ensures Became(Exec(st, STORE, 2), st, 2, View(st),
                   st.mem[View(st).bp + View(st).si := View(st).si % 0x100])
  {
    assert Address(st, BpSi, 0) == View(st).bp + View(st).si;
  }

  lemma LoadEffect(st: Machine)
    requires View(st).bp + View(st).si < 0x1_0000
    ensures Became(Exec(st, LOAD, 2), st, 2,
                   View(st).(cx := st.mem[View(st).bp + View(st).si]), st.mem)
  {
    assert Address(st, BpSi, 0) == View(st).bp + View(st).si;
    WriteView(st, CX, st.mem[View(st).bp + View(st).si]);
  }

  lemma AccumulateView(st: Machine, r: Reg, v: word)
    requires r.BX? || r.SI?
    ensures var t, w := Accumulate(st, r, v), View(st);
            && View(t) == (if r.BX? then w.(bx := U16(w.bx + v)) else w.(si := U16(w.si + v)))
            && t.mem == st.mem && t.ip == st.ip
  {
    var value := U16(Read(st, r) + v);
    var flagged := st.(flags := EvalFlags(st.flags, value));
    assert Accumulate(st, r, v) == Write(flagged, r, value);
    WriteView(flagged, r, value);
  }

  /** A sum in a register, ticked and advanced. */
  lemma AddBecame(st: Machine, sum: Machine, clocks: nat, len: byte)
    requires sum.mem == st.mem && sum.ip == st.ip
    ensures Became(Some(Advance(Tick(sum, clocks), len)), st, len, View(sum), st.mem)
  {
  }

  lemma SumIsAccumulate(st: Machine)
    ensures Exec(st, SUM, 2) == Some(Advance(Tick(Accumulate(st, BX, Read(st, CX)), 3), 2))
  {
  }

  lemma SumEffect(st: Machine)
    ensures Became(Exec(st, SUM, 2), st, 2, View(st).(bx := U16(View(st).bx + View(st).cx)), st.mem)
  {
    var sum := Accumulate(st, BX, Read(st, CX));
    SumIsAccumulate(st);
    AccumulateView(st, BX, Read(st, CX));
    AddBecame(st, sum, 3, 2);
  }

  lemma NextEffect(st: Machine)
    ensures Became(Exec(st, NEXT, 3), st, 3, View(st).(si := U16(View(st).si + 2)), st.mem)
  {
    var sum := Accumulate(st, SI, 2);
    AccumulateView(st, SI, 2);
    AddBecame(st, sum, 4, 3);
    assert Exec(st, NEXT, 3) == Some(Advance(Tick(sum, 4), 3));
  }

  lemma CompareEffect(st: Machine)
    ensures Became(Exec(st, COMPARE, 2), st, 2, View(st), st.mem)
    ensures IsZSet(Exec(st, COMPARE, 2).value.flags) <==> View(st).si == View(st).dx
  {
    var a: int, v: int := Read(st, SI), Read(st, DX);
    FlagsOfValue(st.flags, U16(a - v));
    assert U16(a - v) == 0 <==> a == v;
  }

  lemma JumpEffect(st: Machine, offset: int16)
    ensures var o := Exec(st, Short(Jnz, offset), 2);
            && o.Some? && View(o.value) == View(st) && o.value.mem == st.mem && o.value.flags == st.flags
            && o.value.ip == if IsZSet(st.flags) then U16(st.ip + 2) else U16(U16(st.ip + 2) + offset)
  {
  }

  // ----- steps of the run -----

  /** The array the first loop has built up to index `s`: one byte at every even offset. */
  function Filled(mem: seq<byte>, b: word, s: nat): (r: seq<byte>)
    requires |mem| == MEMORY_SIZE && b + s <= MEMORY_SIZE
    ensures |r| == MEMORY_SIZE
    decreases s
  {
    if s < 2 then mem else Filled(mem, b, s - 2)[b + s - 2 := (s - 2) % 0x100]
  }

  lemma {:induction false} FilledAt(mem: seq<byte>, b: word, s: nat, a: nat)
    requires |mem| == MEMORY_SIZE && b + s <= MEMORY_SIZE && a < MEMORY_SIZE && s % 2 == 0
    ensures Filled(mem, b, s)[a] == if b <= a < b + s && (a - b) % 2 == 0 then (a - b) % 0x100 else mem[a]
    decreases s
  {
    if s < 2 {
    } else {
      FilledAt(mem, b, s - 2, a);
    }
  }

  /** The sum the program computes: the low bytes of the even numbers below `s`. */
  function EvenSum(s: nat): nat {
    if s < 2 then 0 else EvenSum(s - 2) + (s - 2) % 0x100
  }

  lemma LoadedFilled(mem: seq<byte>, n: word, b: word, s: nat)
    requires Loaded(mem, n, b) && SIZE <= b && b + s <= MEMORY_SIZE && s % 2 == 0
    ensures Loaded(Filled(mem, b, s), n, b)
  {
    forall k | 0 <= k < SIZE
      ensures Filled(mem, b, s)[k] == Program(n, b)[k]
    {
      FilledAt(mem, b, s, k);
    }
  }

  /** The simulator's step together with the register view. */
  datatype Rig = Rig(step: Machine -> Outcome<Machine>, view: Machine -> Used)

  ghost predicate IsRig(rig: Rig) {
    Simulates(rig.step, SIZE) && forall s: Machine {:trigger View(s)} :: rig.view(s) == View(s)
  }

  /** The running machine is at `ip` with this view of the registers and this memory. */
  predicate At(rig: Rig, o: Outcome<Machine>, ip: word, u: Used, mem: seq<byte>) {
    o.Running? && o.st.ip == ip && rig.view(o.st) == u && o.st.mem == mem
  }

  /** The program is in place and the instruction at `ip` is `i`. */
  predicate Ready(st: Machine, n: word, b: word, i: Instr, len: byte) {
    Loaded(st.mem, n, b) && Line(n, b, st.ip) == Decoded(i, len)
  }

  lemma StepFetched(step: Machine -> Outcome<Machine>, st: Machine, i: Instr, len: byte)
    requires Simulates(step, SIZE) && st.ip < SIZE && Fetch(st) == Decoded(i, len)
    ensures NamesRegisters(i)
    ensures Exec(st, i, len).Some? ==> step(st) == Running(Exec(st, i, len).value)
  {
    FetchNamesRegisters(st);
    assert Step(st, SIZE) == Perform(st, Decoded(i, len));
  }

  /** Where the program is unchanged, one step of the simulator executes the line at `ip`. */
  lemma StepLine(rig: Rig, st: Machine, n: word, b: word, i: Instr, len: byte)
    requires IsRig(rig) && Ready(st, n, b, i, len)
    ensures NamesRegisters(i)
    ensures Exec(st, i, len).Some? ==>
              && rig.step(st) == Running(Exec(st, i, len).value)
              && rig.view(rig.step(st).st) == View(Exec(st, i, len).value)
  {
    FetchLine(st, n, b);
    StepFetched(rig.step, st, i, len);
  }

  lemma MovImmStep(rig: Rig, st: Machine, n: word, b: word, r: Reg, v: word)
    requires IsRig(rig) && Ready(st, n, b, MovImm(r, v), 3)
    requires r.BX? || r.DX? || r.BP? || r.SI?
    ensures var w := rig.view(st);
            At(rig, rig.step(st), U16(st.ip + 3),
               Used(if r.BX? then v else w.bx, w.cx, if r.DX? then v else w.dx,
                    if r.BP? then v else w.bp, if r.SI? then v else w.si), st.mem)
  {
    MovImmEffect(st, r, v);
    StepLine(rig, st, n, b, MovImm(r, v), 3);
  }

  lemma StoreStep(rig: Rig, st: Machine, n: word, b: word)
    requires IsRig(rig) && Ready(st, n, b, STORE, 2)
    requires rig.view(st).bp + rig.view(st).si < 0x1_0000
    ensures var w := rig.view(st); At(rig, rig.step(st), U16(st.ip + 2), w, st.mem[w.bp + w.si := w.si % 0x100])
  {
    assert rig.view(st) == View(st);
    StoreEffect(st);
    StepLine(rig, st, n, b, STORE, 2);
  }

  lemma LoadStep(rig: Rig, st: Machine, n: word, b: word)
    requires IsRig(rig) && Ready(st, n, b, LOAD, 2)
    requires rig.view(st).bp + rig.view(st).si < 0x1_0000
    ensures var w := rig.view(st); At(rig, rig.step(st), U16(st.ip + 2), w.(cx := st.mem[w.bp + w.si]), st.mem)
  {
    assert rig.view(st) == View(st);
    LoadEffect(st);
    StepLine(rig, st, n, b, LOAD, 2);
  }

  lemma SumStep(rig: Rig, st: Machine, n: word, b: word)
    requires IsRig(rig) && Ready(st, n, b, SUM, 2)
    ensures var w := rig.view(st); At(rig, rig.step(st), U16(st.ip + 2), w.(bx := U16(w.bx + w.cx)), st.mem)
  {
    SumEffect(st);
    StepLine(rig, st, n, b, SUM, 2);
  }

  lemma NextStep(rig: Rig, st: Machine, n: word, b: word)
    requires IsRig(rig) && Ready(st, n, b, NEXT, 3)
    ensures var w := rig.view(st); At(rig, rig.step(st), U16(st.ip + 3), w.(si := U16(w.si + 2)), st.mem)
  {
    NextEffect(st);
    StepLine(rig, st, n, b, NEXT, 3);
  }

  lemma CompareStep(rig: Rig, st: Machine, n: word, b: word)
    requires IsRig(rig) && Ready(st, n, b, COMPARE, 2)
    ensures At(rig, rig.step(st), U16(st.ip + 2), rig.view(st), st.mem)
    ensures IsZSet(rig.step(st).st.flags) <==> rig.view(st).si == rig.view(st).dx
  {
    CompareEffect(st);
    StepLine(rig, st, n, b, COMPARE, 2);
  }

  lemma JumpStep(rig: Rig, st: Machine, n: word, b: word, offset: int16)
    requires IsRig(rig) && Ready(st, n, b, Short(Jnz, offset), 2)
    ensures At(rig, rig.step(st), if IsZSet(st.flags) then U16(st.ip + 2) else U16(U16(st.ip + 2) + offset),
               rig.view(st), st.mem)
  {
    StepLine(rig, st, n, b, Short(Jnz, offset), 2);
    JumpEffect(st, offset);
  }

  /** `cmp si, dx` and the jump. */
  lemma CompareJumpSteps(rig: Rig, st: Machine, n: word, b: word, offset: int16)
    requires IsRig(rig) && Loaded(st.mem, n, b)
    requires (st.ip == 0x0E && offset == -9) || (st.ip == 0x1F && offset == -11)
    ensures At(rig, Run(rig.step, st, 2), if rig.view(st).si == rig.view(st).dx then st.ip + 4 else st.ip + 4 + offset,
               rig.view(st), st.mem)
  {
    CompareStep(rig, st, n, b);
    var t := rig.step(st).st;
    JumpStep(rig, t, n, b, offset);
    assert Run(rig.step, st, 2) == Run(rig.step, t, 1) == Run(rig.step, rig.step(t).st, 0);
  }

  /** `add si, 2`, `cmp si, dx` and the jump: three steps that end both loop bodies. */
  lemma TailSteps(rig: Rig, st: Machine, n: word, b: word, offset: int16)
    requires IsRig(rig) && Loaded(st.mem, n, b)
    requires (st.ip == 0x0B && offset == -9) || (st.ip == 0x1C && offset == -11)
    ensures var w := rig.view(st);
            At(rig, Run(rig.step, st, 3), if U16(w.si + 2) == w.dx then st.ip + 7 else st.ip + 7 + offset,
               w.(si := U16(w.si + 2)), st.mem)
  {
    NextStep(rig, st, n, b);
    var t := rig.step(st).st;
    CompareJumpSteps(rig, t, n, b, offset);
    assert Run(rig.step, st, 3) == Run(rig.step, t, 2);
  }

  // ----- the two loops -----

  /** The setting of a run: the array lies behind the code and inside memory, and has even, non-zero length. */
  predicate Setting(mem: seq<byte>, n: word, b: word) {
    Loaded(mem, n, b) && n % 2 == 0 && n >= 2 && SIZE <= b && b + n <= MEMORY_SIZE
  }

  /** At the head of the first loop, with the array filled up to `s`. */
  predicate Filling(rig: Rig, st: Machine, mem: seq<byte>, n: word, b: word, s: nat)
    requires |mem| == MEMORY_SIZE && b + s <= MEMORY_SIZE
  {
    var w := rig.view(st);
    st.ip == 0x09 && w.dx == n && w.bp == b && w.si == s && st.mem == Filled(mem, b, s)
  }

  lemma FillPass(rig: Rig, st: Machine, mem: seq<byte>, n: word, b: word, s: nat)
    requires IsRig(rig) && Setting(mem, n, b) && s % 2 == 0 && s + 2 <= n && Filling(rig, st, mem, n, b, s)
    ensures At(rig, Run(rig.step, st, 4), if s + 2 == n then 0x12 else 0x09,
               rig.view(st).(si := s + 2), Filled(mem, b, s + 2))
  {
    LoadedFilled(mem, n, b, s);
    StoreStep(rig, st, n, b);
    var t := rig.step(st).st;
    LoadedFilled(mem, n, b, s + 2);
    TailSteps(rig, t, n, b, -9);
    assert Run(rig.step, st, 4) == Run(rig.step, t, 3);
  }

  /** The first loop fills the array. */
  lemma {:induction false} FillLoop(rig: Rig, st: Machine, mem: seq<byte>, n: word, b: word, s: nat)
    requires IsRig(rig) && Setting(mem, n, b) && s % 2 == 0 && s < n && Filling(rig, st, mem, n, b, s)
    ensures At(rig, Run(rig.step, st, 2 * (n - s)), 0x12, rig.view(st).(si := n), Filled(mem, b, n))
    decreases n - s
  {
    FillPass(rig, st, mem, n, b, s);
    if s + 2 < n {
      FillLoop(rig, Run(rig.step, st, 4).st, mem, n, b, s + 2);
      RunAdds(rig.step, st, 4, 2 * (n - (s + 2)));
    }
  }

  /** At the head of the second loop, with the first `s` offsets added up. */
  predicate Summing(rig: Rig, st: Machine, mem: seq<byte>, n: word, b: word, s: nat)
    requires |mem| == MEMORY_SIZE && b + n <= MEMORY_SIZE
  {
    var w := rig.view(st);
    st.ip == 0x18 && w.dx == n && w.bp == b && w.si == s && w.bx == U16(EvenSum(s)) && st.mem == Filled(mem, b, n)
  }

  lemma SumOfCut(a: nat, v: nat)
    ensures U16(U16(a) + v) == U16(a + v)
  {
    var k := a / 0x1_0000;
    assert a == 0x1_0000 * k + U16(a);
    ModShift(U16(a) + v, k);
  }

  lemma SumGrows(s: nat)
    ensures U16(U16(EvenSum(s)) + s % 0x100) == U16(EvenSum(s + 2))
  {
    assert EvenSum(s + 2) == EvenSum(s) + s % 0x100;
    SumOfCut(EvenSum(s), s % 0x100);
  }

  /** The first two instructions of the second body. */
  lemma SumHead(rig: Rig, st: Machine, mem: seq<byte>, n: word, b: word, s: nat)
    requires IsRig(rig) && Setting(mem, n, b) && s % 2 == 0 && s + 2 <= n && Summing(rig, st, mem, n, b, s)
    ensures At(rig, Run(rig.step, st, 2), 0x1C, rig.view(st).(bx := U16(EvenSum(s + 2)), cx := s % 0x100), st.mem)
    ensures Loaded(Run(rig.step, st, 2).st.mem, n, b)
  {
    LoadedFilled(mem, n, b, n);
    LoadStep(rig, st, n, b);
    FilledAt(mem, b, n, b + s);
    var t := rig.step(st).st;
    SumStep(rig, t, n, b);
    SumGrows(s);
    var q := rig.step(t).st;
    assert Run(rig.step, st, 2) == Run(rig.step, t, 1) == Run(rig.step, q, 0);
  }

  lemma SumPass(rig: Rig, st: Machine, mem: seq<byte>, n: word, b: word, s: nat)
    requires IsRig(rig) && Setting(mem, n, b) && s % 2 == 0 && s + 2 <= n && Summing(rig, st, mem, n, b, s)
    ensures At(rig, Run(rig.step, st, 5), if s + 2 == n then 0x23 else 0x18,
               rig.view(st).(bx := U16(EvenSum(s + 2)), cx := s % 0x100, si := s + 2), Filled(mem, b, n))
  {
    SumHead(rig, st, mem, n, b, s);
    TailSteps(rig, Run(rig.step, st, 2).st, n, b, -11);
    RunAdds(rig.step, st, 2, 3);
  }

  /** The second loop adds it up. */
  lemma {:induction false} SumLoop(rig: Rig, st: Machine, mem: seq<byte>, n: word, b: word, s: nat)
    requires IsRig(rig) && Setting(mem, n, b) && s % 2 == 0 && s < n && Summing(rig, st, mem, n, b, s)
    ensures At(rig, Run(rig.step, st, 5 * ((n - s) / 2)), 0x23,
               rig.view(st).(bx := U16(EvenSum(n)), cx := (n - 2) % 0x100, si := n), Filled(mem, b, n))
    decreases n - s
  {
    SumPass(rig, st, mem, n, b, s);
    if s + 2 < n {
      SumLoop(rig, Run(rig.step, st, 5).st, mem, n, b, s + 2);
      RunAdds(rig.step, st, 5, 5 * ((n - (s + 2)) / 2));
      assert 5 * ((n - s) / 2) == 5 + 5 * ((n - (s + 2)) / 2);
    } else {
      assert 5 * ((n - s) / 2) == 5;
    }
  }

  // ----- the whole program -----

  lemma PrologueStart(rig: Rig, st: Machine, n: word, b: word)
    requires IsRig(rig) && Setting(st.mem, n, b) && st.ip == 0
    ensures At(rig, Run(rig.step, st, 2), 0x06, rig.view(st).(dx := n, bp := b), st.mem)
  {
    MovImmStep(rig, st, n, b, DX, n);
    var t := rig.step(st).st;
    MovImmStep(rig, t, n, b, BP, b);
    assert Run(rig.step, st, 2) == Run(rig.step, t, 1) == Run(rig.step, rig.step(t).st, 0);
  }

  lemma Prologue(rig: Rig, st: Machine, n: word, b: word)
    requires IsRig(rig) && Setting(st.mem, n, b) && st.ip == 0
    ensures At(rig, Run(rig.step, st, 3), 0x09, rig.view(st).(dx := n, bp := b, si := 0), st.mem)
  {
    PrologueStart(rig, st, n, b);
    var t := Run(rig.step, st, 2).st;
    MovImmStep(rig, t, n, b, SI, 0);
    assert Run(rig.step, t, 1) == Run(rig.step, rig.step(t).st, 0);
    RunAdds(rig.step, st, 2, 1);
  }

  lemma Interlude(rig: Rig, st: Machine, n: word, b: word)
    requires IsRig(rig) && Loaded(st.mem, n, b) && st.ip == 0x12
    ensures At(rig, Run(rig.step, st, 2), 0x18, rig.view(st).(bx := 0, si := 0), st.mem)
  {
    MovImmStep(rig, st, n, b, BX, 0);
    var t := rig.step(st).st;
    MovImmStep(rig, t, n, b, SI, 0);
    assert Run(rig.step, st, 2) == Run(rig.step, t, 1) == Run(rig.step, rig.step(t).st, 0);
  }

  lemma Finish(rig: Rig, st: Machine)
    requires IsRig(rig) && st.ip == SIZE
    ensures Run(rig.step, st, 1) == Exited(st)
  {
    assert Step(st, SIZE) == Exited(st);
  }

  /** For every array base behind the code and every even length that fits, the program runs off its end after
      `6 + 9n/2` turns with SI = n, BX the sum of the stored bytes, and memory changed exactly at the array's
      even offsets. Registers, flags and the rest of memory may hold anything to begin with. */
  lemma ProgramComputesSum(rig: Rig, st: Machine, n: word, b: word)
    requires IsRig(rig) && Setting(st.mem, n, b) && st.ip == 0
    ensures var o := Run(rig.step, st, 6 + 2 * n + 5 * (n / 2));
            && o.Exited? && o.st.ip == SIZE
            && rig.view(o.st) == Used(U16(EvenSum(n)), (n - 2) % 0x100, n, b, n)
            && forall a :: 0 <= a < MEMORY_SIZE ==>
                 o.st.mem[a] == if b <= a < b + n && (a - b) % 2 == 0 then (a - b) % 0x100 else st.mem[a]
  {
    Prologue(rig, st, n, b);
    var s1 := Run(rig.step, st, 3).st;
    FillLoop(rig, s1, st.mem, n, b, 0);
    var s2 := Run(rig.step, s1, 2 * n).st;
    LoadedFilled(st.mem, n, b, n);
    Interlude(rig, s2, n, b);
    var s3 := Run(rig.step, s2, 2).st;
    SumLoop(rig, s3, st.mem, n, b, 0);
    var s4 := Run(rig.step, s3, 5 * (n / 2)).st;
    Finish(rig, s4);
    RunAdds(rig.step, s3, 5 * (n / 2), 1);
    RunAdds(rig.step, s2, 2, 5 * (n / 2) + 1);
    RunAdds(rig.step, s1, 2 * n, 2 + 5 * (n / 2) + 1);
    RunAdds(rig.step, st, 3, 2 * n + 2 + 5 * (n / 2) + 1);
    forall a | 0 <= a < MEMORY_SIZE
      ensures s4.mem[a] == if b <= a < b + n && (a - b) % 2 == 0 then (a - b) % 0x100 else st.mem[a]
    {
      FilledAt(st.mem, b, n, a);
    }
  }

  /** Where the program ends, from a machine state `st` that holds it. */
  predicate Summed(st: Machine, end: Machine, n: word, b: word) {
    && end.ip == SIZE && View(end) == Used(U16(EvenSum(n)), (n - 2) % 0x100, n, b, n)
    && forall a :: 0 <= a < MEMORY_SIZE ==>
         end.mem[a] == if b <= a < b + n && (a - b) % 2 == 0 then (a - b) % 0x100 else st.mem[a]
  }

  /** The number of turns the simulator's loop takes, with the one that finds the end. */
  function Turns(n: nat): nat {
    6 + 2 * n + 5 * (n / 2)
  }

  /** For that many turns or any larger number. */
  lemma StepComputesSum(step: Machine -> Outcome<Machine>, st: Machine, n: word, b: word, turns: nat)
    requires Simulates(step, SIZE) && Setting(st.mem, n, b) && st.ip == 0 && turns >= Turns(n)
    ensures var o := Run(step, st, turns); o.Exited? && Summed(st, o.st, n, b)
  {
    ProgramComputesSum(Rig(step, (s: Machine) => View(s)), st, n, b);
    RunStops(step, st, Turns(n), turns - Turns(n));
  }

  /** The same of the simulator's step itself, without assumptions: loading the 35 bytes of the program at address 0
      and running it computes the sum. */
  lemma SimulatorComputesSum(st: Machine, n: word, b: word, turns: nat)
    requires Setting(st.mem, n, b) && st.ip == 0 && turns >= Turns(n)
    ensures var o := Run(Stepper(SIZE), st, turns); o.Exited? && Summed(st, o.st, n, b)
  {
    StepperSimulates(SIZE);
    StepComputesSum(Stepper(SIZE), st, n, b, turns);
  }

  /** A trace of the simulator on the program is at most that long, meets no fault, and ends with the sum when it ends
      past the program. */
  lemma TraceEnds(step: Machine -> Outcome<Machine>, trace: seq<Machine>, n: word, b: word)
    requires Simulates(step, SIZE) && trace != [] && IsTrace(step, trace)
    requires Setting(trace[0].mem, n, b) && trace[0].ip == 0
    ensures |trace| <= Turns(n)
    ensures !step(trace[|trace| - 1]).Failed?
    ensures step(trace[|trace| - 1]).Exited? ==> Summed(trace[0], step(trace[|trace| - 1]).st, n, b)
  {
    StepComputesSum(step, trace[0], n, b, Turns(n));
    TraceBeforeExit(step, trace, Turns(n));
  }
}
