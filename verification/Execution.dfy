/** What one instruction does to the machine, stated without the functions that `Machine.Exec` is made of: the operand
    it reads, the bits it changes, the clocks it takes, and that nothing else changes. */
module Execution {
  import opened Options
  import opened Words
  import opened Isa
  import opened Grammar
  import opened GrammarFacts
  import opened Runs
  import opened Machine
  import opened MachineFacts

  // ----- addresses and timing -----

  /** Which registers an effective address adds to its displacement. */
  lemma AddressOfPair(st: Machine, d: int16)
    ensures Address(st, BxSi, d) == (Read(st, BX) + Read(st, SI) + d) % 0x1_0000
    ensures Address(st, BxDi, d) == (Read(st, BX) + Read(st, DI) + d) % 0x1_0000
    ensures Address(st, BpSi, d) == (Read(st, BP) + Read(st, SI) + d) % 0x1_0000
    ensures Address(st, BpDi, d) == (Read(st, BP) + Read(st, DI) + d) % 0x1_0000
  {
  }

  lemma AddressOfSingle(st: Machine, d: int16)
    ensures Address(st, OnlySi, d) == (Read(st, SI) + d) % 0x1_0000
    ensures Address(st, OnlyDi, d) == (Read(st, DI) + d) % 0x1_0000
    ensures Address(st, OnlyBp, d) == (Read(st, BP) + d) % 0x1_0000
    ensures Address(st, OnlyBx, d) == (Read(st, BX) + d) % 0x1_0000
  {
  }

  /** The clocks of an effective address depend on how many registers and displacements are added, and on which pair of
      registers it is. */
  lemma AddressClocks(b: Base, d: int16)
    ensures Reg2(b) == MaxReg ==> EaClocks(b, d) == if d == 0 then 5 else 9
    ensures (Reg1(b) == BP && Reg2(b) == DI) || (Reg1(b) == BX && Reg2(b) == SI)
            ==> EaClocks(b, d) == if d == 0 then 7 else 11
    ensures (Reg1(b) == BP && Reg2(b) == SI) || (Reg1(b) == BX && Reg2(b) == DI)
            ==> EaClocks(b, d) == if d == 0 then 8 else 12
  {
  }

  // ----- frames -----

  /** The instruction is over: past its bytes, after its clocks, segment registers as before. */
  predicate Passed(st: Machine, t: Machine, len: byte, clocks: nat) {
    t.segs == st.segs && t.ip == (st.ip + len) % 0x1_0000 && t.clocks == (st.clocks + clocks) % 0x1_0000
  }

  /** No register but those that share storage with `r` changed. */
  predicate OthersKept(st: Machine, t: Machine, r: Reg)
    requires r != MaxReg
  {
    forall p: Reg :: p != MaxReg && !Overlap(r, p) ==> Read(t, p) == Read(st, p)
  }

  /** `t` has the registers of `st` after writing `v` to `r`. */
  lemma Written(st: Machine, t: Machine, r: Reg, v: word)
    requires r != MaxReg && t.regs == Write(st, r, v).regs
    ensures Read(t, r) == Narrow(v, r) && OthersKept(st, t, r)
  {
    ReadAfterWrite(st, r, v, r);
    forall p: Reg | p != MaxReg && !Overlap(r, p)
      ensures Read(t, p) == Read(st, p)
    {
      ReadAfterWrite(st, r, v, p);
    }
  }

  // ----- MOV -----

  /** A MOV into a register: from a register, an immediate or a segment register it stores that value, cut to the
      width; from memory one byte, whatever the width, and for an effective address that at the address without its
      displacement. */
  lemma MoveToRegister(st: Machine, r: Reg, src: Operand, h: Hint, k: Hint, len: byte)
    requires r != MaxReg && src != Register(MaxReg) && src != Segment(MaxSegReg)
    ensures Exec(st, Two(Mov, Register(r), src, h, k), len).Some?
    ensures var t := Exec(st, Two(Mov, Register(r), src, h, k), len).value;
            && t.mem == st.mem && t.flags == st.flags && OthersKept(st, t, r)
            && (src.Register? ==> Read(t, r) == Narrow(Read(st, src.reg), r) && Passed(st, t, len, 2))
            && (src.Segment? ==> Read(t, r) == Narrow(st.segs[SegIndex(src.seg)], r) && Passed(st, t, len, 0))
            && (src.Immediate? ==> Read(t, r) == src.data % Modulus(r) && Passed(st, t, len, 4))
            && (src.Direct? ==> Read(t, r) == st.mem[src.address] && Passed(st, t, len, 14))
            && (src.Effective? ==> Read(t, r) == st.mem[Address(st, src.base, 0)]
                                   && Passed(st, t, len, 8 + EaClocks(src.base, src.displacement)))
  {
    var v := MovValue(st, src);
    Written(st, Exec(st, Two(Mov, Register(r), src, h, k), len).value, r, v);
    match src {
      case Immediate(v) => CutOnce(v, v, 0, r);
      case Direct(a) => NarrowByte(st.mem[a], r);
      case Effective(b, d) => NarrowByte(st.mem[Address(st, b, 0)], r);
      case _ =>
    }
  }

  /** A MOV into a segment register stores the 16-bit value of its source and takes no clocks. */
  lemma MoveToSegment(st: Machine, s: SegReg, src: Operand, h: Hint, k: Hint, len: byte)
    requires s != MaxSegReg && src != Register(MaxReg) && src != Segment(MaxSegReg) && !IsMemory(src)
    ensures Exec(st, Two(Mov, Segment(s), src, h, k), len).Some?
    ensures var t := Exec(st, Two(Mov, Segment(s), src, h, k), len).value;
            && t.mem == st.mem && t.flags == st.flags && t.regs == st.regs && t.clocks == st.clocks
            && t.ip == (st.ip + len) % 0x1_0000
            && (src.Register? ==> t.segs == st.segs[SegIndex(s) := Read(st, src.reg)])
            && (src.Segment? ==> t.segs == st.segs[SegIndex(s) := st.segs[SegIndex(src.seg)]])
            && (src.Immediate? ==> t.segs == st.segs[SegIndex(s) := src.data % 0x1_0000])
  {
  }

  /** A MOV to memory stores the low byte of its source, whatever the width. */
  lemma MoveToMemory(st: Machine, dst: Operand, src: Operand, h: Hint, k: Hint, len: byte)
    requires src != Register(MaxReg) && (src.Immediate? || (src.Register? && dst.Effective?)) && IsMemory(dst)
    ensures Exec(st, Two(Mov, dst, src, h, k), len).Some?
    ensures var t := Exec(st, Two(Mov, dst, src, h, k), len).value;
            var a := if dst.Direct? then dst.address else Address(st, dst.base, dst.displacement);
            && t.regs == st.regs && t.flags == st.flags
            && t.mem == st.mem[a := (if src.Register? then Read(st, src.reg) else src.data) % 0x100]
            && Passed(st, t, len, if src.Register? then 9 + EaClocks(dst.base, dst.displacement) else 0)
  {
  }

  // ----- ADD, SUB and CMP -----

  /** Z and S are those of a 16-bit result, and the other flags as before. */
  predicate Flagged(before: bv16, after: bv16, value: int) {
    && (IsZSet(after) <==> value % 0x1_0000 == 0)
    && (IsSSet(after) <==> value % 0x1_0000 >= 0x8000)
    && after & 0xFF3F == before & 0xFF3F
  }

  lemma FlaggedBy(flags: bv16, a: int, v: int)
    ensures Flagged(flags, EvalFlags(flags, U16(a + U16(v))), a + v)
    ensures Flagged(flags, EvalFlags(flags, U16(a - U16(v))), a - v)
  {
    CutOnceMore(a, v);
    FlagsOfValue(flags, U16(a + v));
    FlagsOfValue(flags, U16(a - v));
  }

  /** What ADD stores and SUB stores and CMP compares with zero, before any cut. */
  function Result(st: Machine, op: Op, r: Reg, src: Operand): int
    requires r != MaxReg && src != Register(MaxReg) && (src.Register? || src.Immediate?)
  {
    var v: int := if src.Register? then Read(st, src.reg) else src.data;
    if op == Add then Read(st, r) + v else Read(st, r) - v
  }

  function ClocksOf(op: Op, src: Operand): nat {
    if op != Add then 0 else if src.Register? then 3 else 4
  }

  /** ADD and SUB cut the result to the width and store it, CMP stores nothing, and all three set the flags from it in
      16 bits; only ADD takes clocks. */
  predicate Computed(st: Machine, t: Machine, op: Op, r: Reg, src: Operand, len: byte)
    requires r != MaxReg && src != Register(MaxReg) && (src.Register? || src.Immediate?)
  {
    && (if op == Cmp then t.regs == st.regs
        else Read(t, r) == Narrow(Result(st, op, r, src), r) && OthersKept(st, t, r))
    && Flagged(st.flags, t.flags, Result(st, op, r, src)) && t.mem == st.mem
    && Passed(st, t, len, ClocksOf(op, src))
  }

  lemma CutResult(a: int, v: int, r: Reg)
    ensures Narrow(U16(a + U16(v)), r) == Narrow(a + v, r) && Narrow(U16(a - U16(v)), r) == Narrow(a - v, r)
  {
    CutSum(a, v, r);
  }

  /** The same for a result `x` and a number of clocks. */
  predicate Left(st: Machine, t: Machine, r: Reg, stored: bool, x: int, len: byte, clocks: nat)
    requires r != MaxReg
  {
    && (if stored then Read(t, r) == Narrow(x, r) && OthersKept(st, t, r) else t.regs == st.regs)
    && Flagged(st.flags, t.flags, x) && t.mem == st.mem && Passed(st, t, len, clocks)
  }

  lemma Accumulated(st: Machine, r: Reg, v: int, len: byte, clocks: nat)
    requires r != MaxReg
    ensures Left(st, Advance(Tick(Accumulate(st, r, U16(v)), clocks), len), r, true, Read(st, r) + v, len, clocks)
  {
    FlaggedBy(st.flags, Read(st, r), v);
    CutResult(Read(st, r), v, r);
    Written(st, Advance(Tick(Accumulate(st, r, U16(v)), clocks), len), r, U16(Read(st, r) + U16(v)));
  }

  lemma Subtracted(st: Machine, r: Reg, v: int, len: byte)
    requires r != MaxReg
    ensures Left(st, Advance(Subtract(st, r, U16(v), true), len), r, true, Read(st, r) - v, len, 0)
  {
    FlaggedBy(st.flags, Read(st, r), v);
    CutResult(Read(st, r), v, r);
    Written(st, Advance(Subtract(st, r, U16(v), true), len), r, U16(Read(st, r) - U16(v)));
  }

  lemma Compared(st: Machine, r: Reg, v: int, len: byte)
    requires r != MaxReg
    ensures Left(st, Advance(Subtract(st, r, U16(v), false), len), r, false, Read(st, r) - v, len, 0)
  {
    FlaggedBy(st.flags, Read(st, r), v);
  }

  lemma LeftIsComputed(st: Machine, t: Machine, op: Op, r: Reg, src: Operand, stored: bool, x: int, len: byte,
                       clocks: nat)
    requires r != MaxReg && src != Register(MaxReg) && (src.Register? || src.Immediate?)
    requires stored == (op != Cmp) && x == Result(st, op, r, src)
    requires clocks == ClocksOf(op, src)
    requires Left(st, t, r, stored, x, len, clocks)
    ensures Computed(st, t, op, r, src, len)
  {
  }

  lemma SumComputed(st: Machine, r: Reg, src: Operand, v: int, clocks: nat, len: byte)
    requires r != MaxReg && src != Register(MaxReg) && (src.Register? || src.Immediate?)
    requires v == SourceNumber(st, src) && clocks == ClocksOf(Add, src)
    ensures Computed(st, Advance(Tick(Accumulate(st, r, U16(v)), clocks), len), Add, r, src, len)
  {
    assert Result(st, Add, r, src) == Read(st, r) + v;
    Accumulated(st, r, v, len, clocks);
    LeftIsComputed(st, Advance(Tick(Accumulate(st, r, U16(v)), clocks), len), Add, r, src, true, Read(st, r) + v, len,
                   clocks);
  }

  /** ADD into a register stores the sum and sets the flags from it. */
  lemma AddToRegister(st: Machine, r: Reg, src: Operand, h: Hint, k: Hint, len: byte)
    requires r != MaxReg && src != Register(MaxReg) && (src.Register? || src.Immediate?)
    ensures Exec(st, Two(Add, Register(r), src, h, k), len).Some?
    ensures Computed(st, Exec(st, Two(Add, Register(r), src, h, k), len).value, Add, r, src, len)
  {
    var v := SourceNumber(st, src);
    ArithmeticOfSource(st, r, src);
    SumComputed(st, r, src, v, ClocksOf(Add, src), len);
    assert Exec(st, Two(Add, Register(r), src, h, k), len)
        == Some(Advance(Tick(Accumulate(st, r, U16(v)), ClocksOf(Add, src)), len));
  }

  lemma DifferenceComputed(st: Machine, r: Reg, src: Operand, v: int, len: byte)
    requires r != MaxReg && src != Register(MaxReg) && (src.Register? || src.Immediate?)
    requires v == SourceNumber(st, src)
    ensures Computed(st, Advance(Subtract(st, r, U16(v), true), len), Sub, r, src, len)
  {
    assert Result(st, Sub, r, src) == Read(st, r) - v;
    Subtracted(st, r, v, len);
    LeftIsComputed(st, Advance(Subtract(st, r, U16(v), true), len), Sub, r, src, true, Read(st, r) - v, len,
                   0);
  }

  /** SUB stores the difference. */
  lemma SubtractFromRegister(st: Machine, r: Reg, src: Operand, h: Hint, k: Hint, len: byte)
    requires r != MaxReg && src != Register(MaxReg) && (src.Register? || src.Immediate?)
    ensures Exec(st, Two(Sub, Register(r), src, h, k), len).Some?
    ensures Computed(st, Exec(st, Two(Sub, Register(r), src, h, k), len).value, Sub, r, src, len)
  {
    var v := SourceNumber(st, src);
    ArithmeticOfSource(st, r, src);
    DifferenceComputed(st, r, src, v, len);
    assert Exec(st, Two(Sub, Register(r), src, h, k), len)
        == Some(Advance(Subtract(st, r, U16(v), true), len));
  }

  lemma ComparisonComputed(st: Machine, r: Reg, src: Operand, v: int, len: byte)
    requires r != MaxReg && src != Register(MaxReg) && (src.Register? || src.Immediate?)
    requires v == SourceNumber(st, src)
    ensures Computed(st, Advance(Subtract(st, r, U16(v), false), len), Cmp, r, src, len)
  {
    assert Result(st, Cmp, r, src) == Read(st, r) - v;
    Compared(st, r, v, len);
    LeftIsComputed(st, Advance(Subtract(st, r, U16(v), false), len), Cmp, r, src, false, Read(st, r) - v, len,
                   0);
  }

  /** CMP just sets the flags from it. */
  lemma CompareRegister(st: Machine, r: Reg, src: Operand, h: Hint, k: Hint, len: byte)
    requires r != MaxReg && src != Register(MaxReg) && (src.Register? || src.Immediate?)
    ensures Exec(st, Two(Cmp, Register(r), src, h, k), len).Some?
    ensures Computed(st, Exec(st, Two(Cmp, Register(r), src, h, k), len).value, Cmp, r, src, len)
  {
    var v := SourceNumber(st, src);
    ArithmeticOfSource(st, r, src);
    ComparisonComputed(st, r, src, v, len);
    assert Exec(st, Two(Cmp, Register(r), src, h, k), len)
        == Some(Advance(Subtract(st, r, U16(v), false), len));
  }

  lemma AccumulatedByte(st: Machine, r: Reg, b: Base, d: int16, len: byte)
    requires r != MaxReg
    ensures var t, a := Advance(AddLoad(st, r, b, d), len), Address(st, b, d);
            && Read(t, r) == (Read(st, r) + st.mem[a]) % Modulus(r) && OthersKept(st, t, r)
            && t.mem == st.mem && t.flags == st.flags
            && Passed(st, t, len, if a % 2 == 0 then 9 + EaClocks(b, d) else 13 + EaClocks(b, d))
  {
    var t := Advance(AddLoad(st, r, b, d), len);
    AddLoadCase(st, r, b, d);
    assert Read(t, r) == Read(AddLoad(st, r, b, d), r);
    Written(st, t, r, U16(Read(st, r) + st.mem[Address(st, b, d)]));
  }

  /** ADD from memory adds one byte and keeps the flags; an odd address costs four clocks. */
  lemma AddFromMemory(st: Machine, r: Reg, b: Base, d: int16, h: Hint, k: Hint, len: byte)
    requires r != MaxReg
    ensures Exec(st, Two(Add, Register(r), Effective(b, d), h, k), len).Some?
    ensures var t := Exec(st, Two(Add, Register(r), Effective(b, d), h, k), len).value;
            var a := Address(st, b, d);
            && Read(t, r) == (Read(st, r) + st.mem[a]) % Modulus(r) && OthersKept(st, t, r)
            && t.mem == st.mem && t.flags == st.flags
            && Passed(st, t, len, if a % 2 == 0 then 9 + EaClocks(b, d) else 13 + EaClocks(b, d))
  {
    AccumulatedByte(st, r, b, d, len);
  }

  /** ADD to memory changes one byte and keeps the flags; an odd address costs eight clocks. */
  lemma AddToMemory(st: Machine, b: Base, d: int16, src: Operand, h: Hint, k: Hint, len: byte)
    requires src != Register(MaxReg) && (src.Register? || src.Immediate?)
    ensures Exec(st, Two(Add, Effective(b, d), src, h, k), len).Some?
    ensures var t := Exec(st, Two(Add, Effective(b, d), src, h, k), len).value;
            var a := Address(st, b, d);
            && t.regs == st.regs && t.flags == st.flags
            && t.mem == st.mem[a := (st.mem[a] + if src.Register? then Read(st, src.reg) else src.data) % 0x100]
            && Passed(st, t, len, (if src.Register? then 16 else 17) + EaClocks(b, d) + if a % 2 == 0 then 0 else 8)
  {
  }

  // ----- jumps -----

  lemma AddedTwice(ip: int, len: int, offset: int)
    ensures (((ip + len) % 0x1_0000) + offset) % 0x1_0000 == (ip + len + offset) % 0x1_0000
  {
    ModShift(ip + len + offset, -((ip + len) / 0x1_0000));
  }

  /** JNZ jumps, from the next instruction, exactly when Z is clear; it changes nothing else. */
  lemma JumpIfNotZero(st: Machine, offset: int16, len: byte)
    ensures Exec(st, Short(Jnz, offset), len)
            == Some(st.(ip := (if IsZSet(st.flags) then st.ip + len else st.ip + len + offset) % 0x1_0000))
  {
    AddedTwice(st.ip, len, offset);
  }

  lemma FlagsOfCount(flags: bv16, cx: word)
    ensures Flagged(flags, EvalFlags(flags, U16(cx - 1)), cx - 1)
    ensures IsZSet(EvalFlags(flags, U16(cx - 1))) <==> cx == 1
  {
    FlagsOfValue(flags, U16(cx - 1));
    assert U16(cx - 1) == 0 <==> cx == 1;
  }

  /** The state before LOOP decides whether to jump. */
  function Counted(st: Machine): Machine {
    var cx := U16(Read(st, CX) - 1);
    Write(st, CX, cx).(flags := EvalFlags(st.flags, cx))
  }

  lemma CountedRegisters(st: Machine)
    ensures Read(Counted(st), CX) == (Read(st, CX) - 1) % 0x1_0000 && OthersKept(st, Counted(st), CX)
  {
    var cx := U16(Read(st, CX) - 1);
    Written(st, Counted(st), CX, cx);
    WordIsCut(cx);
  }

  lemma CountedFlags(st: Machine)
    ensures Flagged(st.flags, Counted(st).flags, Read(st, CX) - 1)
    ensures IsZSet(Counted(st).flags) <==> Read(st, CX) == 1
  {
    FlagsOfCount(st.flags, Read(st, CX));
  }

  /** CX is one lower, the flags say so, and `t` is past `len` bytes, or `offset` further unless CX became zero. */
  predicate CountedTo(st: Machine, t: Machine, offset: int, len: int) {
    && Read(t, CX) == (Read(st, CX) - 1) % 0x1_0000 && OthersKept(st, t, CX)
    && Flagged(st.flags, t.flags, Read(st, CX) - 1)
    && t.mem == st.mem && t.segs == st.segs && t.clocks == st.clocks
    && t.ip == (if Read(st, CX) == 1 then st.ip + len else st.ip + len + offset) % 0x1_0000
  }

  /** LOOP counts CX down, sets the flags from it, and jumps unless it became zero. */
  lemma LoopCountsDown(st: Machine, offset: int16, len: byte)
    ensures Exec(st, Short(Loop, offset), len).Some?
    ensures CountedTo(st, Exec(st, Short(Loop, offset), len).value, offset, len)
  {
    var next := Advance(st, len);
    CountedRegisters(next);
    CountedFlags(next);
    AddedTwice(st.ip, len, offset);
    assert forall p: Reg :: p != MaxReg ==> Read(next, p) == Read(st, p);
    assert Exec(st, Short(Loop, offset), len) == Some(ExecLoop(next, offset));
  }
}
