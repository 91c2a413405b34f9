/** From bytes to registers: where an instruction of the encoding tables has no memory operand, one step of the
    simulator does to the machine what the instruction says. */
module Conformance {
  import opened Options
  import opened Words
  import opened Isa
  import opened Grammar
  import opened GrammarFacts
  import opened Runs
  import opened Machine
  import opened MachineFacts
  import opened Execution
  import opened Loops
  import opened Manual

  /** The bytes at the instruction pointer, inside a program of `n` bytes, encode `e`. */
  predicate Encoded(st: Machine, n: nat, e: Encoding) {
    st.ip < n && ManualDecode(st.mem[st.ip..]) == e && e != Outside
    && (e.Encodes? ==> !IsMemory(e.dst) && !IsMemory(e.src))
  }

  lemma StepEncoded(st: Machine, n: nat, e: Encoding) returns (i: Instr, len: byte)
    requires Encoded(st, n, e)
    ensures Agrees(i, len, e) && NamesRegisters(i)
    ensures Exec(st, i, len).Some? ==> Step(st, n) == Running(Exec(st, i, len).value)
  {
    DecodeConforms(st.mem[st.ip..]);
    FetchNamesRegisters(st);
    i, len := Fetch(st).instr, Fetch(st).len;
    assert Step(st, n) == Perform(st, Fetch(st));
  }

  /** The instruction at `ip` reaches beyond the memory. */
  predicate Overhangs(st: Machine) {
    var f := Classify(st.mem[st.ip]);
    f != NoForm && (st.ip == 0xFFFF || st.ip + Length(f, st.mem[st.ip + 1]) > 0x1_0000)
  }

  lemma FetchOutcome(st: Machine)
    ensures Fetch(st) == Unknown <==> Classify(st.mem[st.ip]) == NoForm
    ensures Fetch(st) == ReadsPastEnd <==> Overhangs(st)
  {
    var s := st.mem[st.ip..];
    assert s[0] == st.mem[st.ip] && |s| == 0x1_0000 - st.ip;
    if |s| >= 2 {
      assert s[1] == st.mem[st.ip + 1];
    }
  }

  /** Exactly when a step exits, and exactly which fault it meets; otherwise the machine runs on. */
  lemma StepOutcome(st: Machine, n: nat)
    ensures Step(st, n) == Exited(st) <==> st.ip >= n
    ensures Step(st, n) == Failed(BadOpcode) <==> st.ip < n && Classify(st.mem[st.ip]) == NoForm
    ensures Step(st, n) == Failed(OutsideMemory) <==> st.ip < n && Overhangs(st)
    ensures Step(st, n) == Failed(Unsupported) <==>
            st.ip < n && Fetch(st).Decoded? && !Supported(Fetch(st).instr)
  {
    FetchOutcome(st);
    FetchNamesRegisters(st);
    if Fetch(st).Decoded? {
      SupportedExactly(st, Fetch(st).instr, Fetch(st).len);
    }
  }

  /** A register of a width. */
  predicate OfWidth(o: Operand, wide: bool) {
    o.Register? ==> o.reg != MaxReg && (IsNarrow(o.reg) <==> !wide)
  }

  lemma ManualRegWidth(field: int, w: bool)
    ensures OfWidth(Register(ManualReg(field, w)), w)
  {
  }

  lemma ManualPlaceWidth(s: seq<byte>, w: bool)
    requires |s| >= 2 && |s| >= 2 + ManualDisp(s[1] / 64, s[1] % 8)
    ensures OfWidth(ManualPlace(s, w), w) && !ManualPlace(s, w).Segment? && !ManualPlace(s, w).Immediate?
  {
    ManualRegWidth(s[1] % 8, w);
  }

  lemma EncodedWidths(f: Form, s: seq<byte>)
    requires ManualFits(f, s)
    ensures var e := ManualMeaning(f, s); e.Encodes? ==> OfWidth(e.dst, e.wide) && OfWidth(e.src, e.wide)
  {
    ManualRegWidth(s[1] / 8 % 8, Width(f));
    ManualRegWidth(0, Width(f));
    if HasModRm(f) {
      ManualPlaceWidth(s, Width(f));
    }
    if f.ImmToReg? {
      ManualRegWidth(f.reg, f.w);
    }
  }

  lemma Widths(st: Machine, n: nat, e: Encoding)
    requires Encoded(st, n, e) && e.Encodes?
    ensures OfWidth(e.dst, e.wide) && OfWidth(e.src, e.wide)
  {
    var s := st.mem[st.ip..];
    EncodedWidths(Classify(s[0]), s);
  }

  /** All of the machine but registers, flags and clock, after an instruction of `len` bytes. */
  predicate Rest(st: Machine, t: Machine, len: int) {
    t.mem == st.mem && t.segs == st.segs && t.ip == (st.ip + len) % 0x1_0000
  }

  lemma ReadFits(st: Machine, r: Reg, q: Reg)
    requires r != MaxReg && q != MaxReg && (IsNarrow(r) <==> IsNarrow(q))
    ensures Narrow(Read(st, q), r) == Read(st, q)
  {
    WordIsCut(Read(st, q));
    if IsNarrow(q) {
      NarrowRead(st, q);
      NarrowByte(Read(st, q), r);
    }
  }

  lemma SameModulo(a: int, b: int, x: int)
    requires a % 0x100 == b % 0x100
    ensures (x + a) % 0x100 == (x + b) % 0x100 && (x - a) % 0x100 == (x - b) % 0x100
  {
    var k := a / 0x100 - b / 0x100;
    assert a == b + 0x100 * k;
    ModShift(x + b, k);
    ModShift(x - b, -k);
  }

  /** MOV between registers copies the source. */
  lemma RegisterMove(st: Machine, n: nat, r: Reg, q: Reg, wide: bool, len: int)
    requires Encoded(st, n, Encodes(Mov, Register(r), Register(q), wide, len))
    ensures r != MaxReg && q != MaxReg && Step(st, n).Running?
    ensures var t := Step(st, n).st;
            Read(t, r) == Read(st, q) && OthersKept(st, t, r) && t.flags == st.flags && Rest(st, t, len)
  {
    var e := Encodes(Mov, Register(r), Register(q), wide, len);
    var i, l := StepEncoded(st, n, e);
    Widths(st, n, e);
    MoveToRegister(st, r, Register(q), i.dstHint, i.srcHint, l);
    ReadFits(st, r, q);
  }

  /** MOV of an immediate stores it. */
  lemma ImmediateMove(st: Machine, n: nat, r: Reg, v: int16, wide: bool, len: int)
    requires Encoded(st, n, Encodes(Mov, Register(r), Immediate(v), wide, len))
    ensures r != MaxReg && Step(st, n).Running?
    ensures var t := Step(st, n).st;
            Read(t, r) == v % Modulus(r) && OthersKept(st, t, r) && t.flags == st.flags && Rest(st, t, len)
  {
    var e := Encodes(Mov, Register(r), Immediate(v), wide, len);
    var i, l := StepEncoded(st, n, e);
    Widths(st, n, e);
    MoveToRegister(st, r, i.src, i.dstHint, i.srcHint, l);
  }

  /** 89 DD: BP becomes BX, which may be anything. */
  lemma MoveBpBx(st: Machine, n: nat)
    requires st.ip < n && st.ip < 0xFFFF && st.mem[st.ip] == 0x89 && st.mem[st.ip + 1] == 0xDD
    ensures Encoded(st, n, Encodes(Mov, Register(BP), Register(BX), true, 2))
    ensures Step(st, n).Running? && Read(Step(st, n).st, BP) == Read(st, BX)
  {
    assert Classify(0x89) == RegMem(Mov, false, true);
    RegisterMove(st, n, BP, BX, true, 2);
  }

  /** MOV into a segment register copies the source. */
  lemma MoveIntoSegment(st: Machine, n: nat, s: SegReg, r: Reg, len: int)
    requires s != MaxSegReg && Encoded(st, n, Encodes(Mov, Segment(s), Register(r), true, len))
    ensures r != MaxReg && Step(st, n).Running?
    ensures var t := Step(st, n).st;
            && t.segs == st.segs[SegIndex(s) := Read(st, r)] && t.regs == st.regs && t.flags == st.flags
            && t.mem == st.mem && t.ip == (st.ip + len) % 0x1_0000
  {
    var e := Encodes(Mov, Segment(s), Register(r), true, len);
    var i, l := StepEncoded(st, n, e);
    Widths(st, n, e);
    MoveToSegment(st, s, Register(r), i.dstHint, i.srcHint, l);
  }

  /** And out of one. */
  lemma MoveFromSegment(st: Machine, n: nat, s: SegReg, r: Reg, len: int)
    requires s != MaxSegReg && Encoded(st, n, Encodes(Mov, Register(r), Segment(s), true, len))
    ensures r != MaxReg && Step(st, n).Running?
    ensures var t := Step(st, n).st;
            Read(t, r) == st.segs[SegIndex(s)] && OthersKept(st, t, r) && t.flags == st.flags && Rest(st, t, len)
  {
    var e := Encodes(Mov, Register(r), Segment(s), true, len);
    var i, l := StepEncoded(st, n, e);
    Widths(st, n, e);
    MoveToRegister(st, r, Segment(s), i.dstHint, i.srcHint, l);
    WordIsCut(st.segs[SegIndex(s)]);
  }

  lemma SameResult(st: Machine, op: Op, r: Reg, src: Operand, other: Operand, wide: bool)
    requires r != MaxReg && (IsNarrow(r) <==> !wide)
    requires src != Register(MaxReg) && (src.Register? || src.Immediate?) && SameOperand(other, src, wide)
    ensures other != Register(MaxReg) && (other.Register? || other.Immediate?)
    ensures Narrow(Result(st, op, r, other), r) == Narrow(Result(st, op, r, src), r)
  {
    if src.Immediate? && !wide {
      SameModulo(other.data, src.data, Read(st, r));
    }
  }

  /** What an arithmetic instruction does according to the tables: for words the flags are those of the result. (For
      bytes see `NarrowSumFlags` and `NarrowDifferenceFlags`.) */
  predicate Obeys(st: Machine, t: Machine, op: Op, r: Reg, src: Operand, wide: bool, len: int)
    requires r != MaxReg && src != Register(MaxReg) && (src.Register? || src.Immediate?)
  {
    && (if op == Cmp then t.regs == st.regs
        else Read(t, r) == Narrow(Result(st, op, r, src), r) && OthersKept(st, t, r))
    && (wide ==> Flagged(st.flags, t.flags, Result(st, op, r, src))) && Rest(st, t, len)
  }

  lemma ComputedObeys(st: Machine, t: Machine, op: Op, r: Reg, src: Operand, other: Operand, wide: bool, len: byte)
    requires r != MaxReg && (IsNarrow(r) <==> !wide)
    requires src != Register(MaxReg) && (src.Register? || src.Immediate?) && SameOperand(other, src, wide)
    requires other != Register(MaxReg) && (other.Register? || other.Immediate?)
    requires Computed(st, t, op, r, other, len)
    ensures Obeys(st, t, op, r, src, wide, len)
  {
    SameResult(st, op, r, src, other, wide);
  }

  /** ADD of a register or an immediate stores the sum modulo the width. */
  lemma Addition(st: Machine, n: nat, r: Reg, src: Operand, wide: bool, len: int) returns (t: Machine)
    requires Encoded(st, n, Encodes(Add, Register(r), src, wide, len)) && (src.Register? || src.Immediate?)
    ensures r != MaxReg && src != Register(MaxReg)
    ensures Step(st, n) == Running(t) && Obeys(st, t, Add, r, src, wide, len)
  {
    var e := Encodes(Add, Register(r), src, wide, len);
    var i, l := StepEncoded(st, n, e);
    Widths(st, n, e);
    AddToRegister(st, r, i.src, i.dstHint, i.srcHint, l);
    t := Exec(st, i, l).value;
    ComputedObeys(st, t, Add, r, src, i.src, wide, l);
  }

  /** SUB stores the difference. */
  lemma Subtraction(st: Machine, n: nat, r: Reg, src: Operand, wide: bool, len: int) returns (t: Machine)
    requires Encoded(st, n, Encodes(Sub, Register(r), src, wide, len)) && (src.Register? || src.Immediate?)
    ensures r != MaxReg && src != Register(MaxReg)
    ensures Step(st, n) == Running(t) && Obeys(st, t, Sub, r, src, wide, len)
  {
    var e := Encodes(Sub, Register(r), src, wide, len);
    var i, l := StepEncoded(st, n, e);
    Widths(st, n, e);
    SubtractFromRegister(st, r, i.src, i.dstHint, i.srcHint, l);
    t := Exec(st, i, l).value;
    ComputedObeys(st, t, Sub, r, src, i.src, wide, l);
  }

  /** CMP stores nothing. */
  lemma Comparison(st: Machine, n: nat, r: Reg, src: Operand, wide: bool, len: int) returns (t: Machine)
    requires Encoded(st, n, Encodes(Cmp, Register(r), src, wide, len)) && (src.Register? || src.Immediate?)
    ensures r != MaxReg && src != Register(MaxReg)
    ensures Step(st, n) == Running(t) && Obeys(st, t, Cmp, r, src, wide, len)
  {
    var e := Encodes(Cmp, Register(r), src, wide, len);
    var i, l := StepEncoded(st, n, e);
    Widths(st, n, e);
    CompareRegister(st, r, i.src, i.dstHint, i.srcHint, l);
    t := Exec(st, i, l).value;
    ComputedObeys(st, t, Cmp, r, src, i.src, wide, l);
  }

  /** JNZ goes to the encoded distance from the next instruction exactly when Z is clear. */
  lemma JumpTaken(st: Machine, n: nat, displacement: int16, len: int)
    requires Encoded(st, n, Jumps(Jnz, displacement, len))
    ensures Step(st, n)
            == Running(st.(ip := (if IsZSet(st.flags) then st.ip + len else st.ip + len + displacement) % 0x1_0000))
  {
    var i, l := StepEncoded(st, n, Jumps(Jnz, displacement, len));
    JumpIfNotZero(st, displacement, l);
  }

  /** LOOP counts CX down and goes there unless it became zero. */
  lemma LoopTaken(st: Machine, n: nat, displacement: int16, len: int)
    requires Encoded(st, n, Jumps(Loop, displacement, len))
    ensures Step(st, n).Running? && CountedTo(st, Step(st, n).st, displacement, len)
  {
    var i, l := StepEncoded(st, n, Jumps(Loop, displacement, len));
    LoopCountsDown(st, displacement, l);
  }
}
