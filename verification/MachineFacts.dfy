/** Laws of the simulated machine: aliasing registers, flags, invariants of every run, and what the
    arithmetic instructions compute. */
module MachineFacts {
  import opened Options
  import opened Words
  import opened Isa
  import opened Grammar
  import opened GrammarFacts
  import opened Runs
  import opened Machine

  // ----- aliasing registers -----

  /** The value a register of this width can hold. */
  function Narrow(v: int, r: Reg): word {
    if IsNarrow(r) then U8(v) else U16(v)
  }

  /** Two names share storage when they name overlapping bits of one 16-bit register. */
  predicate Overlap(r: Reg, q: Reg) {
    Home(r) == Home(q) && !(IsLow(r) && IsHigh(q)) && !(IsHigh(r) && IsLow(q))
  }

  lemma TwoBytes(high: byte, low: byte)
    ensures (high * 0x100 + low) / 0x100 == high && (high * 0x100 + low) % 0x100 == low
  {
  }

  lemma MergeLow(before: word, r: Reg, v: word)
    requires IsLow(r)
    ensures Merge(before, r, v) / 0x100 == before / 0x100 && Merge(before, r, v) % 0x100 == v % 0x100
  {
    TwoBytes(before / 0x100, v % 0x100);
  }

  lemma MergeHigh(before: word, r: Reg, v: word)
    requires IsHigh(r)
    ensures Merge(before, r, v) / 0x100 == v % 0x100 && Merge(before, r, v) % 0x100 == before % 0x100
  {
    TwoBytes(v % 0x100, before % 0x100);
  }

  lemma WordIsCut(v: word)
    ensures U16(v) == v
  {
  }

  lemma PartAfterMerge(before: word, r: Reg, v: word, q: Reg)
    ensures q == r ==> Part(Merge(before, r, v), q) == Narrow(v, r)
    ensures (IsLow(r) && IsHigh(q)) || (IsHigh(r) && IsLow(q)) ==> Part(Merge(before, r, v), q) == Part(before, q)
  {
    if IsLow(r) {
      MergeLow(before, r, v);
    } else if IsHigh(r) {
      MergeHigh(before, r, v);
    } else {
      WordIsCut(v);
    }
  }

  lemma HomesDistinct(r: Reg, q: Reg)
    requires r != MaxReg && q != MaxReg
    ensures RegIndex(Home(r)) == RegIndex(Home(q)) <==> Home(r) == Home(q)
    ensures Home(r) == Home(q) && !IsLow(r) && !IsHigh(r) && !IsLow(q) && !IsHigh(q) ==> r == q
  {
  }

  /** Writing a register stores the value cut to its width, and changes exactly the names that overlap it. */
  lemma ReadAfterWrite(st: Machine, r: Reg, v: word, q: Reg)
    requires r != MaxReg && q != MaxReg
    ensures Read(Write(st, r, v), r) == Narrow(v, r)
    ensures !Overlap(r, q) ==> Read(Write(st, r, v), q) == Read(st, q)
  {
    var i := RegIndex(Home(r));
    HomesDistinct(r, q);
    PartAfterMerge(st.regs[i], r, v, r);
    PartAfterMerge(st.regs[i], r, v, q);
  }

  /** A 16-bit register is always its high half times 256 plus its low half. */
  lemma HalvesMakeWhole(st: Machine, high: Reg, low: Reg)
    requires IsHigh(high) && IsLow(low) && Home(high) == Home(low)
    ensures Read(st, Home(high)) == 0x100 * Read(st, high) + Read(st, low)
  {
    var v := st.regs[RegIndex(Home(high))];
    assert Read(st, Home(high)) == v;
  }

  // ----- flags -----

  lemma BitsSetAndClear(flags: bv16, z: bool, s: bool)
    ensures var f1 := if z then flags | 0x40 else flags & !0x40;
            var f2 := if s then f1 | 0x80 else f1 & !0x80;
            (((f2 & 0x40) >> 6 == 1) <==> z) && (((f2 & 0x80) >> 7 == 1) <==> s)
  {
  }

  /** Setting or clearing bits 6 and 7 touches nothing else. */
  lemma OtherBitsKept(flags: bv16, z: bool, s: bool)
    ensures var f1 := if z then flags | 0x40 else flags & !0x40;
            var f2 := if s then f1 | 0x80 else f1 & !0x80;
            f2 & 0xFF3F == flags & 0xFF3F
  {
    if z {
      assert (flags | 0x40) & 0xFF3F == flags & 0xFF3F;
    } else {
      assert (flags & !0x40) & 0xFF3F == flags & 0xFF3F;
    }
  }

  lemma FlagsOfValue(flags: bv16, value: word)
    ensures IsZSet(EvalFlags(flags, value)) <==> value == 0
    ensures IsSSet(EvalFlags(flags, value)) <==> value >= 0x8000
    ensures EvalFlags(flags, value) & 0xFF3F == flags & 0xFF3F
  {
    BitsSetAndClear(flags, value == 0, value >= 0x8000);
    OtherBitsKept(flags, value == 0, value >= 0x8000);
  }

  /** None, Z or S: never both, and no other bit. */
  predicate FlagsLegal(flags: bv16) {
    flags == 0 || flags == 0x40 || flags == 0x80
  }

  lemma FlagsStayLegal(flags: bv16, value: word)
    requires FlagsLegal(flags)
    ensures FlagsLegal(EvalFlags(flags, value))
  {
  }

  // ----- invariants of every run -----

  /** The eight slots of the half registers are never written. */
  predicate HalfSlotsZero(regs: Registers) {
    && regs[1] == 0 && regs[2] == 0 && regs[4] == 0 && regs[5] == 0
    && regs[7] == 0 && regs[8] == 0 && regs[10] == 0 && regs[11] == 0
  }

  predicate Inv(st: Machine) {
    HalfSlotsZero(st.regs) && FlagsLegal(st.flags)
  }

  lemma WriteKeepsHalfSlots(st: Machine, r: Reg, v: word)
    requires r != MaxReg && HalfSlotsZero(st.regs)
    ensures HalfSlotsZero(Write(st, r, v).regs)
  {
  }

  lemma AccumulateKeepsInv(st: Machine, r: Reg, v: word)
    requires r != MaxReg && Inv(st)
    ensures Inv(Accumulate(st, r, v))
  {
    var value := U16(Read(st, r) + v);
    FlagsStayLegal(st.flags, value);
    WriteKeepsHalfSlots(st.(flags := EvalFlags(st.flags, value)), r, value);
  }

  lemma ExecAddKeepsInv(st: Machine, dst: Operand, src: Operand)
    requires dst != Register(MaxReg) && src != Register(MaxReg) && Inv(st) && ExecAdd(st, dst, src).Some?
    ensures Inv(ExecAdd(st, dst, src).value)
  {
    if dst.Register? {
      match src {
        case Immediate(v) => AccumulateKeepsInv(st, dst.reg, U16(v));
        case Register(q) => AccumulateKeepsInv(st, dst.reg, Read(st, q));
        case Effective(b, d) =>
          WriteKeepsHalfSlots(st, dst.reg, U16(Read(st, dst.reg) + st.mem[Address(st, b, d)]));
        case _ =>
      }
    }
  }

  lemma SubtractKeepsInv(st: Machine, r: Reg, v: word, isSub: bool)
    requires r != MaxReg && Inv(st)
    ensures Inv(Subtract(st, r, v, isSub))
  {
    var value := U16(Read(st, r) - v);
    var flagged := st.(flags := EvalFlags(st.flags, value));
    FlagsStayLegal(st.flags, value);
    WriteKeepsHalfSlots(flagged, r, value);
    assert Subtract(st, r, v, isSub) == if isSub then Write(flagged, r, value) else flagged;
  }

  lemma ExecSubCmpKeepsInv(st: Machine, dst: Operand, src: Operand, isSub: bool)
    requires dst != Register(MaxReg) && src != Register(MaxReg) && Inv(st) && ExecSubCmp(st, dst, src, isSub).Some?
    ensures Inv(ExecSubCmp(st, dst, src, isSub).value)
  {
    SubtractKeepsInv(st, dst.reg, if src.Register? then Read(st, src.reg) else U16(src.data), isSub);
  }

  lemma ExecMovKeepsInv(st: Machine, dst: Operand, src: Operand)
    requires dst != Register(MaxReg) && dst != Segment(MaxSegReg)
    requires src != Register(MaxReg) && src != Segment(MaxSegReg)
    requires Inv(st) && ExecMov(st, dst, src).Some?
    ensures Inv(ExecMov(st, dst, src).value)
  {
    if dst.Register? {
      WriteKeepsHalfSlots(st, dst.reg, MovValue(st, src));
    }
  }

  lemma ExecJumpKeepsInv(st: Machine, op: Op, offset: int16, len: byte)
    requires Inv(st) && ExecJump(st, op, offset, len).Some?
    ensures Inv(ExecJump(st, op, offset, len).value)
  {
    var next := Advance(st, len);
    var cx := U16(Read(next, CX) - 1);
    WriteKeepsHalfSlots(next, CX, cx);
    FlagsStayLegal(st.flags, cx);
  }

  lemma ExecKeepsInv(st: Machine, i: Instr, len: byte)
    requires NamesRegisters(i) && Inv(st) && Exec(st, i, len).Some?
    ensures Inv(Exec(st, i, len).value)
  {
    match i {
      case Short(op, offset) => ExecJumpKeepsInv(st, op, offset, len);
      case Two(op, dst, src, _, _) =>
        match op {
          case Mov => ExecMovKeepsInv(st, dst, src);
          case Add => ExecAddKeepsInv(st, dst, src);
          case Sub => ExecSubCmpKeepsInv(st, dst, src, true);
          case Cmp => ExecSubCmpKeepsInv(st, dst, src, false);
          case _ =>
        }
    }
  }

  lemma StepKeepsInv(st: Machine, n: nat)
    requires Inv(st) && Step(st, n).Running?
    ensures Inv(Step(st, n).st)
  {
    FetchNamesRegisters(st);
    var d := Fetch(st);
    ExecKeepsInv(st, d.instr, d.len);
  }

  /** Whatever program is loaded and however long it runs, the half-register slots stay zero and the flags stay
      none, Z or S. */
  lemma RunKeepsInv(st: Machine, n: nat, steps: nat)
    requires Inv(st)
    ensures var o := Run(Stepper(n), st, steps); !o.Failed? ==> Inv(o.st)
  {
    forall s: Machine | Inv(s) && Stepper(n)(s).Running?
      ensures Inv(Stepper(n)(s).st)
    {
      StepKeepsInv(s, n);
    }
    RunKeeps(Stepper(n), Inv, st, steps);
  }

  // ----- what ADD, SUB and CMP compute -----

  function Modulus(r: Reg): int {
    if IsNarrow(r) then 0x100 else 0x1_0000
  }

  /** The source as a signed or unsigned number, before any cut to 16 bits. */
  function SourceNumber(st: Machine, src: Operand): int
    requires src != Register(MaxReg) && (src.Register? || src.Immediate?)
  {
    if src.Register? then Read(st, src.reg) else src.data
  }

  lemma WordRemainder(y: int, q: int, r: int)
    requires y == 0x1_0000 * q + r && 0 <= r < 0x1_0000
    ensures y % 0x1_0000 == r
  {
    assert y / 0x1_0000 == q;
  }

  lemma ByteRemainder(y: int, q: int, r: int)
    requires y == 0x100 * q + r && 0 <= r < 0x100
    ensures y % 0x100 == r
  {
    assert y / 0x100 == q;
  }

  lemma ModShift(x: int, j: int)
    ensures (x + 0x1_0000 * j) % 0x1_0000 == x % 0x1_0000
    ensures (x + 0x100 * j) % 0x100 == x % 0x100
  {
    WordRemainder(x + 0x1_0000 * j, x / 0x1_0000 + j, x % 0x1_0000);
    ByteRemainder(x + 0x100 * j, x / 0x100 + j, x % 0x100);
  }

  /** Cutting to 16 bits first, and to 8 bits after, is the same as cutting once. */
  lemma CutOnce(x: int, y: int, j: int, r: Reg)
    requires y == x + 0x1_0000 * j
    ensures Narrow(U16(y), r) == x % Modulus(r)
  {
    ModShift(x, j);
    if IsNarrow(r) {
      var k := U16(x);
      assert x == k + 0x1_0000 * (x / 0x1_0000);
      ModShift(k, 0x100 * (x / 0x1_0000));
    }
  }

  lemma CutSum(a: int, v: int, r: Reg)
    ensures Narrow(U16(a + U16(v)), r) == (a + v) % Modulus(r)
    ensures Narrow(U16(a - U16(v)), r) == (a - v) % Modulus(r)
  {
    var k := v / 0x1_0000;
    assert v == U16(v) + 0x1_0000 * k;
    CutOnce(a + v, a + U16(v), -k, r);
    CutOnce(a - v, a - U16(v), k, r);
  }

  /** ADD, SUB and CMP of a register or immediate are one sum or difference with the 16-bit source value. */
  lemma ArithmeticOfSource(st: Machine, r: Reg, src: Operand)
    requires r != MaxReg && src != Register(MaxReg) && (src.Register? || src.Immediate?)
    ensures var v := U16(SourceNumber(st, src));
            && ExecAdd(st, Register(r), src) == Some(Tick(Accumulate(st, r, v), if src.Register? then 3 else 4))
            && ExecSubCmp(st, Register(r), src, true) == Some(Subtract(st, r, v, true))
            && ExecSubCmp(st, Register(r), src, false) == Some(Subtract(st, r, v, false))
  {
    if src.Register? {
      WordIsCut(Read(st, src.reg));
    }
  }

  /** The sum is stored modulo the destination width, although it is computed in 16 bits from sign-extended
      immediates; registers that share no storage with the destination, memory and segment registers stay. */
  lemma SumResult(st: Machine, r: Reg, v: int, q: Reg)
    requires r != MaxReg && q != MaxReg
    ensures var done := Accumulate(st, r, U16(v));
            && Read(done, r) == (Read(st, r) + v) % Modulus(r)
            && (!Overlap(r, q) ==> Read(done, q) == Read(st, q))
            && done.mem == st.mem && done.segs == st.segs && done.ip == st.ip
  {
    CutSum(Read(st, r), v, r);
    var value := U16(Read(st, r) + U16(v));
    ReadAfterWrite(st.(flags := EvalFlags(st.flags, value)), r, value, q);
  }

  /** So is the difference. */
  lemma DifferenceResult(st: Machine, r: Reg, v: int, q: Reg)
    requires r != MaxReg && q != MaxReg
    ensures var done := Subtract(st, r, U16(v), true);
            && Read(done, r) == (Read(st, r) - v) % Modulus(r)
            && (!Overlap(r, q) ==> Read(done, q) == Read(st, q))
            && done.mem == st.mem && done.segs == st.segs && done.ip == st.ip && done.clocks == st.clocks
  {
    CutSum(Read(st, r), v, r);
    var value := U16(Read(st, r) - U16(v));
    ReadAfterWrite(st.(flags := EvalFlags(st.flags, value)), r, value, q);
  }

  /** CMP sets the flags SUB would, and changes nothing else. */
  lemma CmpIsSubWithoutResult(st: Machine, r: Reg, v: word)
    requires r != MaxReg
    ensures Subtract(st, r, v, false) == st.(flags := Subtract(st, r, v, true).flags)
  {
  }

  // ----- what the flags say -----

  predicate ZAndS(flags: bv16, value: int, modulus: int) {
    (IsZSet(flags) <==> value == 0) && (IsSSet(flags) <==> 2 * value >= modulus)
  }

  lemma CutOnceMore(a: int, v: int)
    ensures U16(a + U16(v)) == U16(a + v) && U16(a - U16(v)) == U16(a - v)
  {
    var k := v / 0x1_0000;
    ModShift(a + v, -k);
    ModShift(a - v, k);
  }

  lemma FlagsOfWide(flags: bv16, value: word)
    ensures ZAndS(EvalFlags(flags, value), value, 0x1_0000)
  {
    FlagsOfValue(flags, value);
  }

  /** For 16-bit operands Z and S describe the stored result. */
  lemma WideFlags(st: Machine, r: Reg, v: int)
    requires r != MaxReg && !IsNarrow(r)
    ensures ZAndS(Accumulate(st, r, U16(v)).flags, (Read(st, r) + v) % 0x1_0000, 0x1_0000)
    ensures ZAndS(Subtract(st, r, U16(v), true).flags, (Read(st, r) - v) % 0x1_0000, 0x1_0000)
  {
    var a: int := Read(st, r);
    CutOnceMore(a, v);
    FlagsOfWide(st.flags, U16(a + U16(v)));
    FlagsOfWide(st.flags, U16(a - U16(v)));
  }

  lemma NarrowRead(st: Machine, r: Reg)
    requires IsNarrow(r)
    ensures 0 <= Read(st, r) < 0x100
  {
  }

  /** The numbers a byte instruction can add or subtract: the unsigned value of a byte register, or an immediate byte,
      sign-extended or not. */
  predicate ByteSource(v: int) {
    -0x80 <= v < 0x100
  }

  lemma ByteImmediate(f: Form, s: seq<byte>)
    requires IsForm(f) && Fits(f, s) && Meaning(f, s).Two? && IsArith(Meaning(f, s).op) && Meaning(f, s).src.Immediate?
    requires Meaning(f, s).dst.Register? && IsNarrow(Meaning(f, s).dst.reg)
    ensures ByteSource(Meaning(f, s).src.data)
  {
    if f.Group? {
      RegAtSized(Rm(s[1]), f.w);
    }
  }

  /** No other source reaches an 8-bit destination. */
  lemma DecodedByteSource(st: Machine, f: Form, s: seq<byte>)
    requires IsForm(f) && Fits(f, s) && Meaning(f, s).Two? && IsArith(Meaning(f, s).op)
    requires var m := Meaning(f, s);
             m.dst.Register? && IsNarrow(m.dst.reg) && (m.src.Register? || m.src.Immediate?)
    ensures Meaning(f, s).src != Register(MaxReg) && ByteSource(SourceNumber(st, Meaning(f, s).src))
  {
    var m := Meaning(f, s);
    MeaningWellFormed(f, s);
    if m.src.Register? {
      NarrowRead(st, m.src.reg);
    } else {
      ByteImmediate(f, s);
    }
  }

  /** The sum and the difference of a byte and a byte source, in 16 bits. */
  lemma ByteResults(a: int, v: int)
    requires 0 <= a < 0x100 && ByteSource(v)
    ensures U16(a + U16(v)) == if a + v < 0 then a + v + 0x1_0000 else a + v
    ensures U16(a - U16(v)) == if a - v < 0 then a - v + 0x1_0000 else a - v
  {
    CutOnceMore(a, v);
  }

  /** The low byte of a number that is at most two bytes away from it. */
  lemma LowByte(x: int)
    requires -0x100 <= x < 0x200
    ensures x % 0x100 == if x < 0 then x + 0x100 else if x < 0x100 then x else x - 0x100
  {
  }

  lemma FlagsOfSum(flags: bv16, a: int, v: int)
    requires 0 <= a < 0x100 && ByteSource(v)
    ensures ZAndS(EvalFlags(flags, U16(a + U16(v))), (a + v) % 0x100, 0x100)
            <==> a + v != 0x100 && (a + v < 0 || (a + v) % 0x100 < 0x80)
  {
    FlagsOfValue(flags, U16(a + U16(v)));
    ByteResults(a, v);
    LowByte(a + v);
  }

  /** The flags of an 8-bit sum are computed from the uncut 16-bit value. They describe the stored byte exactly when the
      sum does not carry out as zero and, unless it is negative, leaves bit 7 clear. */
  lemma NarrowSumFlags(st: Machine, r: Reg, v: int)
    requires IsNarrow(r) && ByteSource(v)
    ensures var a := Read(st, r);
            ZAndS(Accumulate(st, r, U16(v)).flags, (a + v) % 0x100, 0x100)
            <==> a + v != 0x100 && (a + v < 0 || (a + v) % 0x100 < 0x80)
  {
    NarrowRead(st, r);
    assert Accumulate(st, r, U16(v)).flags == EvalFlags(st.flags, U16(Read(st, r) + U16(v)));
    FlagsOfSum(st.flags, Read(st, r), v);
  }

  lemma FlagsOfDifference(flags: bv16, a: int, v: int)
    requires 0 <= a < 0x100 && ByteSource(v)
    ensures var d, f := a - v, EvalFlags(flags, U16(a - U16(v)));
            && (IsZSet(f) <==> d == 0) && (IsSSet(f) <==> d < 0)
            && ((IsZSet(f) <==> d % 0x100 == 0) <==> d != 0x100)
            && ((IsSSet(f) <==> 2 * (d % 0x100) >= 0x100) <==> -0x80 <= d < 0x80 || d >= 0x100)
            && (ZAndS(f, d % 0x100, 0x100) <==> -0x80 <= d < 0x80 || d > 0x100)
  {
    FlagsOfValue(flags, U16(a - U16(v)));
    ByteResults(a, v);
    LowByte(a - v);
  }

  /** Z of an 8-bit difference is right exactly when the true difference is not 256, S exactly when it fits in eight
      signed bits or is at least 256. */
  lemma NarrowDifferenceFlags(st: Machine, r: Reg, v: int, isSub: bool)
    requires IsNarrow(r) && ByteSource(v)
    ensures var d, flags := Read(st, r) - v, Subtract(st, r, U16(v), isSub).flags;
            && ((IsZSet(flags) <==> d % 0x100 == 0) <==> d != 0x100)
            && ((IsSSet(flags) <==> 2 * (d % 0x100) >= 0x100) <==> -0x80 <= d < 0x80 || d >= 0x100)
            && (ZAndS(flags, d % 0x100, 0x100) <==> -0x80 <= d < 0x80 || d > 0x100)
  {
    NarrowRead(st, r);
    assert Subtract(st, r, U16(v), isSub).flags == EvalFlags(st.flags, U16(Read(st, r) - U16(v)));
    FlagsOfDifference(st.flags, Read(st, r), v);
  }

  /** JNZ after a comparison jumps exactly when the operands differ as 16-bit values. */
  lemma CompareAndJump(st: Machine, r: Reg, v: int, m: byte, offset: int16, len: byte)
    requires r != MaxReg
    ensures var compared := Advance(Subtract(st, r, U16(v), false), m);
            ExecJump(compared, Jnz, offset, len)
              == Some(if Read(st, r) != U16(v) then Advance(Advance(compared, len), offset) else Advance(compared, len))
  {
    var a: int, w: int := Read(st, r), U16(v);
    FlagsOfValue(st.flags, U16(a - w));
    assert U16(a - w) == 0 <==> a == w;
  }

  lemma ByteAndWord(a: int, v: int)
    requires 0 <= a < 0x100 && ByteSource(v)
    ensures (a == U16(v) <==> a == U8(v)) <==> a - v != 0x100
  {
    LowByte(v);
  }

  /** So after a 16-bit comparison it jumps exactly when the operands differ; after an 8-bit comparison it does what the
      8-bit operands ask for exactly when their true difference is not 256. */
  lemma ByteCompareAndJump(st: Machine, r: Reg, v: int, m: byte, offset: int16, len: byte)
    requires IsNarrow(r) && ByteSource(v)
    ensures var compared := Advance(Subtract(st, r, U16(v), false), m);
            var after := Advance(compared, len);
            (ExecJump(compared, Jnz, offset, len)
             == Some(if Read(st, r) != U8(v) then Advance(after, offset) else after))
            <==> Read(st, r) - v != 0x100 || Advance(after, offset) == after
  {
    NarrowRead(st, r);
    CompareAndJump(st, r, v, m, offset, len);
    ByteAndWord(Read(st, r), v);
  }

  /** 3C FF, `cmp al, 0xFF`, with AL = 0xFF: the bytes are equal, but the immediate is decoded as -1, Z stays clear and
      a JNZ behind it jumps. */
  lemma EqualBytesCompareUnequal(st: Machine)
    requires Read(st, AL) == 0xFF
    ensures Decode([0x3C, 0xFF]) == Decoded(Two(Cmp, Register(AL), Immediate(-1), NoHint, NoHint), 2)
    ensures Exec(st, Two(Cmp, Register(AL), Immediate(-1), NoHint, NoHint), 2)
            == Some(Advance(Subtract(st, AL, U16(-1), false), 2))
    ensures (Read(st, AL) - -1) % 0x100 == 0 && !IsZSet(Subtract(st, AL, U16(-1), false).flags)
  {
    NarrowDifferenceFlags(st, AL, -1, false);
  }

  // ----- moves from and to memory -----

  /** The address behind `a`. */
  function Next(a: word): word {
    if a == 0xFFFF then 0 else a + 1
  }

  /** The byte or word that memory holds at `a`. */
  function Held(mem: seq<byte>, a: word, wide: bool): word
    requires |mem| == MEMORY_SIZE
  {
    if wide then LoHi(mem[a], mem[Next(a)]) else mem[a]
  }

  /** Memory after storing a byte or word. */
  function Stored(mem: seq<byte>, a: word, wide: bool, v: word): seq<byte>
    requires |mem| == MEMORY_SIZE
  {
    if wide then mem[a := v % 0x100][Next(a) := v / 0x100] else mem[a := U8(v)]
  }

  /** The state in which `a` holds `low` and the next address `high`; everything else is zero. */
  function BytesAt(a: word, low: byte, high: byte): Machine {
    var zeros: seq<byte> := seq(MEMORY_SIZE, _ => 0);
    State(zeros[Next(a) := high][a := low], seq(16, _ => 0), [0, 0, 0, 0], 0, 0, 0)
  }

  lemma BytesThere(a: word, low: byte, high: byte)
    ensures var mem := BytesAt(a, low, high).mem;
            mem[a] == low && mem[Next(a)] == high
            && forall k {:trigger mem[k]} :: 0 <= k < MEMORY_SIZE && k != a && k != Next(a) ==> mem[k] == 0
  {
  }

  lemma AddressOfZeros(regs: Registers, b: Base, d: int16)
    requires forall k :: 0 <= k < 16 ==> regs[k] == 0
    ensures AddressFrom(regs, b, d) == U16(d)
  {
  }

  lemma NarrowByte(v: byte, r: Reg)
    ensures Narrow(v, r) == v
  {
  }

  /** A load into `r` leaves there the byte at the address without displacement. */
  lemma LoadedByte(st: Machine, r: Reg, b: Base, d: int16)
    requires r != MaxReg
    ensures Read(MovRegister(st, r, Effective(b, d)), r) == st.mem[Address(st, b, 0)]
  {
    var v := st.mem[Address(st, b, 0)];
    ReadAfterWrite(st, r, v, r);
    NarrowByte(v, r);
    assert MovRegister(st, r, Effective(b, d)).regs == Write(st, r, v).regs;
  }

  /** Does a MOV from an effective address leave in `r` what the encoding asks for? */
  predicate LoadIsRight(st: Machine, r: Reg, b: Base, d: int16)
    requires r != MaxReg
  {
    Read(MovRegister(st, r, Effective(b, d)), r) == Held(st.mem, Address(st, b, d), !IsNarrow(r))
  }

  lemma LoadCase(st: Machine, r: Reg, b: Base, d: int16)
    requires r != MaxReg
    ensures LoadIsRight(st, r, b, d) <==> st.mem[Address(st, b, 0)] == Held(st.mem, Address(st, b, d), !IsNarrow(r))
  {
    LoadedByte(st, r, b, d);
  }

  /** The state in which it goes wrong: all registers zero, and a one at the address, or behind it. */
  function Witness(d: int16): Machine {
    if d != 0 then BytesAt(U16(d), 1, 0) else BytesAt(0, 0, 1)
  }

  lemma WitnessAddresses(b: Base, d: int16)
    ensures Address(Witness(d), b, d) == U16(d) && Address(Witness(d), b, 0) == 0
  {
    AddressOfZeros(Witness(d).regs, b, d);
    AddressOfZeros(Witness(d).regs, b, 0);
  }

  lemma WitnessBytes(r: Reg, d: int16)
    requires !(IsNarrow(r) && d == 0)
    ensures Witness(d).mem[0] == 0 && Held(Witness(d).mem, U16(d), !IsNarrow(r)) != 0
  {
    if d != 0 {
      BytesThere(U16(d), 1, 0);
    } else {
      BytesThere(0, 0, 1);
    }
  }

  lemma WrongLoad(r: Reg, b: Base, d: int16)
    requires r != MaxReg && !(IsNarrow(r) && d == 0)
    ensures !LoadIsRight(Witness(d), r, b, d)
  {
    WitnessAddresses(b, d);
    WitnessBytes(r, d);
    LoadCase(Witness(d), r, b, d);
  }

  /** A MOV from an effective address loads what the encoding asks for, in every machine state, exactly when the
      destination is a byte register and the encoded displacement is zero: the code reads one byte, and leaves the
      displacement out. */
  lemma LoadIsRightIff(r: Reg, b: Base, d: int16)
    requires r != MaxReg
    ensures (forall st: Machine :: LoadIsRight(st, r, b, d)) <==> IsNarrow(r) && d == 0
  {
    if IsNarrow(r) && d == 0 {
      forall st: Machine
        ensures LoadIsRight(st, r, b, d)
      {
        LoadCase(st, r, b, d);
      }
    } else {
      WrongLoad(r, b, d);
    }
  }

  predicate DirectLoadIsRight(st: Machine, r: Reg, a: word)
    requires r != MaxReg
  {
    Read(MovRegister(st, r, Direct(a)), r) == Held(st.mem, a, !IsNarrow(r))
  }

  lemma DirectLoadCase(st: Machine, r: Reg, a: word)
    requires r != MaxReg
    ensures DirectLoadIsRight(st, r, a) <==> st.mem[a] == Held(st.mem, a, !IsNarrow(r))
  {
    ReadAfterWrite(st, r, st.mem[a], r);
    NarrowByte(st.mem[a], r);
    assert MovRegister(st, r, Direct(a)).regs == Write(st, r, st.mem[a]).regs;
  }

  /** A MOV from a direct address does, exactly when the destination is a byte register. */
  lemma DirectLoadIsRightIff(r: Reg, a: word)
    requires r != MaxReg
    ensures (forall st: Machine :: DirectLoadIsRight(st, r, a)) <==> IsNarrow(r)
  {
    if IsNarrow(r) {
      forall st: Machine
        ensures DirectLoadIsRight(st, r, a)
      {
        DirectLoadCase(st, r, a);
      }
    } else {
      BytesThere(a, 0, 1);
      DirectLoadCase(BytesAt(a, 0, 1), r, a);
    }
  }

  predicate StoreIsRight(st: Machine, q: Reg, b: Base, d: int16)
    requires q != MaxReg
  {
    MovEffective(st, b, d, Register(q)).value.mem == Stored(st.mem, Address(st, b, d), !IsNarrow(q), Read(st, q))
  }

  /** A MOV from a register to an effective address stores what the encoding asks for, in every machine state, exactly
      when the source is a byte register: the code writes one byte. */
  lemma StoreIsRightIff(q: Reg, b: Base, d: int16)
    requires q != MaxReg
    ensures (forall st: Machine :: StoreIsRight(st, q, b, d)) <==> IsNarrow(q)
  {
    if !IsNarrow(q) {
      var a := U16(d);
      var st := BytesAt(a, 0, 1);
      AddressOfZeros(st.regs, b, d);
      BytesThere(a, 0, 1);
      assert Read(st, q) == 0;
      assert Stored(st.mem, a, !IsNarrow(q), 0)[Next(a)] == 0 != st.mem[Next(a)];
      assert !StoreIsRight(st, q, b, d);
    }
  }

  predicate DirectStoreIsRight(st: Machine, a: word, v: int16, wide: bool) {
    ExecMov(st, Direct(a), Immediate(v)).value.mem == Stored(st.mem, a, wide, U16(v))
  }

  lemma LowByteOfWord(v: int)
    ensures U8(U16(v)) == U8(v)
  {
    var k := v / 0x1_0000;
    assert v == U16(v) + 0x1_0000 * k;
    ModShift(U16(v), 0x100 * k);
  }

  /** A MOV of an immediate to a direct address does, exactly when it is a byte move. */
  lemma DirectStoreIsRightIff(a: word, v: int16, wide: bool)
    ensures (forall st: Machine :: DirectStoreIsRight(st, a, v, wide)) <==> !wide
  {
    if wide {
      var other: byte := if U16(v) / 0x100 == 0 then 1 else 0;
      var st := BytesAt(a, 0, other);
      BytesThere(a, 0, other);
      assert Stored(st.mem, a, true, U16(v))[Next(a)] != other;
      assert !DirectStoreIsRight(st, a, v, wide);
    } else {
      forall st: Machine
        ensures DirectStoreIsRight(st, a, v, wide)
      {
        LowByteOfWord(v);
      }
    }
  }

  // ----- additions from and to memory -----

  predicate AddLoadIsRight(st: Machine, r: Reg, b: Base, d: int16)
    requires r != MaxReg
  {
    Read(AddLoad(st, r, b, d), r) == (Read(st, r) + Held(st.mem, Address(st, b, d), !IsNarrow(r))) % Modulus(r)
  }

  lemma AddLoadCase(st: Machine, r: Reg, b: Base, d: int16)
    requires r != MaxReg
    ensures Read(AddLoad(st, r, b, d), r) == (Read(st, r) + st.mem[Address(st, b, d)]) % Modulus(r)
  {
    var sum: int := Read(st, r) + st.mem[Address(st, b, d)];
    CutOnce(sum, sum, 0, r);
    ReadAfterWrite(st, r, U16(sum), r);
    assert AddLoad(st, r, b, d).regs == Write(st, r, U16(sum)).regs;
  }

  lemma WrongAddLoad(r: Reg, b: Base, d: int16)
    requires r != MaxReg && !IsNarrow(r)
    ensures !AddLoadIsRight(BytesAt(U16(d), 0, 1), r, b, d)
  {
    var st := BytesAt(U16(d), 0, 1);
    AddressOfZeros(st.regs, b, d);
    BytesThere(U16(d), 0, 1);
    AddLoadCase(st, r, b, d);
    assert Read(st, r) == 0 && Held(st.mem, U16(d), !IsNarrow(r)) == 0x100;
  }

  lemma RightAddLoad(st: Machine, r: Reg, b: Base, d: int16)
    requires IsNarrow(r)
    ensures AddLoadIsRight(st, r, b, d)
  {
    AddLoadCase(st, r, b, d);
  }

  /** An ADD from memory adds what the encoding asks for, in every machine state, exactly when the destination is a byte
      register. Its displacement does count. */
  lemma AddLoadIsRightIff(r: Reg, b: Base, d: int16)
    requires r != MaxReg
    ensures (forall st: Machine :: AddLoadIsRight(st, r, b, d)) <==> IsNarrow(r)
  {
    if IsNarrow(r) {
      forall st: Machine
        ensures AddLoadIsRight(st, r, b, d)
      {
        RightAddLoad(st, r, b, d);
      }
    } else {
      WrongAddLoad(r, b, d);
    }
  }

  predicate ImmediateStoreIsRight(st: Machine, b: Base, d: int16, v: int16, wide: bool) {
    MovEffective(st, b, d, Immediate(v)).value.mem == Stored(st.mem, Address(st, b, d), wide, U16(v))
  }

  /** A MOV of an immediate to an effective address stores what the encoding asks for, in every machine state, exactly
      when it is a byte move. */
  lemma ImmediateStoreIsRightIff(b: Base, d: int16, v: int16, wide: bool)
    ensures (forall st: Machine :: ImmediateStoreIsRight(st, b, d, v, wide)) <==> !wide
  {
    if wide {
      var a := U16(d);
      var other: byte := if U16(v) / 0x100 == 0 then 1 else 0;
      var st := BytesAt(a, 0, other);
      AddressOfZeros(st.regs, b, d);
      BytesThere(a, 0, other);
      assert Stored(st.mem, a, true, U16(v))[Next(a)] != other;
      assert !ImmediateStoreIsRight(st, b, d, v, wide);
    } else {
      forall st: Machine
        ensures ImmediateStoreIsRight(st, b, d, v, wide)
      {
        LowByteOfWord(v);
      }
    }
  }

  /** A sum of the width the encoding asks for. */
  function Sum(a: word, v: int, wide: bool): word {
    if wide then (a + v) % 0x1_0000 else (a + v) % 0x100
  }

  predicate AddStoreIsRight(st: Machine, b: Base, d: int16, v: int, wide: bool) {
    var a := Address(st, b, d);
    AddEffective(st, b, d, v, 17).mem == Stored(st.mem, a, wide, Sum(Held(st.mem, a, wide), v, wide))
  }

  lemma AddStoreCase(st: Machine, b: Base, d: int16, v: int, wide: bool)
    ensures var a := Address(st, b, d);
            AddStoreIsRight(st, b, d, v, wide)
            <==> st.mem[a := U8(st.mem[a] + v)] == Stored(st.mem, a, wide, Sum(Held(st.mem, a, wide), v, wide))
  {
  }

  lemma SameBytesStored(mem: seq<byte>, a: word)
    requires |mem| == MEMORY_SIZE
    ensures Stored(mem, a, true, Held(mem, a, true)) == mem
  {
    TwoBytes(mem[Next(a)], mem[a]);
    assert mem[a := mem[a]] == mem;
    assert mem[Next(a) := mem[Next(a)]] == mem;
  }

  lemma ByteSumStored(mem: seq<byte>, a: word, v: int)
    requires |mem| == MEMORY_SIZE
    ensures mem[a := U8(mem[a] + v)] == Stored(mem, a, false, Sum(mem[a], v, false))
  {
    var sum := (mem[a] + v) % 0x100;
    assert U8(sum) == sum;
  }

  lemma RightSum(mem: seq<byte>, a: word, v: int, wide: bool)
    requires |mem| == MEMORY_SIZE && (wide ==> v == 0)
    ensures mem[a := U8(mem[a] + v)] == Stored(mem, a, wide, Sum(Held(mem, a, wide), v, wide))
  {
    if wide {
      SameBytesStored(mem, a);
      WordIsCut(Held(mem, a, true));
      assert mem[a := mem[a]] == mem;
    } else {
      ByteSumStored(mem, a, v);
    }
  }

  lemma HighByteChanges(low: byte, v: int16)
    requires v != 0 && low == if U16(v) / 0x100 == 0 then 0xFF else 0
    ensures Sum(low, v, true) / 0x100 != 0
  {
  }

  lemma WrongSum(mem: seq<byte>, a: word, v: int16)
    requires |mem| == MEMORY_SIZE && v != 0 && mem[Next(a)] == 0
    requires mem[a] == if U16(v) / 0x100 == 0 then 0xFF else 0
    ensures mem[a := U8(mem[a] + v)] != Stored(mem, a, true, Sum(Held(mem, a, true), v, true))
  {
    HighByteChanges(mem[a], v);
    assert mem[a := U8(mem[a] + v)][Next(a)] == 0;
    assert Stored(mem, a, true, Sum(mem[a], v, true))[Next(a)] == Sum(mem[a], v, true) / 0x100;
  }

  /** An ADD of an immediate to a word in memory goes wrong where the low bytes carry, or the high bytes differ. */
  lemma WrongAddStore(b: Base, d: int16, v: int16)
    requires v != 0
    ensures !AddStoreIsRight(BytesAt(U16(d), if U16(v) / 0x100 == 0 then 0xFF else 0, 0), b, d, v, true)
  {
    var a := U16(d);
    var low: byte := if U16(v) / 0x100 == 0 then 0xFF else 0;
    var st := BytesAt(a, low, 0);
    AddressOfZeros(st.regs, b, d);
    BytesThere(a, low, 0);
    AddStoreCase(st, b, d, v, true);
    WrongSum(st.mem, a, v);
  }

  /** An ADD of an immediate to an effective address changes memory as the encoding asks for, in every machine state,
      exactly when it is a byte addition or adds zero. */
  lemma AddStoreIsRightIff(b: Base, d: int16, v: int16, wide: bool)
    ensures (forall st: Machine :: AddStoreIsRight(st, b, d, v, wide)) <==> !wide || v == 0
  {
    if wide && v != 0 {
      WrongAddStore(b, d, v);
    } else {
      forall st: Machine
        ensures AddStoreIsRight(st, b, d, v, wide)
      {
        AddStoreCase(st, b, d, v, wide);
        RightSum(st.mem, Address(st, b, d), v, wide);
      }
    }
  }

  /** Zero memory, and 256 in the register behind `q`. */
  function RegisterAt(q: Reg): Machine
    requires q != MaxReg
  {
    var zeros: Registers := seq(16, _ => 0);
    State(seq(MEMORY_SIZE, _ => 0), zeros[RegIndex(Home(q)) := 0x100], [0, 0, 0, 0], 0, 0, 0)
  }

  lemma RegisterThere(q: Reg)
    requires q != MaxReg && !IsNarrow(q)
    ensures Read(RegisterAt(q), q) == 0x100
  {
  }

  /** An ADD of a register to an effective address does, exactly when it is a byte register. */
  lemma AddRegisterIsRightIff(q: Reg, b: Base, d: int16)
    requires q != MaxReg
    ensures (forall st: Machine :: AddStoreIsRight(st, b, d, Read(st, q), !IsNarrow(q))) <==> IsNarrow(q)
  {
    if IsNarrow(q) {
      forall st: Machine
        ensures AddStoreIsRight(st, b, d, Read(st, q), false)
      {
        AddStoreCase(st, b, d, Read(st, q), false);
        RightSum(st.mem, Address(st, b, d), Read(st, q), false);
      }
    } else {
      var st := RegisterAt(q);
      RegisterThere(q);
      AddStoreCase(st, b, d, 0x100, true);
      WrongSum(st.mem, Address(st, b, d), 0x100);
    }
  }

  // ----- additions with memory and the flags -----

  /** The sum an ADD from memory asks for. */
  function LoadSum(st: Machine, r: Reg, b: Base, d: int16): int
    requires r != MaxReg
  {
    (Read(st, r) + Held(st.mem, Address(st, b, d), !IsNarrow(r))) % Modulus(r)
  }

  /** The sum an ADD to memory asks for. */
  function StoreSum(st: Machine, b: Base, d: int16, v: int, wide: bool): word {
    Sum(Held(st.mem, Address(st, b, d), wide), v, wide)
  }

  lemma MemoryAddKeepsFlags(st: Machine, r: Reg, b: Base, d: int16, v: int, clocks: nat)
    requires r != MaxReg
    ensures AddLoad(st, r, b, d).flags == st.flags && AddEffective(st, b, d, v, clocks).flags == st.flags
  {
  }

  lemma SameFlags(f: bv16, g: bv16, x: int, y: int, modulus: int)
    requires f == g && x == y
    ensures ZAndS(f, x, modulus) <==> ZAndS(g, y, modulus)
  {
  }

  /** An ADD from memory leaves the flags alone, so Z and S describe the sum it stores exactly when they already did. */
  lemma AddLoadFlags(st: Machine, r: Reg, b: Base, d: int16)
    requires r != MaxReg
    ensures AddLoad(st, r, b, d).flags == st.flags
    ensures ZAndS(AddLoad(st, r, b, d).flags, Read(AddLoad(st, r, b, d), r), Modulus(r))
            <==> ZAndS(st.flags, (Read(st, r) + st.mem[Address(st, b, d)]) % Modulus(r), Modulus(r))
  {
    MemoryAddKeepsFlags(st, r, b, d, 0, 0);
    AddLoadCase(st, r, b, d);
    SameFlags(AddLoad(st, r, b, d).flags, st.flags, Read(AddLoad(st, r, b, d), r),
              (Read(st, r) + st.mem[Address(st, b, d)]) % Modulus(r), Modulus(r));
  }

  /** Does an ADD from memory do all that is asked of it, sum and flags? */
  predicate AddLoadIsComplete(st: Machine, r: Reg, b: Base, d: int16)
    requires r != MaxReg
  {
    AddLoadIsRight(st, r, b, d) && ZAndS(AddLoad(st, r, b, d).flags, LoadSum(st, r, b, d), Modulus(r))
  }

  /** It does exactly when it stores the right sum and the flags happened to fit. */
  lemma AddLoadIsCompleteIff(st: Machine, r: Reg, b: Base, d: int16)
    requires r != MaxReg
    ensures AddLoadIsComplete(st, r, b, d)
            <==> AddLoadIsRight(st, r, b, d) && ZAndS(st.flags, LoadSum(st, r, b, d), Modulus(r))
  {
    MemoryAddKeepsFlags(st, r, b, d, 0, 0);
    SameFlags(AddLoad(st, r, b, d).flags, st.flags, LoadSum(st, r, b, d), LoadSum(st, r, b, d), Modulus(r));
  }

  function ModulusOf(wide: bool): int {
    if wide then 0x1_0000 else 0x100
  }

  /** Does an ADD to memory? */
  predicate AddStoreIsComplete(st: Machine, b: Base, d: int16, v: int, wide: bool) {
    AddStoreIsRight(st, b, d, v, wide)
    && ZAndS(AddEffective(st, b, d, v, 17).flags, StoreSum(st, b, d, v, wide), ModulusOf(wide))
  }

  lemma AddStoreIsCompleteIff(st: Machine, b: Base, d: int16, v: int, wide: bool)
    ensures AddStoreIsComplete(st, b, d, v, wide)
            <==> AddStoreIsRight(st, b, d, v, wide) && ZAndS(st.flags, StoreSum(st, b, d, v, wide), ModulusOf(wide))
  {
    MemoryAddKeepsFlags(st, AX, b, d, v, 17);
    var sum: int := StoreSum(st, b, d, v, wide);
    SameFlags(AddEffective(st, b, d, v, 17).flags, st.flags, sum, sum, ModulusOf(wide));
  }

  lemma ZeroNeedsZ(modulus: int)
    ensures !ZAndS(0, 0, modulus)
  {
  }

  lemma ReadsZero(regs: Registers, r: Reg)
    requires r != MaxReg && forall k :: 0 <= k < 16 ==> regs[k] == 0
    ensures ReadFrom(regs, r) == 0
  {
  }

  lemma HeldIs(a: word, low: byte, high: byte, wide: bool)
    ensures Held(BytesAt(a, low, high).mem, a, wide) == if wide then low + 0x100 * high else low
  {
    BytesThere(a, low, high);
  }

  lemma ZeroSum(r: Reg, b: Base, d: int16)
    requires r != MaxReg
    ensures Read(BytesAt(U16(d), 0, 0), r) == 0 && LoadSum(BytesAt(U16(d), 0, 0), r, b, d) == 0
  {
    var st := BytesAt(U16(d), 0, 0);
    ReadsZero(st.regs, r);
    AddressOfZeros(st.regs, b, d);
    HeldIs(U16(d), 0, 0, !IsNarrow(r));
  }

  /** No ADD from memory has the right flags in every machine state: the sum of zeros sets Z, but clear flags stay
      clear. */
  lemma AddLoadFlagsAreNeverRight(r: Reg, b: Base, d: int16)
    requires r != MaxReg
    ensures !forall st: Machine :: ZAndS(AddLoad(st, r, b, d).flags, LoadSum(st, r, b, d), Modulus(r))
  {
    var st := BytesAt(U16(d), 0, 0);
    ZeroSum(r, b, d);
    MemoryAddKeepsFlags(st, r, b, d, 0, 0);
    ZeroNeedsZ(Modulus(r));
    assert !ZAndS(AddLoad(st, r, b, d).flags, LoadSum(st, r, b, d), Modulus(r));
  }

  /** The number that adds up to zero with `v`. */
  function Negated(v: int16): word {
    if v == 0 then 0 else if v > 0 then 0x1_0000 - v else -(v as int)
  }

  lemma SumWithNegated(v: int16, wide: bool)
    ensures Sum(if wide then Negated(v) else Negated(v) % 0x100, v, wide) == 0
  {
    var w: int, k := Negated(v), if v > 0 then 1 else 0;
    assert w + v == 0x1_0000 * k;
    ByteRemainder(w % 0x100 + v, 0x100 * k - w / 0x100, 0);
    WordRemainder(w + v, k, 0);
  }

  lemma StoreSumIsZero(b: Base, d: int16, v: int16, wide: bool)
    ensures StoreSum(BytesAt(U16(d), Negated(v) % 0x100, Negated(v) / 0x100), b, d, v, wide) == 0
  {
    var low: byte, high: byte := Negated(v) % 0x100, Negated(v) / 0x100;
    AddressOfZeros(BytesAt(U16(d), low, high).regs, b, d);
    HeldIs(U16(d), low, high, wide);
    SumWithNegated(v, wide);
  }

  /** No ADD of an immediate to memory has the right flags in every machine state. */
  lemma AddStoreFlagsAreNeverRight(b: Base, d: int16, v: int16, wide: bool)
    ensures !forall st: Machine ::
              ZAndS(AddEffective(st, b, d, v, 17).flags, StoreSum(st, b, d, v, wide), ModulusOf(wide))
  {
    var st := BytesAt(U16(d), Negated(v) % 0x100, Negated(v) / 0x100);
    StoreSumIsZero(b, d, v, wide);
    MemoryAddKeepsFlags(st, AX, b, d, v, 17);
    ZeroNeedsZ(ModulusOf(wide));
    assert !ZAndS(AddEffective(st, b, d, v, 17).flags, StoreSum(st, b, d, v, wide), ModulusOf(wide));
  }

  predicate AddRegisterFlagsAreRight(st: Machine, q: Reg, b: Base, d: int16)
    requires q != MaxReg
  {
    ZAndS(AddEffective(st, b, d, Read(st, q), 16).flags, StoreSum(st, b, d, Read(st, q), !IsNarrow(q)), Modulus(q))
  }

  /** No ADD of a register to memory has, either. */
  lemma AddRegisterFlagsAreNeverRight(q: Reg, b: Base, d: int16)
    requires q != MaxReg
    ensures !forall st: Machine :: AddRegisterFlagsAreRight(st, q, b, d)
  {
    var st := BytesAt(U16(d), 0, 0);
    ReadsZero(st.regs, q);
    StoreSumIsZero(b, d, 0, !IsNarrow(q));
    MemoryAddKeepsFlags(st, q, b, d, 0, 16);
    ZeroNeedsZ(Modulus(q));
    assert !AddRegisterFlagsAreRight(st, q, b, d);
  }

  lemma ZeroAddLoad(r: Reg, b: Base)
    requires IsNarrow(r)
    ensures var st := BytesAt(0, 0, 0);
            var after := AddLoad(st, r, b, 0);
            AddLoadIsRight(st, r, b, 0) && Read(after, r) == 0 && !IsZSet(after.flags)
  {
    var st := BytesAt(0, 0, 0);
    ZeroSum(r, b, 0);
    AddLoadIsRightIff(r, b, 0);
    assert AddLoadIsRight(st, r, b, 0);
    MemoryAddKeepsFlags(st, r, b, 0, 0, 0);
  }

  lemma JumpsWhileZIsClear(st: Machine, offset: int16)
    requires !IsZSet(st.flags)
    ensures ExecJump(st, Jnz, offset, 2) == Some(Advance(Advance(st, 2), offset))
  {
  }

  lemma DecodeAddLoad()
    ensures Decode([0x02, 0x07]) == Decoded(Two(Add, Register(AL), Effective(OnlyBx, 0), NoHint, NoHint), 2)
  {
  }

  /** 02 07, `add al, [bx]`, with everything zero: the sum is right and zero, but Z stays clear, and a JNZ behind it
      jumps. */
  lemma ZeroSumKeepsZClear(offset: int16)
    ensures Decode([0x02, 0x07]) == Decoded(Two(Add, Register(AL), Effective(OnlyBx, 0), NoHint, NoHint), 2)
    ensures var st := BytesAt(0, 0, 0);
            var after := AddLoad(st, AL, OnlyBx, 0);
            && AddLoadIsRight(st, AL, OnlyBx, 0) && Read(after, AL) == 0 && !IsZSet(after.flags)
            && ExecJump(after, Jnz, offset, 2) == Some(Advance(Advance(after, 2), offset))
  {
    ZeroAddLoad(AL, OnlyBx);
    JumpsWhileZIsClear(AddLoad(BytesAt(0, 0, 0), AL, OnlyBx, 0), offset);
    DecodeAddLoad();
  }

  /** 8B 07, `mov ax, [bx]`, with 0 and 1 in memory at BX = 0: it loads 0, not 256. */
  lemma WordLoadReadsOneByte()
    ensures Decode([0x8B, 0x07]) == Decoded(Two(Mov, Register(AX), Effective(OnlyBx, 0), NoHint, NoHint), 2)
    ensures Held(Witness(0).mem, 0, !IsNarrow(AX)) == 0x100 && !LoadIsRight(Witness(0), AX, OnlyBx, 0)
  {
    BytesThere(0, 0, 1);
    WrongLoad(AX, OnlyBx, 0);
  }
}
