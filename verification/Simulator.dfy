/** The simulator program: global memory, registers, flags, instruction pointer and clock counter, updated in
    place by one routine per instruction family inside a fetch-decode-execute loop. */
module Simulator {
  import opened Options
  import opened Words
  import opened Isa
  import opened Grammar
  import opened GrammarFacts
  import opened Decoder
  import opened Machine
  import opened Runs

  /** Where a register name lives: the 16-bit slot, the bits it names, and how far to shift them down. */
  datatype RegDefinition = RegDefinition(reg: Reg, mask: word, shift: int)

  function RegItem(r: Reg): RegDefinition
    requires r != MaxReg
  {
    match r
    case AX => RegDefinition(AX, 0xFFFF, 0)
    case AL => RegDefinition(AX, 0x00FF, 0)
    case AH => RegDefinition(AX, 0xFF00, 8)
    case BX => RegDefinition(BX, 0xFFFF, 0)
    case BL => RegDefinition(BX, 0x00FF, 0)
    case BH => RegDefinition(BX, 0xFF00, 8)
    case CX => RegDefinition(CX, 0xFFFF, 0)
    case CL => RegDefinition(CX, 0x00FF, 0)
    case CH => RegDefinition(CX, 0xFF00, 8)
    case DX => RegDefinition(DX, 0xFFFF, 0)
    case DL => RegDefinition(DX, 0x00FF, 0)
    case DH => RegDefinition(DX, 0xFF00, 8)
    case SP => RegDefinition(SP, 0xFFFF, 0)
    case BP => RegDefinition(BP, 0xFFFF, 0)
    case SI => RegDefinition(SI, 0xFFFF, 0)
    case DI => RegDefinition(DI, 0xFFFF, 0)
  }

  /** `(slot & ~mask) | ((value << shift) & mask)`; the two parts share no bits. */
  function Replace(slot: word, mask: word, shift: int, value: word): word {
    var data := slot - MaskedWord(slot, mask);
    var shifted := U16(if shift == 8 then value * 0x100 else value);
    U16(data + MaskedWord(shifted, mask))
  }

  lemma HighHalf(value: word)
    ensures U16(value * 0x100) / 0x100 * 0x100 == value % 0x100 * 0x100
  {
    var high, low := value / 0x100, value % 0x100;
    assert value * 0x100 == 0x1_0000 * high + 0x100 * low;
    assert U16(value * 0x100) == 0x100 * low;
  }

  lemma MaskHighHalf(slot: word, value: word)
    ensures Replace(slot, 0xFF00, 8, value) == value % 0x100 * 0x100 + slot % 0x100
  {
    HighHalf(value);
    assert slot - slot / 0x100 * 0x100 == slot % 0x100;
  }

  lemma MaskLowHalf(slot: word, value: word)
    ensures Replace(slot, 0x00FF, 0, value) == slot / 0x100 * 0x100 + value % 0x100
  {
    assert slot - slot % 0x100 == slot / 0x100 * 0x100;
  }

  lemma MergeIsMasking(slot: word, r: Reg, value: word)
    requires r != MaxReg
    ensures Replace(slot, RegItem(r).mask, RegItem(r).shift, value) == Merge(slot, r, value)
    ensures RegItem(r).reg == Home(r)
  {
    if IsHigh(r) {
      assert RegItem(r).mask == 0xFF00 && RegItem(r).shift == 8;
      MaskHighHalf(slot, value);
    } else if IsLow(r) {
      assert RegItem(r).mask == 0x00FF && RegItem(r).shift == 0;
      MaskLowHalf(slot, value);
    } else {
      assert RegItem(r).mask == 0xFFFF && RegItem(r).shift == 0;
    }
  }

  /** `s` is the decoded form of operand `o`, whatever its printing hints. */
  ghost predicate Shows(s: Side, o: Operand) {
    s == PutHint(Put(NO_SIDE, o), GetHint(s))
  }

  /** The record holds instruction `i`, as decoding leaves it. */
  ghost predicate Holds(inst: DecodedInstruction, i: Instr, len: byte)
    reads inst
  {
    inst.Value() == Flatten(i, len) && NamesRegisters(i) && (i.Two? ==> !i.dst.Immediate?)
  }

  lemma HoldsShows(inst: DecodedInstruction, i: Instr, len: byte)
    requires Holds(inst, i, len) && i.Two?
    ensures Shows(inst.dst, i.dst) && Shows(inst.src, i.src)
  {
  }

  /** Clocks for the address of a memory operand. The "invalid decoding" exit of the source cannot be reached
      from a decoded instruction with a memory operand. */
  method GetEaClocks(dst: Side, src: Side, ghost d: Operand, ghost s: Operand) returns (clocks: byte)
    requires Shows(dst, d) && Shows(src, s)
    requires d.Effective? || IsMemory(s)
    ensures clocks == if d.Effective? then EaClocks(d.base, d.displacement)
                      else if s.Effective? then EaClocks(s.base, s.displacement) else 6
  {
    var side;
    if dst.kind == TypeEffectiveAddress {
      side := dst;
    } else if src.kind == TypeEffectiveAddress {
      side := src;
    } else {
      return 6;
    }
    var hasDisp := side.effectiveDisplacement != 0;
    var hasBx := side.effectiveReg1 == BX || side.effectiveReg2 == BX;
    var hasBp := side.effectiveReg1 == BP || side.effectiveReg2 == BP;
    var hasSi := side.effectiveReg1 == SI || side.effectiveReg2 == SI;
    var hasDi := side.effectiveReg1 == DI || side.effectiveReg2 == DI;
    if hasDisp && !hasBx && !hasBp && !hasSi && !hasDi {
      assert false;
    }
    var comb := (if hasBx then 1 else 0) + (if hasBp then 2 else 0)
      + (if hasSi then 4 else 0) + (if hasDi then 8 else 0);
    if comb == 1 || comb == 2 || comb == 4 || comb == 8 {
      return if !hasDisp then 5 else 9;
    }
    if (hasBp && hasDi) || (hasBx && hasSi) {
      return if !hasDisp then 7 else 11;
    }
    if (hasBp && hasSi) || (hasBx && hasDi) {
      return if !hasDisp then 8 else 12;
    }
    assert false;
  }

  lemma WrapSum(a: int, b: int, d: int)
    ensures U16(U16(a + b) + d) == U16(a + b + d)
  {
  }

  /** Would the decoder stay inside memory? */
  predicate Stays(memory: array<byte>, at: nat)
    requires at < memory.Length
    reads memory
  {
    !Decode(memory[at..]).ReadsPastEnd?
  }

  class Simulator {
    const memory: array<byte>
    const registers: array<word>
    const segmentRegisters: array<word>
    var flags: bv16
    var ip: word
    var totalClocks: word

    ghost predicate Intact()
      reads this
    {
      memory.Length == MEMORY_SIZE && registers.Length == 16 && segmentRegisters.Length == 4
      && registers != segmentRegisters
    }

    ghost function Value(): Machine
      requires Intact()
      reads this, memory, registers, segmentRegisters
    {
      State(memory[..], registers[..], segmentRegisters[..], flags, ip, totalClocks)
    }

    constructor ()
      ensures Intact() && fresh(memory) && fresh(registers) && fresh(segmentRegisters)
      ensures Value() == State(seq(MEMORY_SIZE, _ => 0), seq(16, _ => 0), seq(4, _ => 0), 0, 0, 0)
    {
      memory := new byte[MEMORY_SIZE](_ => 0);
      registers := new word[16](_ => 0);
      segmentRegisters := new word[4](_ => 0);
      flags, ip, totalClocks := 0, 0, 0;
    }

    method ReadRegister(r: Reg) returns (v: word)
      requires Intact() && r != MaxReg
      ensures v == ReadFrom(registers[..], r)
    {
      var item := RegItem(r);
      v := Shr(MaskedWord(registers[RegIndex(item.reg)], item.mask), item.shift);
    }

    method WriteRegister(r: Reg, value: word)
      requires Intact() && r != MaxReg
      modifies registers
      ensures Value() == Write(old(Value()), r, value)
    {
      var item := RegItem(r);
      var slot := registers[RegIndex(item.reg)];
      MergeIsMasking(slot, r, value);
      registers[RegIndex(item.reg)] := Replace(slot, item.mask, item.shift, value);
    }

    method EvaluateFlags(value: word)
      modifies this`flags
      ensures flags == EvalFlags(old(flags), value)
    {
      var f := flags;
      if value == 0 {
        f := f | ZERO_FLAG_MASK;
      } else {
        f := f & !ZERO_FLAG_MASK;
      }
      if value >= 0x8000 {
        f := f | SIGNED_FLAG_MASK;
      } else {
        f := f & !SIGNED_FLAG_MASK;
      }
      flags := f;
    }

    /** The sum of the base registers and a displacement, in 16 bits at each step. */
    method SumAddress(side: Side, displacement: int16, ghost b: Base) returns (addr: word)
      requires Intact() && side.effectiveReg1 == Reg1(b) && side.effectiveReg2 == Reg2(b)
      ensures addr == AddressFrom(registers[..], b, displacement)
    {
      addr := 0;
      if side.effectiveReg1 != MaxReg {
        addr := ReadRegister(side.effectiveReg1);
      }
      if side.effectiveReg2 != MaxReg {
        var index := ReadRegister(side.effectiveReg2);
        ghost var base := addr;
        addr := U16(addr + index);
        WrapSum(base, index, displacement);
      }
      addr := U16(addr + displacement);
    }

    // ----- MOV -----

    /** Fetches the value a MOV to a register loads, and counts its clocks. */
    method LoadSource(inst: DecodedInstruction, ghost i: Instr, ghost len: byte) returns (value: word)
      requires Intact() && Holds(inst, i, len) && i.Two? && i.dst.Register?
      modifies this`totalClocks
      ensures value == MovValue(old(Value()), i.src)
      ensures totalClocks == U16(old(totalClocks) + MovClocks(i.src))
    {
      HoldsShows(inst, i, len);
      match inst.src.kind {
        case TypeRegister =>
          totalClocks := U16(totalClocks + 2);
          value := ReadRegister(inst.src.register);
        case TypeSegmentRegister =>
          value := segmentRegisters[SegIndex(inst.src.segRegister)];
        case TypeData =>
          totalClocks := U16(totalClocks + 4);
          value := U16(inst.srcData);
        case TypeDirectAddress =>
          var eaClocks := GetEaClocks(inst.dst, inst.src, i.dst, i.src);
          totalClocks := U16(totalClocks + 8 + eaClocks);
          value := memory[inst.src.directAddress];
        case TypeEffectiveAddress =>
          var eaClocks := GetEaClocks(inst.dst, inst.src, i.dst, i.src);
          totalClocks := U16(totalClocks + 8 + eaClocks);
          var srcAddr := SumAddress(inst.src, inst.dst.effectiveDisplacement, i.src.base);
          value := memory[srcAddr];
        case MaxType => assert false;
      }
    }

    method MovToRegister(dst: Reg, inst: DecodedInstruction, ghost i: Instr, ghost len: byte)
      requires Intact() && Holds(inst, i, len) && i.Two? && i.dst == Register(dst)
      modifies this`totalClocks, registers
      ensures Value() == MovRegister(old(Value()), dst, i.src)
    {
      var value := LoadSource(inst, i, len);
      WriteRegister(dst, value);
    }

    method MovToSegment(seg: SegReg, inst: DecodedInstruction, ghost i: Instr, ghost len: byte) returns (ok: bool)
      requires Intact() && Holds(inst, i, len) && i.Two? && i.dst == Segment(seg)
      modifies segmentRegisters
      ensures ok <==> MovSegment(old(Value()), seg, i.src).Some?
      ensures Value() == if ok then MovSegment(old(Value()), seg, i.src).value else old(Value())
    {
      HoldsShows(inst, i, len);
      match inst.src.kind {
        case TypeRegister =>
          var value := ReadRegister(inst.src.register);
          segmentRegisters[SegIndex(seg)] := value;
        case TypeSegmentRegister =>
          segmentRegisters[SegIndex(seg)] := segmentRegisters[SegIndex(inst.src.segRegister)];
        case TypeData =>
          segmentRegisters[SegIndex(seg)] := U16(inst.srcData);
        case _ => return false;
      }
      return true;
    }

    method MovToEffective(inst: DecodedInstruction, ghost i: Instr, ghost len: byte) returns (ok: bool)
      requires Intact() && Holds(inst, i, len) && i.Two? && i.dst.Effective?
      modifies this`totalClocks, memory
      ensures ok <==> MovEffective(old(Value()), i.dst.base, i.dst.displacement, i.src).Some?
      ensures Value() == if ok then MovEffective(old(Value()), i.dst.base, i.dst.displacement, i.src).value
                         else old(Value())
    {
      HoldsShows(inst, i, len);
      var dstAddr := SumAddress(inst.dst, inst.dst.effectiveDisplacement, i.dst.base);
      match inst.src.kind {
        case TypeRegister =>
          var eaClocks := GetEaClocks(inst.dst, inst.src, i.dst, i.src);
          totalClocks := U16(totalClocks + 9 + eaClocks);
          var value := ReadRegister(inst.src.register);
          memory[dstAddr] := U8(value);
        case TypeData =>
          memory[dstAddr] := U8(inst.srcData);
        case _ => return false;
      }
      return true;
    }

    method MovToDirect(inst: DecodedInstruction, ghost i: Instr, ghost len: byte) returns (ok: bool)
      requires Intact() && Holds(inst, i, len) && i.Two? && i.dst.Direct?
      modifies memory
      ensures ok <==> i.src.Immediate?
      ensures Value() == if ok then Store(old(Value()), i.dst.address, U8(i.src.data)) else old(Value())
    {
      HoldsShows(inst, i, len);
      if inst.src.kind != TypeData {
        return false;
      }
      memory[inst.dst.directAddress] := U8(inst.srcData);
      return true;
    }

    method MovOperands(inst: DecodedInstruction, ghost i: Instr, ghost len: byte) returns (ok: bool)
      requires Intact() && Holds(inst, i, len) && i.Two?
      modifies this`totalClocks, memory, registers, segmentRegisters
      ensures ok <==> ExecMov(old(Value()), i.dst, i.src).Some?
      ensures ok ==> Value() == ExecMov(old(Value()), i.dst, i.src).value
    {
      HoldsShows(inst, i, len);
      ok := true;
      match inst.dst.kind {
        case TypeRegister => MovToRegister(inst.dst.register, inst, i, len);
        case TypeSegmentRegister => ok := MovToSegment(inst.dst.segRegister, inst, i, len);
        case TypeDirectAddress => ok := MovToDirect(inst, i, len);
        case TypeEffectiveAddress => ok := MovToEffective(inst, i, len);
        case _ => assert false;
      }
    }

    method ParseMovInst(inst: DecodedInstruction, ghost i: Instr, ghost len: byte) returns (ok: bool)
      requires Intact() && Holds(inst, i, len) && i.Two?
      modifies this`ip, this`totalClocks, memory, registers, segmentRegisters
      ensures ok <==> ExecMov(old(Value()), i.dst, i.src).Some?
      ensures ok ==> Value() == Advance(ExecMov(old(Value()), i.dst, i.src).value, len)
    {
      ok := MovOperands(inst, i, len);
      if ok {
        ip := U16(ip + inst.instNumBytes);
      }
    }

    // ----- ADD -----

    method AddWithFlags(dst: Reg, srcVal: word)
      requires Intact() && dst != MaxReg
      modifies this`flags, registers
      ensures Value() == Accumulate(old(Value()), dst, srcVal)
    {
      var dstVal := ReadRegister(dst);
      var value := U16(dstVal + srcVal);
      EvaluateFlags(value);
      WriteRegister(dst, value);
    }

    /** Address and clocks of the memory operand of an ADD; an odd address costs `penalty` clocks. */
    method OperandAddress(inst: DecodedInstruction, penalty: nat, ghost i: Instr, ghost len: byte, ghost o: Operand)
      returns (addr: word, clocks: nat)
      requires Intact() && Holds(inst, i, len) && i.Two? && o.Effective?
      requires i.dst == o || (i.src == o && i.dst.Register?)
      ensures addr == AddressFrom(registers[..], o.base, o.displacement)
      ensures clocks == EaClocks(o.base, o.displacement) + Odd(addr, penalty)
    {
      HoldsShows(inst, i, len);
      var side := if inst.dst.kind == TypeEffectiveAddress then inst.dst else inst.src;
      clocks := GetEaClocks(inst.dst, inst.src, i.dst, i.src);
      addr := SumAddress(side, side.effectiveDisplacement, o.base);
      if addr % 2 != 0 {
        clocks := clocks + penalty;
      }
    }

    method AddFromMemory(dst: Reg, inst: DecodedInstruction, ghost i: Instr, ghost len: byte)
      requires Intact() && Holds(inst, i, len) && i.Two? && i.dst == Register(dst) && i.src.Effective?
      modifies this`totalClocks, registers
      ensures Value() == AddLoad(old(Value()), dst, i.src.base, i.src.displacement)
    {
      var dstVal := ReadRegister(dst);
      var srcAddr, eaClocks := OperandAddress(inst, 4, i, len, i.src);
      WriteRegister(dst, U16(dstVal + memory[srcAddr]));
      totalClocks := U16(totalClocks + 9 + eaClocks);
    }

    /** The value of a register or immediate source; none for any other. */
    method SourceValue(inst: DecodedInstruction, ghost i: Instr, ghost len: byte) returns (value: Option<word>)
      requires Intact() && Holds(inst, i, len) && i.Two?
      ensures value == match i.src {
                         case Register(q) => Some(Read(Value(), q))
                         case Immediate(v) => Some(U16(v))
                         case _ => None
                       }
    {
      HoldsShows(inst, i, len);
      match inst.src.kind {
        case TypeRegister =>
          var v := ReadRegister(inst.src.register);
          value := Some(v);
        case TypeData => value := Some(U16(inst.srcData));
        case _ => value := None;
      }
    }

    method AddToRegister(dst: Reg, inst: DecodedInstruction, ghost i: Instr, ghost len: byte) returns (ok: bool)
      requires Intact() && Holds(inst, i, len) && i.Two? && i.dst == Register(dst)
      modifies this`totalClocks, this`flags, registers
      ensures ok <==> ExecAdd(old(Value()), i.dst, i.src).Some?
      ensures ok ==> Value() == ExecAdd(old(Value()), i.dst, i.src).value
    {
      HoldsShows(inst, i, len);
      if inst.src.kind == TypeEffectiveAddress {
        AddFromMemory(dst, inst, i, len);
        return true;
      }
      var srcVal := SourceValue(inst, i, len);
      if srcVal.None? {
        return false;
      }
      AddWithFlags(dst, srcVal.value);
      totalClocks := U16(totalClocks + if inst.src.kind == TypeData then 4 else 3);
      return true;
    }

    /** Adds `srcVal` to one byte of memory. */
    method AddByte(inst: DecodedInstruction, srcVal: int, base: nat, ghost i: Instr, ghost len: byte)
      requires Intact() && Holds(inst, i, len) && i.Two? && i.dst.Effective?
      modifies this`totalClocks, memory
      ensures Value() == AddEffective(old(Value()), i.dst.base, i.dst.displacement, srcVal, base)
    {
      var dstAddr, eaClocks := OperandAddress(inst, 8, i, len, i.dst);
      memory[dstAddr] := U8(memory[dstAddr] + srcVal);
      totalClocks := U16(totalClocks + base + eaClocks);
    }

    method AddToMemory(inst: DecodedInstruction, ghost i: Instr, ghost len: byte) returns (ok: bool)
      requires Intact() && Holds(inst, i, len) && i.Two? && i.dst.Effective?
      modifies this`totalClocks, memory
      ensures ok <==> ExecAdd(old(Value()), i.dst, i.src).Some?
      ensures ok ==> Value() == ExecAdd(old(Value()), i.dst, i.src).value
    {
      HoldsShows(inst, i, len);
      if inst.src.kind == TypeRegister {
        var srcVal := ReadRegister(inst.src.register);
        AddByte(inst, srcVal, 16, i, len);
      } else if inst.src.kind == TypeData {
        AddByte(inst, inst.srcData, 17, i, len);
      } else {
        return false;
      }
      return true;
    }

    method ParseAddInst(inst: DecodedInstruction, ghost i: Instr, ghost len: byte) returns (ok: bool)
      requires Intact() && Holds(inst, i, len) && i.Two?
      modifies this`ip, this`totalClocks, this`flags, memory, registers
      ensures ok <==> ExecAdd(old(Value()), i.dst, i.src).Some?
      ensures ok ==> Value() == Advance(ExecAdd(old(Value()), i.dst, i.src).value, len)
    {
      HoldsShows(inst, i, len);
      match inst.dst.kind {
        case TypeRegister => ok := AddToRegister(inst.dst.register, inst, i, len);
        case TypeEffectiveAddress => ok := AddToMemory(inst, i, len);
        case _ => return false;
      }
      if ok {
        ip := U16(ip + inst.instNumBytes);
      }
    }

    // ----- SUB and CMP -----

    method SubtractWithFlags(dst: Reg, srcVal: word, isSub: bool)
      requires Intact() && dst != MaxReg
      modifies this`flags, registers
      ensures Value() == Subtract(old(Value()), dst, srcVal, isSub)
    {
      var dstVal: int := ReadRegister(dst);
      var value := U16(dstVal - srcVal);
      EvaluateFlags(value);
      if isSub {
        WriteRegister(dst, value);
      }
    }

    method ParseSubCmpInst(inst: DecodedInstruction, isSub: bool, ghost i: Instr, ghost len: byte) returns (ok: bool)
      requires Intact() && Holds(inst, i, len) && i.Two?
      modifies this`ip, this`flags, registers
      ensures ok <==> ExecSubCmp(old(Value()), i.dst, i.src, isSub).Some?
      ensures ok ==> Value() == Advance(ExecSubCmp(old(Value()), i.dst, i.src, isSub).value, len)
    {
      HoldsShows(inst, i, len);
      if inst.dst.kind != TypeRegister {
        return false;
      }
      var srcVal := SourceValue(inst, i, len);
      if srcVal.None? {
        return false;
      }
      SubtractWithFlags(inst.dst.register, srcVal.value, isSub);
      ip := U16(ip + inst.instNumBytes);
      return true;
    }

    // ----- jumps -----

    method LoopCx(offset: int16)
      requires Intact()
      modifies this`ip, this`flags, registers
      ensures Value() == ExecLoop(old(Value()), offset)
    {
      var cxVal: int := ReadRegister(CX);
      cxVal := U16(cxVal - 1);
      WriteRegister(CX, cxVal);
      EvaluateFlags(cxVal);
      if !IsZSet(flags) {
        ip := U16(ip + offset);
      }
    }

    method ParseJmpInst(inst: DecodedInstruction, ghost i: Instr, ghost len: byte) returns (ok: bool)
      requires Intact() && Holds(inst, i, len) && i.Short?
      modifies this`ip, this`flags, registers
      ensures ok <==> ExecJump(old(Value()), i.op, i.offset, len).Some?
      ensures ok ==> Value() == ExecJump(old(Value()), i.op, i.offset, len).value
    {
      ip := U16(ip + inst.instNumBytes);
      if inst.op == Jnz {
        if !IsZSet(flags) {
          ip := U16(ip + inst.srcData);
        }
      } else if inst.op == Loop {
        LoopCx(inst.srcData);
      } else {
        return false;
      }
      return true;
    }

    // ----- the fetch-decode-execute loop -----

    /** Executes a decoded instruction: one routine per family. */
    method Execute(inst: DecodedInstruction, ghost i: Instr, ghost len: byte) returns (ok: bool)
      requires Intact() && Holds(inst, i, len) && WellFormed(i)
      modifies this`ip, this`totalClocks, this`flags, memory, registers, segmentRegisters
      ensures ok <==> Exec(old(Value()), i, len).Some?
      ensures ok ==> Value() == Exec(old(Value()), i, len).value
    {
      if inst.op == Mov {
        ok := ParseMovInst(inst, i, len);
      } else if inst.op == Sub {
        ok := ParseSubCmpInst(inst, true, i, len);
      } else if inst.op == Cmp {
        ok := ParseSubCmpInst(inst, false, i, len);
      } else if inst.op == Add {
        ok := ParseAddInst(inst, i, len);
      } else if inst.op != MaxInst && inst.op != Jo {
        ok := ParseJmpInst(inst, i, len);
      } else {
        ok := false;
      }
    }

    /** Fetches, decodes and executes the instruction at `ip`. */
    method StepOnce(n: nat, inst: DecodedInstruction) returns (fault: Fault)
      requires Intact() && ip < n <= MEMORY_SIZE
      modifies this`ip, this`totalClocks, this`flags, memory, registers, segmentRegisters, inst
      ensures fault == NoFault ==> Step(old(Value()), n) == Running(Value())
      ensures fault != NoFault ==> Step(old(Value()), n) == Failed(fault)
    {
      ghost var st := Value();
      ghost var d := Fetch(st);
      assert st.mem[st.ip..] == memory[ip..];
      FetchNamesRegisters(st);
      if !Stays(memory, ip) {
        return OutsideMemory;
      }
      var consumed := DecodeBitstream(memory, ip, inst);
      if consumed == 0 {
        return BadOpcode;
      }
      var ok := Execute(inst, d.instr, d.len);
      return if ok then NoFault else Unsupported;
    }

    /** Runs a program of `n` loaded bytes for at most `maxSteps` instructions. `trace` is the sequence of machine
        states it goes through; the run ends past the program, in a fatal error, or out of steps. */
    method Simulate(n: nat, maxSteps: nat, inst: DecodedInstruction)
      returns (fault: Fault, exited: bool, ghost trace: seq<Machine>)
      requires Intact() && n <= MEMORY_SIZE
      modifies this, memory, registers, segmentRegisters, inst
      ensures 1 <= |trace| <= maxSteps + 1 && trace[0] == old(Value()) && IsTrace(Stepper(n), trace)
      ensures fault == NoFault ==> trace[|trace| - 1] == Value()
      ensures fault != NoFault ==> Step(trace[|trace| - 1], n) == Failed(fault) && !exited
      ensures exited ==> ip >= n
      ensures fault == NoFault && !exited ==> |trace| == maxSteps + 1
    {
      trace := [Value()];
      var i := 0;
      while ip < n && i < maxSteps
        invariant 0 <= i <= maxSteps && |trace| == i + 1
        invariant trace[0] == old(Value()) && trace[i] == Value() && IsTrace(Stepper(n), trace)
        decreases maxSteps - i
      {
        fault := StepOnce(n, inst);
        if fault != NoFault {
          return fault, false, trace;
        }
        trace := trace + [Value()];
        i := i + 1;
      }
      return NoFault, ip >= n, trace;
    }
  }
}
