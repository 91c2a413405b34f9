/** The library decoder: it scans the opcode table, walks the bytes under control of the matching row's
    flags, and fills a reused instruction record in place. Each step is proved against the grammar. */
module Decoder {
  import opened Words
  import opened Isa
  import opened Grammar
  import opened OpcodeTable

  class DecodedInstruction {
    var op: Op
    var instNumBytes: byte
    var src: Side
    var srcData: int16
    var dst: Side
    var instIsShortWData: bool

    constructor ()
      ensures Value() == BLANK
    {
      op, instNumBytes, src, srcData, dst, instIsShortWData := MaxInst, 0, NO_SIDE, 0, NO_SIDE, false;
    }

    function Value(): Record
      reads this
    {
      Record(op, instNumBytes, src, srcData, dst, instIsShortWData)
    }

    method Reset()
      modifies this
      ensures Value() == BLANK
    {
      op, instNumBytes, src, srcData, dst, instIsShortWData := MaxInst, 0, NO_SIDE, 0, NO_SIDE, false;
    }
  }

  /** Is the destination 16 bits wide? The data and invalid cases are the "sanity errors" of the source;
      no caller reaches them. */
  method IsDst16Bit(inst: DecodedInstruction, ghost dst: Operand) returns (is16: bool)
    requires !dst.Immediate? && inst.dst == Put(NO_SIDE, dst)
    ensures is16 <==> Is16Bit(dst)
  {
    match inst.dst.kind {
      case TypeRegister => is16 := inst.dst.register in {AX, BX, CX, DX, SP, BP, SI, DI};
      case TypeSegmentRegister => is16 := true;
      case TypeDirectAddress => is16 := true;
      case TypeEffectiveAddress => is16 := true;
      case TypeData => assert false;
      case MaxType => assert false;
    }
  }

  // ----- byte extraction; `ptr` is the index of the last byte consumed so far -----

  method ExtractDisplacement(buf: array<byte>, ptr: nat, is16: bool) returns (consumed: nat, displacement: int16)
    requires ptr + (if is16 then 2 else 1) < buf.Length
    ensures consumed == if is16 then 2 else 1
    ensures displacement == if is16 then S16(LoHi(buf[ptr + 1], buf[ptr + 2])) else SignExtend(buf[ptr + 1])
  {
    var p := ptr + 1;
    consumed := 1;
    var displacementLow := buf[p];
    if !is16 {
      if buf[p] / 0x80 == 1 {
        displacement := S16(LoHi(buf[p], 0xFF));
      } else {
        displacement := buf[p];
      }
    } else {
      p := p + 1;
      consumed := consumed + 1;
      var displacementHigh := buf[p];
      displacement := S16(LoHi(displacementLow, displacementHigh));
    }
  }

  method ExtractDirectAddress(buf: array<byte>, ptr: nat) returns (consumed: nat, directAddress: word)
    requires ptr + 2 < buf.Length
    ensures consumed == 2 && directAddress == LoHi(buf[ptr + 1], buf[ptr + 2])
  {
    var p := ptr + 1;
    consumed := 1;
    var directAddressLow := buf[p];
    p := p + 1;
    consumed := consumed + 1;
    var directAddressHigh := buf[p];
    directAddress := LoHi(directAddressLow, directAddressHigh);
  }

  method ExtractData(buf: array<byte>, ptr: nat, is8bit: bool, isSignExtended: bool)
    returns (consumed: nat, data: int16)
    requires ptr + (if is8bit then 1 else 2) < buf.Length
    ensures consumed == if is8bit then 1 else 2
    ensures data == if !is8bit then S16(LoHi(buf[ptr + 1], buf[ptr + 2]))
                    else if isSignExtended then SignExtend(buf[ptr + 1]) else buf[ptr + 1]
  {
    var p := ptr + 1;
    consumed := 1;
    var dataLow := buf[p];
    if is8bit {
      if isSignExtended {
        if buf[p] / 0x80 == 1 {
          data := S16(LoHi(buf[p], 0xFF));
        } else {
          data := buf[p];
        }
      } else {
        data := buf[p];
      }
    } else {
      p := p + 1;
      consumed := consumed + 1;
      var dataHigh := buf[p];
      data := S16(LoHi(dataLow, dataHigh));
    }
  }

  // ----- the bit fields of the first two bytes -----

  datatype Fields = Fields(dBit: int, sBit: int, wBit: int, regField: int, opEncodeField: int,
                           modField: int, rmField: int, srField: int)

  function Flag(b: bool): int { if b then 1 else 0 }

  predicate Extracted(f: Form, b1: byte, x: Fields) {
    && x.dBit == Flag(f.RegMem? && f.d)
    && x.sBit == Flag(f.Group? && f.s)
    && x.wBit == Flag(Width(f))
    && (HasModRm(f) ==> x.modField == Mod(b1) && x.rmField == Rm(b1))
    && (f.RegMem? ==> x.regField == RegField(b1))
    && (f.ImmToReg? ==> x.regField == f.reg)
    && (f.ToSegment? || f.FromSegment? ==> x.srField == SrField(b1))
    && (f.Group? ==> x.opEncodeField == RegField(b1))
  }

  /** The bits of byte 1 that a form's fields come from. */
  lemma FormBits(b: byte)
    ensures var f := Classify(b);
            && (f.RegMem? ==> f.d == (b / 2 % 2 == 1))
            && (f.Group? ==> f.s == (b / 2 % 2 == 1))
            && (f.ImmToReg? ==> f.w == (b / 8 % 2 == 1) && f.reg == b % 8)
            && (f != NoForm && !f.ImmToReg? && !f.ToSegment? && !f.FromSegment? && !f.Jump?
                ==> Width(f) == (b % 2 == 1))
  {
  }

  method ExtractFields(buf: array<byte>, at: nat, cmd: OpcodeBitstream) returns (x: Fields, ptr: nat)
    requires at < buf.Length
    requires Describes(cmd, Classify(buf[at])) && Fits(Classify(buf[at]), buf[at..])
    ensures Extracted(Classify(buf[at]), buf[at + 1], x)
    ensures ptr == if HasModRm(Classify(buf[at])) then at + 1 else at
  {
    ghost var f := Classify(buf[at]);
    FormBits(buf[at]);
    ptr := at;
    var dBit, sBit, wBit, regField, opEncodeField, modField, rmField, srField := 0, 0, 0, 0, 0, 0, 0, 0;
    if cmd.byte1HasDFlag {
      dBit := buf[ptr] / 2 % 2;
    }
    if cmd.byte1HasSFlag {
      sBit := buf[ptr] / 2 % 2;
    }
    if cmd.byte1HasWFlag {
      wBit := Shr(buf[ptr], cmd.wFlagShift) % 2;
    }
    if cmd.byte1HasRegField {
      regField := Shr(buf[ptr], cmd.regFieldShift) % 8;
    }
    if cmd.opHasRegisterByte {
      ptr := ptr + 1;
      if cmd.byte2HasModField {
        modField := buf[ptr] / 64 % 4;
      }
      if cmd.byte2HasRegField {
        regField := Shr(buf[ptr], cmd.regFieldShift) % 8;
      }
      if cmd.byte2HasOpEncodeField {
        opEncodeField := buf[ptr] / 8 % 8;
      }
      if cmd.byte2HasRmField {
        rmField := buf[ptr] % 8;
      }
      if cmd.byte2HasSrField {
        srField := buf[ptr] / 8 % 4;
      }
    }
    if cmd.byte2HasSrField {
      wBit := 1;
    }
    x := Fields(dBit, sBit, wBit, regField, opEncodeField, modField, rmField, srField);
  }

  // ----- the addressing mode -----

  /** mod = 00, r/m = 110: the 16-bit address is the destination of an immediate, and the source otherwise. */
  method DirectAccess(buf: array<byte>, at: nat, cmd: OpcodeBitstream, x: Fields,
      inst: DecodedInstruction, ghost f: Form)
    returns (consumed: nat)
    requires at < buf.Length && IsForm(f) && HasModRm(f) && Fits(f, buf[at..]) && IsDirect(buf[at + 1])
    requires Describes(cmd, f) && Extracted(f, buf[at + 1], x)
    requires inst.src == NO_SIDE && inst.dst == NO_SIDE
    modifies inst`src, inst`dst
    ensures var m := Meaning(f, buf[at..]);
            inst.dst == Put(NO_SIDE, m.dst) && inst.src == Put(NO_SIDE, m.src)
    ensures consumed == 2
  {
    var address;
    consumed, address := ExtractDirectAddress(buf, at + 1);
    if cmd.opHasDataBytes {
      inst.src := inst.src.(kind := TypeData);
      inst.dst := inst.dst.(kind := TypeDirectAddress, directAddress := address);
    } else {
      inst.src := inst.src.(kind := TypeDirectAddress, directAddress := address);
      if cmd.byte2HasSrField {
        inst.dst := inst.dst.(kind := TypeSegmentRegister, segRegister := SEGMENTS[x.srField]);
      } else {
        inst.dst := inst.dst.(kind := TypeRegister, register := RegAt(x.regField, x.wBit == 1));
      }
    }
  }

  /** mod = 11: both operands are registers, or one is the immediate. */
  method RegisterMode(cmd: OpcodeBitstream, x: Fields, inst: DecodedInstruction, ghost f: Form, ghost s: seq<byte>)
    requires IsForm(f) && HasModRm(f) && Fits(f, s) && Mod(s[1]) == 3
    requires Describes(cmd, f) && Extracted(f, s[1], x)
    requires inst.src == NO_SIDE && inst.dst == NO_SIDE
    modifies inst`src, inst`dst
    ensures var m := Meaning(f, s);
            inst.dst == Put(NO_SIDE, m.dst) && inst.src == Put(NO_SIDE, m.src)
  {
    var rm := RegAt(x.rmField, x.wBit == 1);
    if cmd.byte2HasSrField {
      if cmd.srIsTarget {
        inst.dst := inst.dst.(kind := TypeSegmentRegister, segRegister := SEGMENTS[x.srField]);
        inst.src := inst.src.(kind := TypeRegister, register := rm);
      } else {
        inst.src := inst.src.(kind := TypeSegmentRegister, segRegister := SEGMENTS[x.srField]);
        inst.dst := inst.dst.(kind := TypeRegister, register := rm);
      }
    } else if cmd.byte1HasDFlag {
      var reg := RegAt(x.regField, x.wBit == 1);
      if x.dBit == 1 {
        inst.dst := inst.dst.(kind := TypeRegister, register := reg);
        inst.src := inst.src.(kind := TypeRegister, register := rm);
      } else {
        inst.dst := inst.dst.(kind := TypeRegister, register := rm);
        inst.src := inst.src.(kind := TypeRegister, register := reg);
      }
    } else {
      inst.dst := inst.dst.(kind := TypeRegister, register := rm);
      inst.src := inst.src.(kind := TypeData);
    }
  }

  /** mod = 00, 01, 10: one operand is an effective address with a displacement of 0, 8 or 16 bits. */
  method MemoryMode(buf: array<byte>, at: nat, cmd: OpcodeBitstream, x: Fields, inst: DecodedInstruction, ghost f: Form)
    returns (consumed: nat)
    requires at < buf.Length && IsForm(f) && HasModRm(f) && Fits(f, buf[at..])
    requires Mod(buf[at + 1]) != 3 && !IsDirect(buf[at + 1])
    requires Describes(cmd, f) && Extracted(f, buf[at + 1], x)
    requires inst.src == NO_SIDE && inst.dst == NO_SIDE
    modifies inst`src, inst`dst
    ensures var m := Meaning(f, buf[at..]);
            inst.dst == Put(NO_SIDE, m.dst) && inst.src == Put(NO_SIDE, m.src)
    ensures consumed == DispLen(buf[at + 1])
  {
    var displacement: int16 := 0;
    consumed := 0;
    if x.modField == 1 || x.modField == 2 {
      consumed, displacement := ExtractDisplacement(buf, at + 1, x.modField == 2);
    }
    var base := BASES[x.rmField];
    ghost var s := buf[at..];
    assert Place(s, Width(f)) == Effective(base, displacement);
    if cmd.byte2HasSrField {
      if cmd.srIsTarget {
        inst.dst := inst.dst.(kind := TypeSegmentRegister, segRegister := SEGMENTS[x.srField]);
        inst.src := Put(inst.src, Effective(base, displacement));
      } else {
        inst.src := inst.src.(kind := TypeSegmentRegister, segRegister := SEGMENTS[x.srField]);
        inst.dst := Put(inst.dst, Effective(base, displacement));
      }
    } else if cmd.byte1HasDFlag {
      var reg := RegAt(x.regField, x.wBit == 1);
      if x.dBit == 1 {
        inst.dst := inst.dst.(kind := TypeRegister, register := reg);
        inst.src := Put(inst.src, Effective(base, displacement));
      } else {
        inst.dst := Put(inst.dst, Effective(base, displacement));
        inst.src := inst.src.(kind := TypeRegister, register := reg);
      }
    } else if !cmd.byte1HasRegField && !cmd.byte2HasRegField && cmd.opHasDataBytes {
      inst.dst := Put(inst.dst, Effective(base, displacement));
      inst.src := inst.src.(kind := TypeData);
    }
  }

  /** The register after `r` in the enumeration: the low half of a 16-bit register that has halves. */
  function NextReg(r: Reg): Reg
    requires r !in {SP, BP, SI, DI, MaxReg}
  {
    match r
    case AX => AL case AL => AH case AH => BX
    case BX => BL case BL => BH case BH => CX
    case CX => CL case CL => CH case CH => DX
    case DX => DL case DL => DH case DH => SP
  }

  /** The operands of every format, before the immediate: mod byte, register in byte 1, or hardcoded accumulator. */
  method ParseOperands(buf: array<byte>, at: nat, cmd: OpcodeBitstream, x: Fields,
      inst: DecodedInstruction, ghost f: Form)
    returns (consumed: nat)
    requires at < buf.Length && IsForm(f) && Fits(f, buf[at..])
    requires Describes(cmd, f) && Extracted(f, buf[at + 1], x)
    requires inst.src == NO_SIDE && inst.dst == NO_SIDE
    modifies inst`src, inst`dst
    ensures var m := Meaning(f, buf[at..]);
            if m.Two? then inst.dst == Put(NO_SIDE, m.dst) && inst.src == Put(NO_SIDE, m.src)
            else inst.dst == NO_SIDE && inst.src == NO_SIDE
    ensures consumed == Header(f, buf[at + 1]) - (if HasModRm(f) then 2 else 1)
  {
    consumed := 0;
    if cmd.byte2HasModField {
      if x.modField == 0 && x.rmField == 6 {
        consumed := DirectAccess(buf, at, cmd, x, inst, f);
      } else if x.modField == 3 {
        RegisterMode(cmd, x, inst, f, buf[at..]);
      } else {
        consumed := MemoryMode(buf, at, cmd, x, inst, f);
      }
    } else if cmd.byte1HasRegField && cmd.byte1HasWFlag {
      inst.dst := inst.dst.(kind := TypeRegister, register := RegAt(x.regField, x.wBit == 1));
      inst.src := inst.src.(kind := TypeData);
    }
    if cmd.opHasHardcodedDst {
      if cmd.byte1HasWFlag && x.wBit == 0 && cmd.hardDstReg !in {SP, BP, SI, DI, MaxReg} {
        inst.dst := inst.dst.(kind := TypeRegister, register := NextReg(cmd.hardDstReg));
      } else {
        inst.dst := inst.dst.(kind := TypeRegister, register := cmd.hardDstReg);
      }
      if cmd.opHasAddressBytes {
        var address;
        consumed, address := ExtractDirectAddress(buf, at);
        inst.src := inst.src.(kind := TypeDirectAddress, directAddress := address);
      } else if cmd.opHasDataBytes {
        inst.src := inst.src.(kind := TypeData);
      }
    }
    if cmd.opHasHardcodedSrc && cmd.opHasAddressBytes {
      inst.src := inst.src.(kind := TypeRegister, register := cmd.hardSrcReg);
      var address;
      consumed, address := ExtractDirectAddress(buf, at);
      inst.dst := inst.dst.(kind := TypeDirectAddress, directAddress := address);
    }
  }

  /** The decorators the printer needs, and how the immediate is stored. */
  method SetDecorators(cmd: OpcodeBitstream, x: Fields, inst: DecodedInstruction,
      ghost f: Form, ghost b1: byte, ghost m: Instr)
    returns (is8bit: bool, isSignExtended: bool)
    requires IsForm(f) && Describes(cmd, f) && Extracted(f, b1, x) && cmd.opHasDataBytes
    requires m.Two? && !m.dst.Immediate? && inst.dst == Put(NO_SIDE, m.dst) && inst.src == Put(NO_SIDE, m.src)
    requires m.dstHint == if f.Group? then GroupHint(f.s, f.w, m.dst) else NoHint
    requires m.srcHint == if f.Group? then NoHint else ImmHint(f.w, m.dst)
    modifies inst`src, inst`dst
    ensures inst.dst == PutHint(Put(NO_SIDE, m.dst), m.dstHint) && inst.src == PutHint(Put(NO_SIDE, m.src), m.srcHint)
    ensures is8bit <==> DataLen(f) == 1
    ensures is8bit ==> (isSignExtended <==> !(f.Group? && !f.s && !f.w))
  {
    is8bit, isSignExtended := false, false;
    var is16 := IsDst16Bit(inst, m.dst);
    if cmd.byte1HasSFlag {
      var swField := 2 * x.sBit + x.wBit;
      match swField {
        case 0 =>
          is8bit := true;
          if is16 {
            inst.dst := inst.dst.(needsByteDecorator := true);
          }
        case 1 =>
        case 2 =>
          is8bit, isSignExtended := true, true;
        case 3 =>
          is8bit, isSignExtended := true, true;
          if is16 {
            inst.dst := inst.dst.(needsWordDecorator := true);
          }
        case _ => assert false;
      }
    } else if x.wBit == 1 {
      inst.src := inst.src.(needsWordDecorator := true);
    } else {
      is8bit, isSignExtended := true, true;
      if is16 {
        inst.src := inst.src.(needsByteDecorator := true);
      }
    }
  }

  /** The immediate bytes and the decorators. */
  method ParseData(buf: array<byte>, at: nat, ptr: nat, cmd: OpcodeBitstream, x: Fields,
      inst: DecodedInstruction, ghost f: Form)
    returns (consumed: nat)
    requires at < buf.Length && IsForm(f) && Fits(f, buf[at..]) && Meaning(f, buf[at..]).Two?
    requires Describes(cmd, f) && Extracted(f, buf[at + 1], x) && cmd.opHasDataBytes
    requires ptr == at + Header(f, buf[at + 1]) - 1
    requires var m := Meaning(f, buf[at..]); inst.dst == Put(NO_SIDE, m.dst) && inst.src == Put(NO_SIDE, m.src)
    modifies inst`src, inst`srcData, inst`dst
    ensures var m := Meaning(f, buf[at..]);
            && inst.dst == PutHint(Put(NO_SIDE, m.dst), m.dstHint)
            && inst.src == PutHint(Put(NO_SIDE, m.src), m.srcHint)
            && inst.srcData == DataOf(m.src)
    ensures consumed == DataLen(f)
  {
    var is8bit, isSignExtended := SetDecorators(cmd, x, inst, f, buf[at + 1], Meaning(f, buf[at..]));
    var data;
    consumed, data := ExtractData(buf, ptr, is8bit, isSignExtended);
    inst.srcData := data;
  }

  /** The operands and the immediate of an instruction that is not a jump. */
  method ParseBody(buf: array<byte>, at: nat, ptr: nat, cmd: OpcodeBitstream, x: Fields,
      inst: DecodedInstruction, ghost f: Form)
    returns (consumed: nat)
    requires at < buf.Length && IsForm(f) && Fits(f, buf[at..])
    requires Describes(cmd, f) && Extracted(f, buf[at + 1], x)
    requires ptr == if HasModRm(f) then at + 1 else at
    requires inst.src == NO_SIDE && inst.dst == NO_SIDE && inst.srcData == 0
    modifies inst`src, inst`srcData, inst`dst
    ensures var m := Meaning(f, buf[at..]);
            if m.Two? then
              inst.dst == PutHint(Put(NO_SIDE, m.dst), m.dstHint) && inst.src == PutHint(Put(NO_SIDE, m.src), m.srcHint)
              && inst.srcData == DataOf(m.src) && consumed == Length(f, buf[at + 1]) - (ptr - at + 1)
            else inst.dst == NO_SIDE && inst.src == NO_SIDE && inst.srcData == 0 && consumed == 0
  {
    consumed := ParseOperands(buf, at, cmd, x, inst, f);
    if cmd.opHasDataBytes {
      var data := ParseData(buf, at, ptr + consumed, cmd, x, inst, f);
      consumed := consumed + data;
    }
  }

  /** A jump or loop: the operation comes from the low bits of byte 1, the offset is byte 2. */
  method ParseShort(buf: array<byte>, at: nat, inst: DecodedInstruction, ghost f: Form)
    requires at < buf.Length && f.Jump? && f == Classify(buf[at]) && Fits(f, buf[at..])
    modifies inst`op, inst`srcData, inst`instIsShortWData
    ensures inst.op == f.op && inst.srcData == SignExtend(buf[at + 1]) && inst.instIsShortWData
  {
    var firstByte := buf[at];
    inst.instIsShortWData := true;
    var _, data := ExtractData(buf, at, true, true);
    inst.srcData := data;
    if Masked(firstByte, 0xF0) == 0x70 {
      inst.op := JUMPS[firstByte % 16];
    } else if Masked(firstByte, 0xFC) == 0xE0 {
      inst.op := LOOPS[firstByte % 4];
    }
  }

  /** Fills `inst` with the instruction at `buf[at..]` and returns the number of bytes it takes. The bytes of
      the instruction must lie inside the buffer; the row must be the one the first byte selects. */
  method ParseInstruction(buf: array<byte>, at: nat, cmd: OpcodeBitstream, inst: DecodedInstruction)
    returns (consumedBytes: nat)
    requires at < buf.Length
    requires Describes(cmd, Classify(buf[at])) && Fits(Classify(buf[at]), buf[at..])
    modifies inst
    ensures Decode(buf[at..]).Decoded?
    ensures inst.Value() == Flatten(Decode(buf[at..]).instr, Decode(buf[at..]).len)
    ensures consumedBytes == Decode(buf[at..]).len
  {
    ghost var f := Classify(buf[at]);
    ClassifyIsForm(buf[at]);
    inst.Reset();
    inst.op := cmd.op;
    var x, ptr := ExtractFields(buf, at, cmd);
    consumedBytes := ptr - at + 1;
    if cmd.byte2HasOpEncodeField {
      inst.op := GROUP_OPS[x.opEncodeField];
    }
    var consumed := ParseBody(buf, at, ptr, cmd, x, inst, f);
    consumedBytes := consumedBytes + consumed;
    if cmd.isShortInstruction {
      ParseShort(buf, at, inst, f);
      consumedBytes := consumedBytes + 1;
    }
    inst.instNumBytes := consumedBytes;
  }

  /** The first row of a table whose opcode bits match, or the length of the table. */
  method FindRow(table: seq<OpcodeBitstream>, b: byte) returns (row: nat)
    requires forall i :: 0 <= i < |table| ==> table[i].opcodeBitmask in OPCODE_MASKS
    ensures row <= |table| && (row < |table| ==> Matches(table[row], b))
    ensures forall i :: 0 <= i < row ==> !Matches(table[i], b)
  {
    row := 0;
    while row < |table|
      invariant row <= |table| && forall i :: 0 <= i < row ==> !Matches(table[i], b)
    {
      if Matches(table[row], b) {
        return;
      }
      row := row + 1;
    }
  }

  /** Tries the rows in order. Returns 0 exactly when the first byte starts no known instruction. */
  method DecodeBitstream(buf: array<byte>, at: nat, inst: DecodedInstruction) returns (consumed: nat)
    requires at < buf.Length && !Decode(buf[at..]).ReadsPastEnd?
    modifies inst
    ensures consumed == 0 <==> Decode(buf[at..]).Unknown?
    ensures consumed != 0 ==> var d := Decode(buf[at..]);
                              inst.Value() == Flatten(d.instr, d.len) && consumed == d.len
    ensures consumed == 0 ==> inst.Value() == old(inst.Value())
  {
    MatchDescribes(buf[at]);
    var row := FindRow(OP_CMDS, buf[at]);
    consumed := 0;
    if row < 16 {
      consumed := ParseInstruction(buf, at, OP_CMDS[row], inst);
    }
  }
}
