/** The sixteen opcode rows that drive the library decoder, and the proof that they denote the formats
    of the grammar: every byte matches at most one row, so the order of the table does not matter. */
module OpcodeTable {
  import opened Words
  import opened Isa
  import opened Grammar

  datatype OpcodeBitstream = OpcodeBitstream(
    op: Op, opcode: byte, opcodeBitmask: byte,
    opHasRegisterByte: bool, opHasDataBytes: bool, opHasAddressBytes: bool,
    byte1HasDFlag: bool, byte1HasSFlag: bool, byte1HasWFlag: bool, wFlagShift: int,
    byte1HasRegField: bool, byte2HasRegField: bool, regFieldShift: int,
    byte2HasModField: bool, byte2HasRmField: bool, byte2HasSrField: bool, byte2HasOpEncodeField: bool,
    srIsTarget: bool,
    opHasHardcodedDst: bool, hardDstReg: Reg, opHasHardcodedSrc: bool, hardSrcReg: Reg,
    isShortInstruction: bool)

  const NO_FLAGS := OpcodeBitstream(
    MaxInst, 0, 0, false, false, false, false, false, false, 0, false, false, 0,
    false, false, false, false, false, false, MaxReg, false, MaxReg, false)

  // Register/memory to or from register.
  const REGMEM := NO_FLAGS.(
    opcodeBitmask := 0xFC, opHasRegisterByte := true, byte1HasDFlag := true, byte1HasWFlag := true,
    byte2HasRegField := true, regFieldShift := 3, byte2HasModField := true, byte2HasRmField := true)
  // Immediate to accumulator.
  const IMM_ACC := NO_FLAGS.(
    opcodeBitmask := 0xFE, opHasDataBytes := true, byte1HasWFlag := true,
    opHasHardcodedDst := true, hardDstReg := AX)
  // Register/memory to or from a segment register.
  const SEGMENT := NO_FLAGS.(
    op := Mov, opcodeBitmask := 0xFF, opHasRegisterByte := true, regFieldShift := 3,
    byte2HasModField := true, byte2HasRmField := true, byte2HasSrField := true)

  const MOV1_OP := REGMEM.(op := Mov, opcode := 0x88)
  const MOV2_OP := NO_FLAGS.(
    op := Mov, opcode := 0xC6, opcodeBitmask := 0xFE, opHasRegisterByte := true, opHasDataBytes := true,
    byte1HasWFlag := true, byte2HasModField := true, byte2HasRmField := true)
  const MOV3_OP := NO_FLAGS.(
    op := Mov, opcode := 0xB0, opcodeBitmask := 0xF0, opHasDataBytes := true, byte1HasWFlag := true,
    wFlagShift := 3, byte1HasRegField := true)
  const MOV4_OP := NO_FLAGS.(
    op := Mov, opcode := 0xA0, opcodeBitmask := 0xFE, opHasAddressBytes := true, byte1HasWFlag := true,
    opHasHardcodedDst := true, hardDstReg := AX)
  const MOV5_OP := NO_FLAGS.(
    op := Mov, opcode := 0xA2, opcodeBitmask := 0xFE, opHasAddressBytes := true, byte1HasWFlag := true,
    opHasHardcodedSrc := true, hardSrcReg := AX)
  const MOV6_OP := SEGMENT.(opcode := 0x8E, srIsTarget := true)
  const MOV7_OP := SEGMENT.(opcode := 0x8C)
  const ADD1_OP := REGMEM.(op := Add, opcode := 0x00)
  const MULTI1_OP := NO_FLAGS.(
    opcode := 0x80, opcodeBitmask := 0xFC, opHasRegisterByte := true, opHasDataBytes := true,
    byte1HasSFlag := true, byte1HasWFlag := true, regFieldShift := 3,
    byte2HasModField := true, byte2HasRmField := true, byte2HasOpEncodeField := true)
  const ADD2_OP := IMM_ACC.(op := Add, opcode := 0x04)
  const SUB1_OP := REGMEM.(op := Sub, opcode := 0x28)
  const SUB2_OP := IMM_ACC.(op := Sub, opcode := 0x2C)
  const CMP1_OP := REGMEM.(op := Cmp, opcode := 0x38)
  const CMP2_OP := IMM_ACC.(op := Cmp, opcode := 0x3C)
  const JUMP_OP := NO_FLAGS.(opcode := 0x70, opcodeBitmask := 0xF0, regFieldShift := 3, isShortInstruction := true)
  const LOOP_OP := NO_FLAGS.(opcode := 0xE0, opcodeBitmask := 0xFC, regFieldShift := 3, isShortInstruction := true)

  const OP_CMDS: seq<OpcodeBitstream> := [
    MOV1_OP, MOV2_OP, MOV3_OP, MOV4_OP, MOV5_OP, MOV6_OP, MOV7_OP, ADD1_OP,
    MULTI1_OP, ADD2_OP, SUB1_OP, SUB2_OP, CMP1_OP, CMP2_OP, JUMP_OP, LOOP_OP]

  /** `(*ptr & opcode_bitmask) == opcode`; the masks are those of the table, see `Words.MaskOpcode`. */
  predicate Matches(cmd: OpcodeBitstream, b: byte)
    requires cmd.opcodeBitmask in OPCODE_MASKS
  {
    Masked(b, cmd.opcodeBitmask) == cmd.opcode
  }

  /** The row of a format. */
  function RowOf(f: Form): int {
    match f
    case RegMem(op, _, _) => if op == Mov then 0 else if op == Add then 7 else if op == Sub then 10 else 12
    case ImmToRegMem(_) => 1
    case ImmToReg(_, _) => 2
    case MemToAcc(_) => 3
    case AccToMem(_) => 4
    case ToSegment => 5
    case FromSegment => 6
    case Group(_, _) => 8
    case ImmToAcc(op, _) => if op == Add then 9 else if op == Sub then 11 else 13
    case Jump(op) => if op in {LoopNz, LoopZ, Loop, Jcxz} then 15 else 14
    case NoForm => 16
  }

  /** First byte and number of bytes of each row. */
  const OPCODES: seq<byte> := [
    0x88, 0xC6, 0xB0, 0xA0, 0xA2, 0x8E, 0x8C, 0x00, 0x80, 0x04, 0x28, 0x2C, 0x38, 0x3C, 0x70, 0xE0]
  const COUNTS: seq<int> := [4, 2, 16, 2, 2, 1, 1, 4, 4, 2, 4, 2, 4, 2, 16, 4]

  lemma RowRanges(i: int)
    requires 0 <= i < 16
    ensures OP_CMDS[i].opcode == OPCODES[i] && OP_CMDS[i].opcodeBitmask == 0x100 - COUNTS[i]
  {
    if i < 4 {
    } else if i < 8 {
    } else if i < 12 {
    } else {
    }
  }

  lemma RowOfRange(i: int, b: byte)
    requires 0 <= i < 16
    ensures RowOf(Classify(b)) == i <==> OPCODES[i] <= b < OPCODES[i] + COUNTS[i]
  {
  }

  lemma MaskedRange(b: byte, o: byte, c: int)
    requires c in {1, 2, 4, 16} && Masked(o, 0x100 - c) == o
    ensures Masked(b, 0x100 - c) == o <==> o <= b < o + c
  {
    if c == 1 {
    } else if c == 2 {
    } else if c == 4 {
    } else {
    }
  }

  lemma MatchesRange(cmd: OpcodeBitstream, o: byte, c: int, b: byte)
    requires cmd.opcode == o && cmd.opcodeBitmask == 0x100 - c && c in {1, 2, 4, 16} && Masked(o, 0x100 - c) == o
    ensures cmd.opcodeBitmask in OPCODE_MASKS
    ensures Matches(cmd, b) <==> o <= b < o + c
  {
    MaskedRange(b, o, c);
  }

  lemma CountsAreMasks(i: int)
    requires 0 <= i < 16
    ensures COUNTS[i] in {1, 2, 4, 16} && Masked(OPCODES[i], 0x100 - COUNTS[i]) == OPCODES[i]
  {
  }

  /** A byte matches exactly the one row of its format, and no row when the grammar has no format for it. */
  lemma TableMatchesGrammar(i: int, b: byte)
    requires 0 <= i < 16
    ensures OP_CMDS[i].opcodeBitmask in OPCODE_MASKS
    ensures Matches(OP_CMDS[i], b) <==> RowOf(Classify(b)) == i
  {
    RowRanges(i);
    CountsAreMasks(i);
    RowOfRange(i, b);
    MatchesRange(OP_CMDS[i], OPCODES[i], COUNTS[i], b);
  }

  /** The flags of a row say what the format says. */
  predicate Describes(cmd: OpcodeBitstream, f: Form) {
    && f != NoForm
    && cmd.opHasRegisterByte == cmd.byte2HasModField == cmd.byte2HasRmField == HasModRm(f)
    && cmd.byte1HasDFlag == cmd.byte2HasRegField == f.RegMem?
    && cmd.byte1HasSFlag == cmd.byte2HasOpEncodeField == f.Group?
    && cmd.byte1HasWFlag == !(f.ToSegment? || f.FromSegment? || f.Jump?)
    && cmd.wFlagShift == (if f.ImmToReg? then 3 else 0)
    && cmd.byte1HasRegField == f.ImmToReg?
    && (cmd.byte1HasRegField ==> cmd.regFieldShift == 0)
    && (cmd.byte2HasRegField ==> cmd.regFieldShift == 3)
    && cmd.byte2HasSrField == (f.ToSegment? || f.FromSegment?)
    && cmd.srIsTarget == f.ToSegment?
    && cmd.opHasDataBytes == (f.ImmToRegMem? || f.ImmToReg? || f.Group? || f.ImmToAcc?)
    && cmd.opHasAddressBytes == (f.MemToAcc? || f.AccToMem?)
    && cmd.opHasHardcodedDst == (f.MemToAcc? || f.ImmToAcc?)
    && (cmd.opHasHardcodedDst ==> cmd.hardDstReg == AX)
    && cmd.opHasHardcodedSrc == f.AccToMem?
    && (cmd.opHasHardcodedSrc ==> cmd.hardSrcReg == AX)
    && cmd.isShortInstruction == f.Jump?
    && cmd.op == (match f
                  case RegMem(op, _, _) => op
                  case ImmToAcc(op, _) => op
                  case Group(_, _) => MaxInst
                  case Jump(_) => MaxInst
                  case _ => Mov)
  }

  lemma RegMemRows(f: Form)
    requires IsForm(f) && f.RegMem?
    ensures Describes(OP_CMDS[RowOf(f)], f)
  {
    assert OP_CMDS[RowOf(f)] == REGMEM.(op := f.op, opcode := OPCODES[RowOf(f)]);
  }

  lemma ImmToAccRows(f: Form)
    requires IsForm(f) && f.ImmToAcc?
    ensures Describes(OP_CMDS[RowOf(f)], f)
  {
    assert OP_CMDS[RowOf(f)] == IMM_ACC.(op := f.op, opcode := OPCODES[RowOf(f)]);
  }

  lemma MovRows(f: Form)
    requires f.ImmToRegMem? || (f.ImmToReg? && IsForm(f)) || f.MemToAcc? || f.AccToMem?
    ensures Describes(OP_CMDS[RowOf(f)], f)
  {
    assert OP_CMDS[RowOf(f)] == [MOV2_OP, MOV3_OP, MOV4_OP, MOV5_OP][RowOf(f) - 1];
  }

  lemma SegmentRows(f: Form)
    requires f.ToSegment? || f.FromSegment?
    ensures Describes(OP_CMDS[RowOf(f)], f)
  {
    assert OP_CMDS[RowOf(f)] == if f.ToSegment? then MOV6_OP else MOV7_OP;
  }

  lemma MultiRows(f: Form)
    requires f.Group? || (f.Jump? && IsForm(f))
    ensures Describes(OP_CMDS[RowOf(f)], f)
  {
    assert OP_CMDS[RowOf(f)] == if f.Group? then MULTI1_OP else if RowOf(f) == 14 then JUMP_OP else LOOP_OP;
  }

  lemma RowsDescribeForms(f: Form)
    requires IsForm(f)
    ensures 0 <= RowOf(f) < 16 && Describes(OP_CMDS[RowOf(f)], f)
  {
    if f.RegMem? {
      RegMemRows(f);
    } else if f.ImmToAcc? {
      ImmToAccRows(f);
    } else if f.ToSegment? || f.FromSegment? {
      SegmentRows(f);
    } else if f.Group? || f.Jump? {
      MultiRows(f);
    } else {
      MovRows(f);
    }
  }

  /** A row that matches describes the format of the byte; when no row does, the byte starts no instruction. */
  lemma MatchDescribes(b: byte)
    ensures forall i :: 0 <= i < 16 ==> OP_CMDS[i].opcodeBitmask in OPCODE_MASKS
    ensures forall i :: 0 <= i < 16 && Matches(OP_CMDS[i], b) ==> Describes(OP_CMDS[i], Classify(b))
    ensures (forall i :: 0 <= i < 16 ==> !Matches(OP_CMDS[i], b)) <==> Classify(b) == NoForm
  {
    ClassifyIsForm(b);
    forall i | 0 <= i < 16
      ensures OP_CMDS[i].opcodeBitmask in OPCODE_MASKS
      ensures Matches(OP_CMDS[i], b) ==> Describes(OP_CMDS[i], Classify(b))
      ensures Matches(OP_CMDS[i], b) <==> RowOf(Classify(b)) == i
    {
      TableMatchesGrammar(i, b);
      if Classify(b) != NoForm {
        RowsDescribeForms(Classify(b));
      }
    }
    if Classify(b) != NoForm {
      RowsDescribeForms(Classify(b));
      assert Matches(OP_CMDS[RowOf(Classify(b))], b);
    }
  }
}
