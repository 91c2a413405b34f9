/** What the encoding tables of the Intel 8086 Family User's Manual (October 1979), chapter 4, say an instruction means,
    written down without the library's functions, and exactly where the decoder library departs from them. */
module Manual {
  import opened Words
  import opened Isa
  import opened Grammar

  // ----- the manual -----

  /** An instruction of the modelled subset, its width and its length, or bytes that encode none: an operation outside
      the subset, or a field value the tables mark as not used. A byte immediate is its unsigned value. */
  datatype Encoding =
    | Encodes(op: Op, dst: Operand, src: Operand, wide: bool, len: int)
    | Jumps(op: Op, displacement: int16, len: int)
    | Outside

  /** The REG field, by W (Table 4-9). */
  function ManualReg(field: int, w: bool): Reg {
    match field
    case 0 => if w then AX else AL
    case 1 => if w then CX else CL
    case 2 => if w then DX else DL
    case 3 => if w then BX else BL
    case 4 => if w then SP else AH
    case 5 => if w then BP else CH
    case 6 => if w then SI else DH
    case _ => if w then DI else BH
  }

  function ManualSegment(field: int): SegReg {
    if field == 0 then ES else if field == 1 then CS else if field == 2 then SS else DS
  }

  /** The R/M field of a memory operand (Table 4-10). */
  function ManualBase(rm: int): Base {
    match rm
    case 0 => BxSi
    case 1 => BxDi
    case 2 => BpSi
    case 3 => BpDi
    case 4 => OnlySi
    case 5 => OnlyDi
    case 6 => OnlyBp
    case _ => OnlyBx
  }

  /** Displacement bytes, by the MOD field (Table 4-8); mod=00 with r/m=110 has a 16-bit address. */
  function ManualDisp(mod: int, rm: int): int {
    match mod
    case 0 => if rm == 6 then 2 else 0
    case 1 => 1
    case 2 => 2
    case _ => 0
  }

  function TwosComplement(v: int, bits: int): int
    requires bits == 8 || bits == 16
  {
    if bits == 8 then (if v >= 0x80 then v - 0x100 else v) else if v >= 0x8000 then v - 0x1_0000 else v
  }

  function SignedByte(b: byte): int16 {
    TwosComplement(b, 8)
  }

  function SignedWord(low: byte, high: byte): int16 {
    TwosComplement(low + 0x100 * high, 16)
  }

  /** Two bytes, low byte first. */
  function Word(low: byte, high: byte): word {
    low + 0x100 * high
  }

  function Bit(b: bool): int {
    if b then 1 else 0
  }

  /** The first bytes of the subset, written as the table writes them: fixed bits, the D or S bit, the W bit. */
  lemma OpcodesAreManual(d: bool, w: bool)
    ensures Classify(0x00 + 2 * Bit(d) + Bit(w)) == RegMem(Add, d, w)
    ensures Classify(0x28 + 2 * Bit(d) + Bit(w)) == RegMem(Sub, d, w)
    ensures Classify(0x38 + 2 * Bit(d) + Bit(w)) == RegMem(Cmp, d, w)
    ensures Classify(0x88 + 2 * Bit(d) + Bit(w)) == RegMem(Mov, d, w)
    ensures Classify(0x80 + 2 * Bit(d) + Bit(w)) == Group(d, w)
  {
  }

  lemma ImmediateOpcodesAreManual(w: bool, reg: int)
    requires 0 <= reg < 8
    ensures Classify(0xB0 + 8 * Bit(w) + reg) == ImmToReg(w, reg)
    ensures Classify(0x04 + Bit(w)) == ImmToAcc(Add, w) && Classify(0x2C + Bit(w)) == ImmToAcc(Sub, w)
    ensures Classify(0x3C + Bit(w)) == ImmToAcc(Cmp, w) && Classify(0xC6 + Bit(w)) == ImmToRegMem(w)
  {
  }

  lemma MoveOpcodesAreManual(w: bool)
    ensures Classify(0xA0 + Bit(w)) == MemToAcc(w) && Classify(0xA2 + Bit(w)) == AccToMem(w)
    ensures Classify(0x8C) == FromSegment && Classify(0x8E) == ToSegment
  {
  }

  /** Conditional jumps and loops. */
  lemma JumpOpcodesAreManual()
    ensures Classify(0x70) == Jump(Jo) && Classify(0x71) == Jump(Jno) && Classify(0x72) == Jump(Jb)
    ensures Classify(0x73) == Jump(Jnb) && Classify(0x74) == Jump(Je) && Classify(0x75) == Jump(Jnz)
    ensures Classify(0x76) == Jump(Jbe) && Classify(0x77) == Jump(Ja)
  {
  }

  lemma MoreJumpOpcodesAreManual()
    ensures Classify(0x78) == Jump(Js) && Classify(0x79) == Jump(Jns)
    ensures Classify(0x7A) == Jump(Jp) && Classify(0x7B) == Jump(Jnp)
    ensures Classify(0x7C) == Jump(Jl) && Classify(0x7D) == Jump(Jnl) && Classify(0x7E) == Jump(Jle)
    ensures Classify(0x7F) == Jump(Jg) && Classify(0xE0) == Jump(LoopNz) && Classify(0xE1) == Jump(LoopZ)
    ensures Classify(0xE2) == Jump(Loop) && Classify(0xE3) == Jump(Jcxz)
  {
  }

  /** Every other first byte starts no instruction of the subset. */
  lemma OtherOpcodes(b: byte)
    ensures Classify(b) != NoForm <==>
            (0x00 <= b <= 0x05 || 0x28 <= b <= 0x2D || 0x38 <= b <= 0x3D || 0x70 <= b <= 0x83 || 0x88 <= b <= 0x8C
             || b == 0x8E || 0xA0 <= b <= 0xA3 || 0xB0 <= b <= 0xBF || 0xC6 <= b <= 0xC7 || 0xE0 <= b <= 0xE3)
  {
  }

  /** The operand of the second byte and what follows it. */
  function ManualPlace(s: seq<byte>, w: bool): Operand
    requires |s| >= 2 && |s| >= 2 + ManualDisp(s[1] / 64, s[1] % 8)
  {
    var mod, rm := s[1] / 64, s[1] % 8;
    match mod
    case 0 => if rm == 6 then Direct(Word(s[2], s[3])) else Effective(ManualBase(rm), 0)
    case 1 => Effective(ManualBase(rm), SignedByte(s[2]))
    case 2 => Effective(ManualBase(rm), SignedWord(s[2], s[3]))
    case _ => Register(ManualReg(rm, w))
  }

  /** Bytes of an immediate: two for a word unless S says that one is sign-extended. */
  function ManualDataLen(w: bool, s: bool): int {
    if w && !s then 2 else 1
  }

  function ManualData(s: seq<byte>, k: int, w: bool, sx: bool): int16
    requires 0 <= k && k + ManualDataLen(w, sx) <= |s|
  {
    if w && !sx then SignedWord(s[k], s[k + 1]) else if w then SignedByte(s[k]) else s[k]
  }

  /** The operation the middle field of 80h to 83h selects, among those of the subset. */
  function ManualGroup(field: int): Op {
    match field
    case 0 => Add
    case 5 => Sub
    case 7 => Cmp
    case _ => MaxInst
  }

  function ManualLength(f: Form, b1: byte): int {
    var place := 2 + ManualDisp(b1 / 64, b1 % 8);
    match f
    case RegMem(_, _, _) => place
    case ToSegment => place
    case FromSegment => place
    case ImmToRegMem(w) => place + ManualDataLen(w, false)
    case Group(sx, w) => place + ManualDataLen(w, sx)
    case ImmToReg(w, _) => 1 + ManualDataLen(w, false)
    case ImmToAcc(_, w) => 1 + ManualDataLen(w, false)
    case MemToAcc(_) => 3
    case AccToMem(_) => 3
    case Jump(_) => 2
    case NoForm => 2
  }

  predicate ManualFits(f: Form, s: seq<byte>) {
    |s| >= 2 && |s| >= ManualLength(f, s[1])
  }

  /** The machine instruction encoding table (Table 4-12): the D bit, or the direction of a segment move, always says
      which operand is the destination; the W bit always selects the accumulator; fields the table fixes must have the
      fixed value. */
  function ManualMeaning(f: Form, s: seq<byte>): Encoding
    requires ManualFits(f, s)
  {
    var middle, len := s[1] / 8 % 8, ManualLength(f, s[1]);
    match f
    case RegMem(op, d, w) =>
      var reg, place := Register(ManualReg(middle, w)), ManualPlace(s, w);
      if d then Encodes(op, reg, place, w, len) else Encodes(op, place, reg, w, len)
    case ImmToRegMem(w) =>
      if middle != 0 then Outside
      else Encodes(Mov, ManualPlace(s, w), Immediate(ManualData(s, len - ManualDataLen(w, false), w, false)), w, len)
    case ImmToReg(w, reg) =>
      Encodes(Mov, Register(ManualReg(reg, w)), Immediate(ManualData(s, 1, w, false)), w, len)
    case MemToAcc(w) => Encodes(Mov, Register(ManualReg(0, w)), Direct(Word(s[1], s[2])), w, len)
    case AccToMem(w) => Encodes(Mov, Direct(Word(s[1], s[2])), Register(ManualReg(0, w)), w, len)
    case ToSegment =>
      if middle >= 4 then Outside else Encodes(Mov, Segment(ManualSegment(middle)), ManualPlace(s, true), true, len)
    case FromSegment =>
      if middle >= 4 then Outside else Encodes(Mov, ManualPlace(s, true), Segment(ManualSegment(middle)), true, len)
    case Group(sx, w) =>
      if ManualGroup(middle) == MaxInst then Outside
      else
        Encodes(ManualGroup(middle), ManualPlace(s, w),
                Immediate(ManualData(s, len - ManualDataLen(w, sx), w, sx)), w, len)
    case ImmToAcc(op, w) => Encodes(op, Register(ManualReg(0, w)), Immediate(ManualData(s, 1, w, false)), w, len)
    case Jump(op) => Jumps(op, SignedByte(s[1]), len)
    case NoForm => Outside
  }

  // ----- the comparison -----

  /** The same operand; byte immediates are the same when they agree modulo 256. */
  predicate SameOperand(a: Operand, b: Operand, wide: bool) {
    if a.Immediate? && b.Immediate? && !wide then U8(a.data) == U8(b.data) else a == b
  }

  /** The decoded instruction is the encoded one. Whether the record also keeps its width is `Canonical.WidthIsKept`. */
  predicate Agrees(i: Instr, len: int, e: Encoding) {
    match e
    case Outside => false
    case Jumps(op, displacement, n) => i == Short(op, displacement) && len == n
    case Encodes(op, dst, src, wide, n) =>
      i.Two? && i.op == op && i.dst == dst && SameOperand(i.src, src, wide) && len == n
  }

  /** Where the library departs: stores to a direct address through mod=00 r/m=110; A2h; a selector of 80h to 83h whose
      operation the library does not know; and, in segment and immediate moves, values of the middle field that the
      table does not use. */
  predicate Departs(f: Form, b1: byte) {
    || (((f.RegMem? && !f.d) || f.FromSegment?) && IsDirect(b1))
    || f == AccToMem(false)
    || (f.Group? && GROUP_OPS[RegField(b1)] == MaxInst)
    || ((f.ToSegment? || f.FromSegment?) && RegField(b1) >= 4)
    || (f.ImmToRegMem? && RegField(b1) != 0)
  }

  lemma LengthIsManual(f: Form, b1: byte)
    requires IsForm(f)
    ensures ManualLength(f, b1) == Length(f, b1)
    ensures HasModRm(f) ==> ManualDisp(b1 / 64, b1 % 8) == DispLen(b1)
  {
  }

  lemma RegIsManual(field: int, w: bool)
    requires 0 <= field < 8
    ensures ManualReg(field, w) == RegAt(field, w)
  {
  }

  lemma BaseIsManual(rm: int)
    requires 0 <= rm < 8
    ensures ManualBase(rm) == BASES[rm]
  {
  }

  /** The operand of the second byte is read as the tables say, in every mode. */
  lemma PlaceIsManual(s: seq<byte>, w: bool)
    requires |s| >= 2 && |s| >= 2 + DispLen(s[1])
    ensures ManualDisp(s[1] / 64, s[1] % 8) == DispLen(s[1]) && ManualPlace(s, w) == Place(s, w)
  {
    RegIsManual(Rm(s[1]), w);
    BaseIsManual(Rm(s[1]));
  }

  /** So is an immediate, up to the sign of a byte. */
  lemma DataIsManual(f: Form, s: seq<byte>, k: int, w: bool, sx: bool)
    requires 0 <= k && DataLen(f) > 0 && k + DataLen(f) <= |s|
    requires f == Group(sx, w) || (!sx && (f.ImmToReg? || f.ImmToAcc? || f.ImmToRegMem?) && f.w == w)
    ensures ManualDataLen(w, sx) == DataLen(f)
    ensures SameOperand(Immediate(DataAt(s, k, f)), Immediate(ManualData(s, k, w, sx)), w)
  {
  }

  /** Formats with a second byte and no immediate. */
  lemma MoveIsManual(f: Form, s: seq<byte>)
    requires IsForm(f) && (f.RegMem? || f.ToSegment? || f.FromSegment?) && Fits(f, s)
    ensures ManualFits(f, s)
    ensures Agrees(Meaning(f, s), Length(f, s[1]), ManualMeaning(f, s)) <==> !Departs(f, s[1])
  {
    LengthIsManual(f, s[1]);
    PlaceIsManual(s, if f.RegMem? then f.w else true);
    if f.RegMem? {
      RegIsManual(RegField(s[1]), f.w);
    }
  }

  /** Formats with an immediate. */
  lemma ImmediateIsManual(f: Form, s: seq<byte>)
    requires IsForm(f) && (f.Group? || f.ImmToRegMem? || f.ImmToReg? || f.ImmToAcc?) && Fits(f, s)
    ensures ManualFits(f, s)
    ensures Agrees(Meaning(f, s), Length(f, s[1]), ManualMeaning(f, s)) <==> !Departs(f, s[1])
  {
    LengthIsManual(f, s[1]);
    DataIsManual(f, s, Header(f, s[1]), f.w, f.Group? && f.s);
    if f.Group? || f.ImmToRegMem? {
      PlaceIsManual(s, f.w);
    } else if f.ImmToReg? {
      RegIsManual(f.reg, f.w);
    }
  }

  /** The library decodes what the manual encodes, operation, operands and length, exactly outside those
      instructions. */
  lemma MeaningIsManual(f: Form, s: seq<byte>)
    requires IsForm(f) && Fits(f, s)
    ensures ManualFits(f, s)
    ensures Agrees(Meaning(f, s), Length(f, s[1]), ManualMeaning(f, s)) <==> !Departs(f, s[1])
    ensures ManualMeaning(f, s).Encodes? ==> ManualMeaning(f, s).wide == Width(f)
  {
    LengthIsManual(f, s[1]);
    if f.RegMem? || f.ToSegment? || f.FromSegment? {
      MoveIsManual(f, s);
    } else if f.Group? || f.ImmToRegMem? || f.ImmToReg? || f.ImmToAcc? {
      ImmediateIsManual(f, s);
    }
  }

  /** What the manual makes of a byte string. */
  function ManualDecode(s: seq<byte>): Encoding {
    if |s| == 0 || Classify(s[0]) == NoForm || !ManualFits(Classify(s[0]), s) then Outside
    else ManualMeaning(Classify(s[0]), s)
  }

  lemma FitsIsManual(f: Form, s: seq<byte>)
    requires IsForm(f)
    ensures ManualFits(f, s) <==> Fits(f, s)
  {
    if |s| >= 2 {
      LengthIsManual(f, s[1]);
    }
  }

  /** Without a memory operand nothing departs. */
  lemma RegistersConform(f: Form, s: seq<byte>)
    requires IsForm(f) && ManualFits(f, s) && ManualMeaning(f, s) != Outside
    requires var e := ManualMeaning(f, s); e.Encodes? ==> !IsMemory(e.dst) && !IsMemory(e.src)
    ensures !Departs(f, s[1])
  {
  }

  /** So the bytes of a jump, and of an instruction on registers, segment registers and immediates, are decoded to what
      they encode. */
  lemma DecodeConforms(s: seq<byte>)
    requires ManualDecode(s) != Outside
    requires var e := ManualDecode(s); e.Encodes? ==> !IsMemory(e.dst) && !IsMemory(e.src)
    ensures Decode(s).Decoded? && Agrees(Decode(s).instr, Decode(s).len, ManualDecode(s))
  {
    var f := Classify(s[0]);
    ClassifyIsForm(s[0]);
    FitsIsManual(f, s);
    RegistersConform(f, s);
    MeaningIsManual(f, s);
  }

  // ----- what the departing bytes are decoded to -----

  /** A store to a direct address through mod=00 r/m=110 is decoded as the load with the same operands, operation and
      length. */
  lemma DirectStoreIsReversed(f: Form, s: seq<byte>)
    requires IsForm(f) && Fits(f, s) && IsDirect(s[1])
    requires (f.RegMem? && !f.d) || (f.FromSegment? && RegField(s[1]) < 4)
    ensures ManualFits(f, s) && ManualMeaning(f, s).Encodes?
    ensures var i, e := Meaning(f, s), ManualMeaning(f, s);
            i == Two(e.op, e.src, e.dst, NoHint, NoHint) && Length(f, s[1]) == e.len
  {
    LengthIsManual(f, s[1]);
    PlaceIsManual(s, if f.RegMem? then f.w else true);
    if f.RegMem? {
      RegIsManual(RegField(s[1]), f.w);
    }
  }

  /** A2h is decoded as a store of AX to the address it encodes. */
  lemma ByteStoreTakesAx(s: seq<byte>)
    requires Fits(AccToMem(false), s)
    ensures var e := ManualMeaning(AccToMem(false), s);
            && e == Encodes(Mov, Direct(Word(s[1], s[2])), Register(AL), false, Length(AccToMem(false), s[1]))
            && Meaning(AccToMem(false), s) == Two(Mov, e.dst, Register(AX), NoHint, NoHint)
  {
  }

  /** 80h to 83h with a selector outside the subset keep their operands and length and lose their operation. */
  lemma UnknownSelector(f: Form, s: seq<byte>)
    requires f.Group? && Fits(f, s) && RegField(s[1]) !in [0, 5, 7]
    ensures ManualFits(f, s)
    ensures var i, len := Meaning(f, s), Length(f, s[1]);
            && i.Two? && i.op == MaxInst && i.dst == ManualPlace(s, f.w) && len == ManualLength(f, s[1])
            && SameOperand(i.src, Immediate(ManualData(s, len - ManualDataLen(f.w, f.s), f.w, f.s)), f.w)
  {
    LengthIsManual(f, s[1]);
    PlaceIsManual(s, f.w);
    DataIsManual(f, s, Header(f, s[1]), f.w, f.s);
  }

  /** `s` with another middle field in its second byte. */
  function WithMiddle(s: seq<byte>, field: int): seq<byte>
    requires |s| >= 2 && 0 <= field < 8
  {
    s[1 := s[1] / 64 * 64 + 8 * field + s[1] % 8]
  }

  lemma MiddleFacts(b: byte, field: int)
    requires 0 <= field < 8
    ensures var c := b / 64 * 64 + 8 * field + b % 8; c / 64 == b / 64 && c % 8 == b % 8 && c / 8 % 8 == field
  {
  }

  lemma MiddleOnly(s: seq<byte>, field: int)
    requires |s| >= 2 && 0 <= field < 8
    ensures var used := WithMiddle(s, field);
            && Mod(used[1]) == Mod(s[1]) && Rm(used[1]) == Rm(s[1]) && RegField(used[1]) == field
            && |used| == |s| && used[0] == s[0] && used[2..] == s[2..]
  {
    MiddleFacts(s[1], field);
  }

  lemma SamePlace(s: seq<byte>, t: seq<byte>, w: bool)
    requires 2 <= |s| == |t| && |s| >= 2 + DispLen(s[1]) && Mod(s[1]) == Mod(t[1]) && Rm(s[1]) == Rm(t[1])
    requires s[2..] == t[2..]
    ensures DispLen(s[1]) == DispLen(t[1]) && Place(s, w) == Place(t, w)
  {
    assert forall k :: 2 <= k < |s| ==> s[k] == s[2..][k - 2];
    assert forall k :: 2 <= k < |t| ==> t[k] == t[2..][k - 2];
  }

  lemma SameSegment(b: byte, c: byte)
    requires RegField(b) >= 4 && RegField(c) == RegField(b) - 4
    ensures SrField(b) == SrField(c) == RegField(c)
  {
  }

  /** A segment move whose middle field the table does not use is decoded as the one with four less. */
  lemma UnusedSegmentField(f: Form, s: seq<byte>)
    requires (f.ToSegment? || f.FromSegment?) && Fits(f, s) && RegField(s[1]) >= 4
    ensures var used := WithMiddle(s, RegField(s[1]) - 4);
            && Fits(f, used) && Meaning(f, s) == Meaning(f, used) && Length(f, s[1]) == Length(f, used[1])
            && ManualFits(f, used) && ManualMeaning(f, used).Encodes?
  {
    var used := WithMiddle(s, RegField(s[1]) - 4);
    MiddleOnly(s, RegField(s[1]) - 4);
    SameSegment(s[1], used[1]);
    SamePlace(s, used, true);
    LengthIsManual(f, used[1]);
  }

  /** An immediate move to memory or a register is decoded as the one with middle field zero. */
  lemma UnusedMoveField(f: Form, s: seq<byte>)
    requires f.ImmToRegMem? && Fits(f, s)
    ensures var used := WithMiddle(s, 0);
            && Fits(f, used) && Meaning(f, s) == Meaning(f, used) && Length(f, s[1]) == Length(f, used[1])
            && ManualFits(f, used) && ManualMeaning(f, used).Encodes?
  {
    var used := WithMiddle(s, 0);
    MiddleOnly(s, 0);
    SamePlace(s, used, f.w);
    LengthIsManual(f, used[1]);
  }

  // ----- inputs -----

  /** 88 06 34 12 stores AL, but is decoded as a load into AL; 8C 1E 34 12 stores DS, but is decoded as a load into DS;
      A2 34 12 stores AL, but is decoded as a store of AX. */
  lemma DepartureExamples()
    ensures Decode([0x88, 0x06, 0x34, 0x12]) == Decoded(Two(Mov, Register(AL), Direct(0x1234), NoHint, NoHint), 4)
    ensures ManualMeaning(Classify(0x88), [0x88, 0x06, 0x34, 0x12])
            == Encodes(Mov, Direct(0x1234), Register(AL), false, 4)
    ensures Decode([0x8C, 0x1E, 0x34, 0x12]) == Decoded(Two(Mov, Segment(DS), Direct(0x1234), NoHint, NoHint), 4)
    ensures ManualMeaning(Classify(0x8C), [0x8C, 0x1E, 0x34, 0x12])
            == Encodes(Mov, Direct(0x1234), Segment(DS), true, 4)
    ensures Decode([0xA2, 0x34, 0x12]) == Decoded(Two(Mov, Direct(0x1234), Register(AX), NoHint, NoHint), 3)
    ensures ManualMeaning(Classify(0xA2), [0xA2, 0x34, 0x12])
            == Encodes(Mov, Direct(0x1234), Register(AL), false, 3)
  {
    assert Classify(0x88) == RegMem(Mov, false, false) && Classify(0x8C) == FromSegment;
    assert Classify(0xA2) == AccToMem(false);
  }

  /** 80 0F 05 is an OR, which is decoded with no operation; 8E E0 and C6 0F 05 have unused field values, but are
      decoded as moves. */
  lemma OutsideExamples()
    ensures Decode([0x80, 0x0F, 0x05])
            == Decoded(Two(MaxInst, Effective(OnlyBx, 0), Immediate(5), ByteHint, NoHint), 3)
    ensures Decode([0x8E, 0xE0]) == Decoded(Two(Mov, Segment(ES), Register(AX), NoHint, NoHint), 2)
    ensures Decode([0xC6, 0x0F, 0x05]) == Decoded(Two(Mov, Effective(OnlyBx, 0), Immediate(5), NoHint, ByteHint), 3)
    ensures ManualMeaning(Classify(0x80), [0x80, 0x0F, 0x05]) == Outside
    ensures ManualMeaning(Classify(0x8E), [0x8E, 0xE0]) == Outside
    ensures ManualMeaning(Classify(0xC6), [0xC6, 0x0F, 0x05]) == Outside
  {
    assert Classify(0x80) == Group(false, false) && Classify(0x8E) == ToSegment;
    assert Classify(0xC6) == ImmToRegMem(false);
  }
}
