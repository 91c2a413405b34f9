/** A specification-level assembler for the supported instructions, and the assemble / decode / reassemble
    round trip that the repository's test script performs with an external assembler. */
module Encoder {
  import opened Words
  import opened Isa
  import opened Grammar
  import opened GrammarFacts

  /** An instruction as written in assembly: operands and operation width, or a branch with its offset. */
  datatype Asm =
    | Binary(op: Op, dst: Operand, src: Operand, wide: bool)
    | Branch(op: Op, offset: int)

  predicate IsByte(v: int) {
    -0x80 <= v < 0x80
  }

  /** Immediates the encoding of `op` can carry to `dst`. */
  predicate EncodableData(op: Op, dst: Operand, v: int, wide: bool) {
    wide || (if op == Mov then IsByte(v) else if dst.Register? then -0x80 <= v < 0x100 else 0 <= v < 0x100)
  }

  predicate Encodable(a: Asm) {
    match a
    case Branch(op, offset) => IsBranch(op) && IsByte(offset)
    case Binary(op, dst, src, wide) =>
      && (op.Mov? || IsArith(op))
      && Sized(dst, wide) && Sized(src, wide)
      && match dst {
           case Register(_) =>
             match src {
               case Segment(_) => op == Mov
               case Immediate(v) => EncodableData(op, dst, v, wide)
               case _ => true
             }
           case Segment(_) => op == Mov && !src.Segment? && !src.Immediate?
           case Direct(_) =>
             if src.Immediate? then EncodableData(op, dst, src.data, wide) else op == Mov && src == Register(AX)
           case Effective(_, _) =>
             match src {
               case Register(_) => true
               case Segment(_) => op == Mov
               case Immediate(v) => EncodableData(op, dst, v, wide)
               case _ => false
             }
           case Immediate(_) => false
         }
  }

  // ----- field codes -----

  function RegCode(r: Reg): int {
    match r
    case AL => 0 case CL => 1 case DL => 2 case BL => 3 case AH => 4 case CH => 5 case DH => 6 case BH => 7
    case AX => 0 case CX => 1 case DX => 2 case BX => 3 case SP => 4 case BP => 5 case SI => 6 case DI => 7
    case MaxReg => 0
  }

  function SegCode(s: SegReg): int {
    match s
    case ES => 0 case CS => 1 case SS => 2 case DS => 3 case MaxSegReg => 0
  }

  function BaseCode(b: Base): int {
    match b
    case BxSi => 0 case BxDi => 1 case BpSi => 2 case BpDi => 3
    case OnlySi => 4 case OnlyDi => 5 case OnlyBp => 6 case OnlyBx => 7
  }

  function OpCode(op: Op): int {
    match op
    case Sub => 5
    case Cmp => 7
    case _ => 0
  }

  function JumpByte(op: Op): byte {
    match op
    case Jo => 0x70 case Jno => 0x71 case Jb => 0x72 case Jnb => 0x73 case Je => 0x74 case Jnz => 0x75
    case Jbe => 0x76 case Ja => 0x77 case Js => 0x78 case Jns => 0x79 case Jp => 0x7A case Jnp => 0x7B
    case Jl => 0x7C case Jnl => 0x7D case Jle => 0x7E case Jg => 0x7F
    case LoopNz => 0xE0 case LoopZ => 0xE1 case Loop => 0xE2 case _ => 0xE3
  }

  function W(wide: bool): int { if wide then 1 else 0 }

  function Lo(v: int): byte { v % 0x100 }
  function Hi(v: int): byte { v / 0x100 % 0x100 }

  /** The mod-reg-r/m byte with its displacement bytes, shortest form first. */
  function ModRm(field: int, place: Operand): seq<byte>
    requires 0 <= field < 8 && (place.Register? || IsMemory(place))
  {
    match place
    case Register(r) => [0xC0 + 8 * field + RegCode(r)]
    case Direct(a) => [8 * field + 6, Lo(a), Hi(a)]
    case Effective(b, d) =>
      if d == 0 && b != OnlyBp then [8 * field + BaseCode(b)]
      else if IsByte(d) then [0x40 + 8 * field + BaseCode(b), Lo(d)]
      else [0x80 + 8 * field + BaseCode(b), Lo(d), Hi(d)]
    case _ => []
  }

  /** First byte of the register/memory form with D = 0 and W = 0. */
  function RegMemByte(op: Op): int {
    match op
    case Mov => 0x88
    case Sub => 0x28
    case Cmp => 0x38
    case _ => 0x00
  }

  function DataBytes(v: int, n: int): seq<byte> {
    if n == 2 then [Lo(v), Hi(v)] else [Lo(v)]
  }

  /** Immediate forms: the accumulator and register short forms where they exist, else the general form. */
  function EncodeImm(op: Op, dst: Operand, v: int, wide: bool): seq<byte>
    requires (op.Mov? || IsArith(op)) && (dst.Register? || IsMemory(dst)) && Sized(dst, wide)
  {
    if op == Mov then
      if dst.Register? then [0xB0 + 8 * W(wide) + RegCode(dst.reg)] + DataBytes(v, 1 + W(wide))
      else [0xC6 + W(wide)] + ModRm(0, dst) + DataBytes(v, 1 + W(wide))
    else if dst == Register(AL) && IsByte(v) then [RegMemByte(op) + 4] + DataBytes(v, 1)
    else if dst == Register(AX) && !IsByte(v) then [RegMemByte(op) + 5] + DataBytes(v, 2)
    else if wide then
      if IsByte(v) then [0x83] + ModRm(OpCode(op), dst) + DataBytes(v, 1)
      else [0x81] + ModRm(OpCode(op), dst) + DataBytes(v, 2)
    else [if v < 0 then 0x82 else 0x80] + ModRm(OpCode(op), dst) + DataBytes(v, 1)
  }

  function Encode(a: Asm): seq<byte>
    requires Encodable(a)
  {
    match a
    case Branch(op, offset) => [JumpByte(op), Lo(offset)]
    case Binary(op, dst, src, wide) =>
      if src.Immediate? then EncodeImm(op, dst, src.data, wide)
      else if dst.Segment? then [0x8E] + ModRm(SegCode(dst.seg), src)
      else if src.Segment? then [0x8C] + ModRm(SegCode(src.seg), dst)
      else if dst.Direct? then [0xA3, Lo(dst.address), Hi(dst.address)]
      else if src.Direct? && op == Mov && (dst.reg == AX || dst.reg == AL) then
        [0xA0 + W(wide), Lo(src.address), Hi(src.address)]
      else if IsMemory(src) then [RegMemByte(op) + 2 + W(wide)] + ModRm(RegCode(dst.reg), src)
      else [RegMemByte(op) + W(wide)] + ModRm(RegCode(src.reg), dst)
  }

  /** Reads the assembly text back from a decoded instruction; a memory destination with an immediate
      takes its width from the printed decorator and is a word without one. */
  function Reassemble(i: Instr): Asm {
    match i
    case Short(op, offset) => Branch(op, offset)
    case Two(op, dst, src, dstHint, srcHint) =>
      Binary(op, dst, src,
             if dst.Register? then IsWide(dst.reg)
             else if src.Register? then IsWide(src.reg)
             else if dst.Segment? || src.Segment? then true
             else !dstHint.ByteHint? && !srcHint.ByteHint?)
  }

  // ----- the round trip -----

  lemma LoHiOf(v: int)
    ensures -0x8000 <= v < 0x8000 ==> S16(LoHi(Lo(v), Hi(v))) == v
    ensures 0 <= v < 0x1_0000 ==> LoHi(Lo(v), Hi(v)) == v
    ensures IsByte(v) ==> SignExtend(Lo(v)) == v
    ensures 0 <= v < 0x100 ==> Lo(v) == v
  {
  }

  lemma CodesInverse(r: Reg, b: Base, s: SegReg)
    ensures r != MaxReg ==> 0 <= RegCode(r) < 8 && RegAt(RegCode(r), IsWide(r)) == r
    ensures r != MaxReg ==> IsWide(r) != IsNarrow(r)
    ensures 0 <= BaseCode(b) < 8 && BASES[BaseCode(b)] == b
    ensures s != MaxSegReg ==> 0 <= SegCode(s) < 4 && SEGMENTS[SegCode(s)] == s
  {
  }

  lemma DivideBy8(x: int, q: int, r: int)
    requires x == 8 * q + r && 0 <= r < 8
    ensures x / 8 == q && x % 8 == r
  {
  }

  lemma DivideBy64(x: int, q: int, r: int)
    requires x == 64 * q + r && 0 <= r < 64
    ensures x / 64 == q
  {
  }

  /** The fields of a mod-r/m byte. */
  lemma FieldsOf(mod: int, field: int, rm: int)
    requires 0 <= mod < 4 && 0 <= field < 8 && 0 <= rm < 8
    ensures var b := 0x40 * mod + 8 * field + rm;
            0 <= b < 0x100 && Mod(b) == mod && RegField(b) == field && Rm(b) == rm
  {
    var b := 0x40 * mod + 8 * field + rm;
    DivideBy64(b, mod, 8 * field + rm);
    DivideBy8(b, 8 * mod + field, rm);
    DivideBy8(8 * mod + field, mod, field);
  }

  lemma PlaceOfRegister(s: seq<byte>, field: int, r: Reg, wide: bool)
    requires |s| >= 2 && 0 <= field < 8 && r != MaxReg && IsWide(r) == wide && s[1] == 0xC0 + 8 * field + RegCode(r)
    ensures RegField(s[1]) == field && DispLen(s[1]) == 0 && Place(s, wide) == Register(r) && !IsDirect(s[1])
  {
    CodesInverse(r, BxSi, ES);
    FieldsOf(3, field, RegCode(r));
  }

  lemma PlaceOfDirect(s: seq<byte>, field: int, a: word, wide: bool)
    requires |s| >= 4 && 0 <= field < 8 && s[1] == 8 * field + 6 && s[2] == Lo(a) && s[3] == Hi(a)
    ensures RegField(s[1]) == field && DispLen(s[1]) == 2 && Place(s, wide) == Direct(a) && IsDirect(s[1])
  {
    FieldsOf(0, field, 6);
    LoHiOf(a);
  }

  lemma WordOf(v: int16)
    ensures S16(LoHi(Lo(v), Hi(v))) == v
  {
  }

  lemma ByteOf(v: int)
    requires IsByte(v)
    ensures SignExtend(Lo(v)) == v
  {
  }

  lemma BaseInverse(b: Base)
    ensures 0 <= BaseCode(b) < 8 && BASES[BaseCode(b)] == b && (BaseCode(b) == 6 <==> b == OnlyBp)
  {
  }

  lemma PlaceOfBase(s: seq<byte>, b: Base, d: int16, wide: bool)
    requires |s| >= 2 && Mod(s[1]) < 3 && |s| >= 2 + Mod(s[1]) && Rm(s[1]) == BaseCode(b)
    requires Mod(s[1]) == 0 ==> d == 0 && b != OnlyBp
    requires Mod(s[1]) == 1 ==> SignExtend(s[2]) == d
    requires Mod(s[1]) == 2 ==> S16(LoHi(s[2], s[3])) == d
    ensures DispLen(s[1]) == Mod(s[1]) && Place(s, wide) == Effective(b, d) && !IsDirect(s[1])
  {
    BaseInverse(b);
  }

  /** The operand the mod-r/m byte encodes is the operand decoded from it, whatever surrounds it. */
  lemma PlaceRoundTrip(b0: byte, field: int, o: Operand, wide: bool, rest: seq<byte>)
    requires 0 <= field < 8 && (o.Register? || IsMemory(o)) && Sized(o, wide)
    ensures var s := [b0] + ModRm(field, o) + rest;
            && |s| >= 2 && RegField(s[1]) == field && |ModRm(field, o)| == 1 + DispLen(s[1])
            && Place(s, wide) == o
    ensures IsDirect(([b0] + ModRm(field, o) + rest)[1]) <==> o.Direct?
  {
    var m := ModRm(field, o);
    var s := [b0] + m + rest;
    assert forall k :: 0 <= k < |m| ==> s[k + 1] == m[k];
    match o {
      case Register(r) => PlaceOfRegister(s, field, r, wide);
      case Direct(a) => PlaceOfDirect(s, field, a, wide);
      case Effective(b, d) =>
        FieldsOf(|m| - 1, field, BaseCode(b));
        if |m| == 2 {
          ByteOf(d);
        } else if |m| == 3 {
          WordOf(d);
        }
        PlaceOfBase(s, b, d, wide);
    }
  }

  /** `a` survives: the bytes decode to an instruction of exactly their length that reads back as `a`. */
  predicate Survives(a: Asm, rest: seq<byte>)
    requires Encodable(a)
  {
    var d := Decode(Encode(a) + rest);
    d.Decoded? && d.len == |Encode(a)| && Reassemble(d.instr) == a
  }

  lemma BranchSurvives(a: Asm, rest: seq<byte>)
    requires Encodable(a) && a.Branch?
    ensures Survives(a, rest)
  {
    var s := Encode(a) + rest;
    assert s[0] == JumpByte(a.op) && s[1] == Lo(a.offset);
    assert Classify(s[0]) == Jump(a.op);
    LoHiOf(a.offset);
  }

  lemma RegMemForm(op: Op, d: bool, wide: bool)
    requires op.Mov? || IsArith(op)
    ensures Classify(RegMemByte(op) + 2 * W(d) + W(wide)) == RegMem(op, d, wide)
    ensures op != Mov ==> Classify(RegMemByte(op) + 4 + W(wide)) == ImmToAcc(op, wide)
  {
  }

  lemma RegInverse(r: Reg)
    requires r != MaxReg
    ensures 0 <= RegCode(r) < 8 && RegAt(RegCode(r), IsWide(r)) == r && IsWide(r) != IsNarrow(r)
  {
  }

  lemma MeaningOfRegMem(f: Form, s: seq<byte>, reg: Reg, place: Operand)
    requires f.RegMem? && IsForm(f) && reg != MaxReg && IsWide(reg) == f.w
    requires |s| >= 2 && |s| >= 2 + DispLen(s[1]) && RegField(s[1]) == RegCode(reg)
    requires Place(s, f.w) == place && (IsDirect(s[1]) <==> place.Direct?)
    ensures Fits(f, s) && Length(f, s[1]) == 2 + DispLen(s[1])
    ensures Meaning(f, s) == if f.d || place.Direct? then Two(f.op, Register(reg), place, NoHint, NoHint)
                             else Two(f.op, place, Register(reg), NoHint, NoHint)
  {
    RegInverse(reg);
  }

  lemma RegMemMeaning(f: Form, b0: byte, reg: Reg, place: Operand, rest: seq<byte>)
    requires f.RegMem? && IsForm(f) && reg != MaxReg && IsWide(reg) == f.w
    requires (place.Register? || IsMemory(place)) && Sized(place, f.w)
    ensures 0 <= RegCode(reg) < 8
    ensures var bytes := [b0] + ModRm(RegCode(reg), place);
            var s := bytes + rest;
            && Fits(f, s) && Length(f, s[1]) == |bytes|
            && Meaning(f, s) == if f.d || place.Direct? then Two(f.op, Register(reg), place, NoHint, NoHint)
                                else Two(f.op, place, Register(reg), NoHint, NoHint)
  {
    RegInverse(reg);
    var s := [b0] + ModRm(RegCode(reg), place) + rest;
    PlaceRoundTrip(b0, RegCode(reg), place, f.w, rest);
    MeaningOfRegMem(f, s, reg, place);
  }

  lemma DecodeAs(s: seq<byte>, f: Form)
    requires s != [] && Classify(s[0]) == f && IsForm(f) && Fits(f, s)
    ensures Decode(s) == Decoded(Meaning(f, s), Length(f, s[1]))
  {
  }

  lemma RegMemSurvivesAs(a: Asm, f: Form, b0: byte, reg: Reg, place: Operand, rest: seq<byte>)
    requires Encodable(a) && a.Binary? && reg != MaxReg && IsWide(reg) == a.wide
    requires f.RegMem? && f == Classify(b0) && IsForm(f) && f.w == a.wide
    requires (place.Register? || IsMemory(place)) && Sized(place, a.wide)
    requires 0 <= RegCode(reg) < 8 && Encode(a) == [b0] + ModRm(RegCode(reg), place)
    requires a == if f.d || place.Direct? then Binary(f.op, Register(reg), place, a.wide)
                  else Binary(f.op, place, Register(reg), a.wide)
    ensures Survives(a, rest)
  {
    RegMemMeaning(f, b0, reg, place, rest);
    DecodeAs([b0] + ModRm(RegCode(reg), place) + rest, f);
    if place.Register? {
      RegInverse(place.reg);
    }
  }

  /** Register/memory to or from register: the general two-operand forms. */
  predicate UsesRegMem(a: Asm) {
    && a.Binary? && !a.src.Immediate? && !a.dst.Direct? && !a.dst.Segment? && !a.src.Segment?
    && !(a.src.Direct? && a.op == Mov && a.dst.Register? && (a.dst.reg == AX || a.dst.reg == AL))
  }

  lemma RegCodeRange(r: Reg)
    ensures 0 <= RegCode(r) < 8
  {
  }

  lemma WidthsDiffer(r: Reg)
    requires r != MaxReg
    ensures IsWide(r) != IsNarrow(r)
  {
  }

  lemma EncodeLoad(a: Asm)
    requires Encodable(a) && UsesRegMem(a) && IsMemory(a.src)
    ensures a.dst.Register? && a.dst.reg != MaxReg && IsWide(a.dst.reg) == a.wide && Sized(a.src, a.wide)
    ensures 0 <= RegCode(a.dst.reg) < 8
    ensures Encode(a) == [RegMemByte(a.op) + 2 * W(true) + W(a.wide)] + ModRm(RegCode(a.dst.reg), a.src)
  {
    RegCodeRange(a.dst.reg);
    WidthsDiffer(a.dst.reg);
  }

  lemma EncodeStore(a: Asm)
    requires Encodable(a) && UsesRegMem(a) && !IsMemory(a.src)
    ensures a.src.Register? && a.src.reg != MaxReg && IsWide(a.src.reg) == a.wide && Sized(a.dst, a.wide)
    ensures a.dst.Register? || IsMemory(a.dst)
    ensures 0 <= RegCode(a.src.reg) < 8
    ensures Encode(a) == [RegMemByte(a.op) + 2 * W(false) + W(a.wide)] + ModRm(RegCode(a.src.reg), a.dst)
  {
    RegCodeRange(a.src.reg);
    WidthsDiffer(a.src.reg);
  }

  lemma RegMemSurvives(a: Asm, rest: seq<byte>)
    requires Encodable(a) && UsesRegMem(a)
    ensures Survives(a, rest)
  {
    var load := IsMemory(a.src);
    var b0: byte := RegMemByte(a.op) + 2 * W(load) + W(a.wide);
    RegMemForm(a.op, load, a.wide);
    if load {
      EncodeLoad(a);
      RegMemSurvivesAs(a, RegMem(a.op, true, a.wide), b0, a.dst.reg, a.src, rest);
    } else {
      EncodeStore(a);
      RegMemSurvivesAs(a, RegMem(a.op, false, a.wide), b0, a.src.reg, a.dst, rest);
    }
  }

  lemma SegCodeInverse(s: SegReg)
    requires s != MaxSegReg
    ensures 0 <= SegCode(s) < 4 && SEGMENTS[SegCode(s)] == s
  {
  }

  lemma SrInReg(b: byte)
    ensures RegField(b) < 4 ==> SrField(b) == RegField(b)
  {
  }

  lemma MeaningOfSegment(f: Form, s: seq<byte>, seg: SegReg, place: Operand)
    requires (f.ToSegment? || f.FromSegment?) && seg != MaxSegReg && (f.FromSegment? ==> !place.Direct?)
    requires |s| >= 2 && |s| >= 2 + DispLen(s[1]) && RegField(s[1]) == SegCode(seg)
    requires Place(s, true) == place && (IsDirect(s[1]) <==> place.Direct?)
    ensures Fits(f, s) && Length(f, s[1]) == 2 + DispLen(s[1])
    ensures Meaning(f, s) == if f.ToSegment? then Two(Mov, Segment(seg), place, NoHint, NoHint)
                             else Two(Mov, place, Segment(seg), NoHint, NoHint)
  {
    SegCodeInverse(seg);
    SrInReg(s[1]);
  }

  lemma SegmentMeaning(f: Form, b0: byte, seg: SegReg, place: Operand, rest: seq<byte>)
    requires (f.ToSegment? || f.FromSegment?) && seg != MaxSegReg
    requires (place.Register? || IsMemory(place)) && Sized(place, true) && (f.FromSegment? ==> !place.Direct?)
    ensures var bytes := [b0] + ModRm(SegCode(seg), place);
            var s := bytes + rest;
            && Fits(f, s) && Length(f, s[1]) == |bytes|
            && Meaning(f, s) == if f.ToSegment? then Two(Mov, Segment(seg), place, NoHint, NoHint)
                                else Two(Mov, place, Segment(seg), NoHint, NoHint)
  {
    var s := [b0] + ModRm(SegCode(seg), place) + rest;
    SegCodeInverse(seg);
    PlaceRoundTrip(b0, SegCode(seg), place, true, rest);
    MeaningOfSegment(f, s, seg, place);
  }

  lemma SegmentSurvives(a: Asm, rest: seq<byte>)
    requires Encodable(a) && a.Binary? && (a.dst.Segment? || a.src.Segment?)
    ensures Survives(a, rest)
  {
    if a.dst.Segment? {
      var s := [0x8E] + ModRm(SegCode(a.dst.seg), a.src) + rest;
      assert Encode(a) + rest == s && Classify(0x8E) == ToSegment;
      SegmentMeaning(ToSegment, 0x8E, a.dst.seg, a.src, rest);
    } else {
      var s := [0x8C] + ModRm(SegCode(a.src.seg), a.dst) + rest;
      assert Encode(a) + rest == s && Classify(0x8C) == FromSegment;
      SegmentMeaning(FromSegment, 0x8C, a.src.seg, a.dst, rest);
    }
  }

  /** The accumulator forms A0, A1 and A3. */
  lemma AccumulatorSurvives(a: Asm, rest: seq<byte>)
    requires Encodable(a) && a.Binary? && a.op == Mov && !a.src.Immediate?
    requires a.dst.Direct? || (a.src.Direct? && a.dst.Register? && (a.dst.reg == AX || a.dst.reg == AL))
    ensures Survives(a, rest)
  {
    var s := Encode(a) + rest;
    var address := if a.dst.Direct? then a.dst.address else a.src.address;
    LoHiOf(address);
    assert s[0] == Encode(a)[0] && s[1] == Lo(address) && s[2] == Hi(address);
    assert Classify(s[0]) == if a.dst.Direct? then AccToMem(true) else MemToAcc(a.wide);
  }

  /** Immediates behind a one-byte header: to a register, or to the accumulator. */
  lemma ShortImmSurvives(a: Asm, rest: seq<byte>)
    requires Encodable(a) && a.Binary? && a.src.Immediate? && a.dst.Register?
    requires a.op == Mov || (a.dst.reg == AL && IsByte(a.src.data)) || (a.dst.reg == AX && !IsByte(a.src.data))
    ensures Survives(a, rest)
  {
    var s := Encode(a) + rest;
    LoHiOf(a.src.data);
    CodesInverse(a.dst.reg, BxSi, ES);
    RegMemForm(a.op, false, a.wide);
    assert Classify(s[0]) == if a.op == Mov then ImmToReg(a.wide, RegCode(a.dst.reg)) else ImmToAcc(a.op, a.wide);
    assert s[1] == Lo(a.src.data);
    assert a.wide ==> s[2] == Hi(a.src.data);
  }

  /** The immediate is read back from its bytes. */
  lemma DataRoundTrip(f: Form, v: int, before: seq<byte>, rest: seq<byte>)
    requires DataLen(f) > 0
    requires if DataLen(f) == 2 then -0x8000 <= v < 0x8000
             else if f.Group? && !f.s && !f.w then 0 <= v < 0x100 else IsByte(v)
    ensures DataLen(f) <= 2
    ensures DataAt(before + DataBytes(v, DataLen(f)) + rest, |before|, f) == v
  {
    var s := before + DataBytes(v, DataLen(f)) + rest;
    LoHiOf(v);
    assert s[|before|] == Lo(v);
    assert DataLen(f) == 2 ==> s[|before| + 1] == Hi(v);
  }

  /** Immediates behind a mod-r/m byte. */
  lemma ModRmImmMeaning(f: Form, b0: byte, field: int, dst: Operand, v: int, rest: seq<byte>)
    requires (f.Group? || f.ImmToRegMem?) && 0 <= field < 8 && (dst.Register? || IsMemory(dst)) && Sized(dst, f.w)
    requires if DataLen(f) == 2 then -0x8000 <= v < 0x8000
             else if f.Group? && !f.s && !f.w then 0 <= v < 0x100 else IsByte(v)
    ensures var bytes := [b0] + ModRm(field, dst) + DataBytes(v, DataLen(f));
            var s := bytes + rest;
            && Fits(f, s) && Length(f, s[1]) == |bytes|
            && Meaning(f, s)
               == if f.Group? then Two(GROUP_OPS[field], dst, Immediate(v), GroupHint(f.s, f.w, dst), NoHint)
                  else Two(Mov, dst, Immediate(v), NoHint, ImmHint(f.w, dst))
  {
    var header, bytes := [b0] + ModRm(field, dst), DataBytes(v, DataLen(f));
    assert header + (bytes + rest) == header + bytes + rest;
    PlaceRoundTrip(b0, field, dst, f.w, bytes + rest);
    DataRoundTrip(f, v, header, rest);
  }

  /** What an immediate form means reads back as the instruction it encodes. */
  lemma ImmReassembles(a: Asm, f: Form)
    requires Encodable(a) && a.Binary? && a.src.Immediate? && (f.Group? || (f.ImmToRegMem? && a.op == Mov))
    requires f.w == a.wide && (f.Group? && f.s && !f.w ==> a.dst.Register?)
    ensures Reassemble(if f.Group? then Two(a.op, a.dst, a.src, GroupHint(f.s, f.w, a.dst), NoHint)
                       else Two(a.op, a.dst, a.src, NoHint, ImmHint(f.w, a.dst))) == a
  {
    if a.dst.Register? {
      WidthsDiffer(a.dst.reg);
    }
  }

  lemma SurvivesAs(a: Asm, f: Form, rest: seq<byte>)
    requires Encodable(a) && IsForm(f) && Classify(Encode(a)[0]) == f
    requires var s := Encode(a) + rest;
             Fits(f, s) && Length(f, s[1]) == |Encode(a)| && Reassemble(Meaning(f, s)) == a
    ensures Survives(a, rest)
  {
    DecodeAs(Encode(a) + rest, f);
  }

  lemma ModRmImmSurvives(a: Asm, f: Form, b0: byte, field: int, rest: seq<byte>)
    requires Encodable(a) && a.Binary? && a.src.Immediate? && 0 <= field < 8
    requires f == Classify(b0) && (f.Group? || f.ImmToRegMem?) && f.w == a.wide
    requires Encode(a) == [b0] + ModRm(field, a.dst) + DataBytes(a.src.data, DataLen(f))
    requires a.op == if f.Group? then GROUP_OPS[field] else Mov
    requires DataLen(f) == 1 ==> if f.Group? && !f.s && !f.w then 0 <= a.src.data < 0x100 else IsByte(a.src.data)
    requires f.Group? && f.s && !f.w ==> a.dst.Register?
    ensures Survives(a, rest)
  {
    ModRmImmMeaning(f, b0, field, a.dst, a.src.data, rest);
    ImmReassembles(a, f);
    SurvivesAs(a, f, rest);
  }

  lemma ImmSurvives(a: Asm, rest: seq<byte>)
    requires Encodable(a) && a.Binary? && a.src.Immediate?
    ensures Survives(a, rest)
  {
    var v := a.src.data;
    if a.dst.Register? && (a.op == Mov || (a.dst.reg == AL && IsByte(v)) || (a.dst.reg == AX && !IsByte(v))) {
      ShortImmSurvives(a, rest);
    } else if a.op == Mov {
      ModRmImmSurvives(a, ImmToRegMem(a.wide), 0xC6 + W(a.wide), 0, rest);
    } else if a.wide {
      ModRmImmSurvives(a, Group(IsByte(v), true), if IsByte(v) then 0x83 else 0x81, OpCode(a.op), rest);
    } else {
      ModRmImmSurvives(a, Group(v < 0, false), if v < 0 then 0x82 else 0x80, OpCode(a.op), rest);
    }
  }

  /** Assemble, decode, reassemble: for every supported instruction and whatever bytes follow it, decoding its
      encoding consumes exactly that encoding and gives the instruction back. */
  lemma RoundTrip(a: Asm, rest: seq<byte>)
    requires Encodable(a)
    ensures var d := Decode(Encode(a) + rest);
            d.Decoded? && d.len == |Encode(a)| && Reassemble(d.instr) == a
  {
    if a.Branch? {
      BranchSurvives(a, rest);
    } else if a.src.Immediate? {
      ImmSurvives(a, rest);
    } else if a.dst.Segment? || a.src.Segment? {
      SegmentSurvives(a, rest);
    } else if a.dst.Direct? || (a.src.Direct? && a.op == Mov && (a.dst.reg == AX || a.dst.reg == AL)) {
      AccumulatorSurvives(a, rest);
    } else {
      RegMemSurvives(a, rest);
    }
  }

  /** Reassembling a decoded canonical encoding reproduces its bytes. */
  lemma ReassembledBytes(a: Asm, rest: seq<byte>)
    requires Encodable(a)
    ensures var d := Decode(Encode(a) + rest);
            d.Decoded? && Encodable(Reassemble(d.instr)) && Encode(Reassemble(d.instr)) == (Encode(a) + rest)[..d.len]
  {
    RoundTrip(a, rest);
    assert (Encode(a) + rest)[..|Encode(a)|] == Encode(a);
  }
}
