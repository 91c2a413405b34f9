/** The instruction formats of the 8086 subset: which format a first byte selects, how long the instruction is, and
    what the decoder library takes it to mean. This is the reference that both decoders are measured against; where it
    departs from the encoding tables is stated exactly in `Manual`. */
module Grammar {
  import opened Words
  import opened Isa

  /** One constructor per row of the opcode table; `d`, `s`, `w` and `reg` are the fields of byte 1. */
  datatype Form =
    | RegMem(op: Op, d: bool, w: bool)
    | ImmToRegMem(w: bool)
    | ImmToReg(w: bool, reg: int)
    | MemToAcc(w: bool)
    | AccToMem(w: bool)
    | ToSegment
    | FromSegment
    | Group(s: bool, w: bool)
    | ImmToAcc(op: Op, w: bool)
    | Jump(op: Op)
    | NoForm

  const JUMPS: seq<Op> := [Jo, Jno, Jb, Jnb, Je, Jnz, Jbe, Ja, Js, Jns, Jp, Jnp, Jl, Jnl, Jle, Jg]
  const LOOPS: seq<Op> := [LoopNz, LoopZ, Loop, Jcxz]

  function BitW(b: byte): bool { b % 2 == 1 }
  function BitD(b: byte): bool { b / 2 % 2 == 1 }

  function Classify(b: byte): Form {
    if b < 0x04 then RegMem(Add, BitD(b), BitW(b))
    else if b < 0x06 then ImmToAcc(Add, BitW(b))
    else if 0x28 <= b < 0x2C then RegMem(Sub, BitD(b), BitW(b))
    else if 0x2C <= b < 0x2E then ImmToAcc(Sub, BitW(b))
    else if 0x38 <= b < 0x3C then RegMem(Cmp, BitD(b), BitW(b))
    else if 0x3C <= b < 0x3E then ImmToAcc(Cmp, BitW(b))
    else if 0x70 <= b < 0x80 then Jump(JUMPS[b - 0x70])
    else if 0x80 <= b < 0x84 then Group(BitD(b), BitW(b))
    else if 0x88 <= b < 0x8C then RegMem(Mov, BitD(b), BitW(b))
    else if b == 0x8C then FromSegment
    else if b == 0x8E then ToSegment
    else if 0xA0 <= b < 0xA2 then MemToAcc(BitW(b))
    else if 0xA2 <= b < 0xA4 then AccToMem(BitW(b))
    else if 0xB0 <= b < 0xC0 then ImmToReg(b / 8 % 2 == 1, b % 8)
    else if 0xC6 <= b < 0xC8 then ImmToRegMem(BitW(b))
    else if 0xE0 <= b < 0xE4 then Jump(LOOPS[b - 0xE0])
    else NoForm
  }

  /** The forms that occur. */
  predicate IsForm(f: Form) {
    match f
    case RegMem(op, _, _) => op.Mov? || IsArith(op)
    case ImmToAcc(op, _) => IsArith(op)
    case ImmToReg(_, reg) => 0 <= reg < 8
    case Jump(op) => IsBranch(op)
    case NoForm => false
    case _ => true
  }

  lemma ClassifyIsForm(b: byte)
    ensures Classify(b) == NoForm || IsForm(Classify(b))
  {
  }

  // ----- fields of the second byte -----

  function Mod(b: byte): int { b / 64 }
  function RegField(b: byte): int { b / 8 % 8 }
  function SrField(b: byte): int { b / 8 % 4 }
  function Rm(b: byte): int { b % 8 }

  predicate IsDirect(b1: byte) {
    Mod(b1) == 0 && Rm(b1) == 6
  }

  const NARROW: seq<Reg> := [AL, CL, DL, BL, AH, CH, DH, BH]
  const WIDE: seq<Reg> := [AX, CX, DX, BX, SP, BP, SI, DI]
  const BASES: seq<Base> := [BxSi, BxDi, BpSi, BpDi, OnlySi, OnlyDi, OnlyBp, OnlyBx]
  const SEGMENTS: seq<SegReg> := [ES, CS, SS, DS]
  const GROUP_OPS: seq<Op> := [Add, MaxInst, MaxInst, MaxInst, MaxInst, Sub, MaxInst, Cmp]

  function RegAt(field: int, w: bool): Reg
    requires 0 <= field < 8
  {
    if w then WIDE[field] else NARROW[field]
  }

  // ----- lengths -----

  predicate HasModRm(f: Form) {
    f.RegMem? || f.ImmToRegMem? || f.ToSegment? || f.FromSegment? || f.Group?
  }

  function DispLen(b1: byte): int {
    if IsDirect(b1) || Mod(b1) == 2 then 2 else if Mod(b1) == 1 then 1 else 0
  }

  /** The operand width of a form; segment moves are always 16 bits wide. */
  predicate Width(f: Form) {
    match f
    case RegMem(_, _, w) => w
    case ImmToRegMem(w) => w
    case ImmToReg(w, _) => w
    case MemToAcc(w) => w
    case AccToMem(w) => w
    case Group(_, w) => w
    case ImmToAcc(_, w) => w
    case Jump(_) => false
    case _ => true
  }

  /** Immediate bytes; a sign-extended word immediate takes one. */
  function DataLen(f: Form): int {
    match f
    case ImmToRegMem(w) => if w then 2 else 1
    case ImmToReg(w, _) => if w then 2 else 1
    case ImmToAcc(_, w) => if w then 2 else 1
    case Group(s, w) => if w && !s then 2 else 1
    case Jump(_) => 1
    case _ => 0
  }

  function Header(f: Form, b1: byte): int {
    if HasModRm(f) then 2 + DispLen(b1)
    else if f.MemToAcc? || f.AccToMem? then 3
    else 1
  }

  function Length(f: Form, b1: byte): int {
    Header(f, b1) + DataLen(f)
  }

  // ----- meaning -----

  /** The displacement that follows the second byte. */
  function Displacement(s: seq<byte>): int16
    requires |s| >= 2 && |s| >= 2 + DispLen(s[1])
  {
    if DispLen(s[1]) == 0 then 0
    else if DispLen(s[1]) == 1 then SignExtend(s[2])
    else S16(LoHi(s[2], s[3]))
  }

  /** The operand the mod and r/m fields select. */
  function Place(s: seq<byte>, w: bool): Operand
    requires |s| >= 2 && |s| >= 2 + DispLen(s[1])
  {
    if Mod(s[1]) == 3 then Register(RegAt(Rm(s[1]), w))
    else if IsDirect(s[1]) then Direct(LoHi(s[2], s[3]))
    else Effective(BASES[Rm(s[1])], Displacement(s))
  }

  /** The immediate at offset `k`: two bytes, or one byte sign- or zero-extended. */
  function DataAt(s: seq<byte>, k: int, f: Form): int16
    requires 0 <= k && k + DataLen(f) <= |s| && DataLen(f) > 0
  {
    if DataLen(f) == 2 then S16(LoHi(s[k], s[k + 1]))
    else if f.Group? && !f.s && !f.w then s[k]
    else SignExtend(s[k])
  }

  /** Destinations that the printer treats as 16 bits wide. */
  predicate Is16Bit(dst: Operand) {
    match dst
    case Register(r) => IsWide(r)
    case _ => true
  }

  function ImmHint(w: bool, dst: Operand): Hint {
    if w then WordHint else if Is16Bit(dst) then ByteHint else NoHint
  }

  function GroupHint(s: bool, w: bool, dst: Operand): Hint {
    if !s && !w && Is16Bit(dst) then ByteHint
    else if s && w && Is16Bit(dst) then WordHint
    else NoHint
  }

  predicate Fits(f: Form, s: seq<byte>) {
    |s| >= 2 && |s| >= Length(f, s[1])
  }

  /** What the bytes of an instruction of form `f` mean. */
  function Meaning(f: Form, s: seq<byte>): Instr
    requires IsForm(f) && Fits(f, s)
  {
    match f
    case RegMem(op, d, w) =>
      var reg, place := Register(RegAt(RegField(s[1]), w)), Place(s, w);
      if d || IsDirect(s[1]) then Two(op, reg, place, NoHint, NoHint) else Two(op, place, reg, NoHint, NoHint)
    case ImmToRegMem(w) =>
      var dst := Place(s, w);
      Two(Mov, dst, Immediate(DataAt(s, Header(f, s[1]), f)), NoHint, ImmHint(w, dst))
    case ImmToReg(w, reg) =>
      var dst := Register(RegAt(reg, w));
      Two(Mov, dst, Immediate(DataAt(s, 1, f)), NoHint, ImmHint(w, dst))
    case MemToAcc(w) => Two(Mov, Register(if w then AX else AL), Direct(LoHi(s[1], s[2])), NoHint, NoHint)
    case AccToMem(w) => Two(Mov, Direct(LoHi(s[1], s[2])), Register(AX), NoHint, NoHint)
    case ToSegment => Two(Mov, Segment(SEGMENTS[SrField(s[1])]), Place(s, true), NoHint, NoHint)
    case FromSegment =>
      var seg, place := Segment(SEGMENTS[SrField(s[1])]), Place(s, true);
      if IsDirect(s[1]) then Two(Mov, seg, place, NoHint, NoHint) else Two(Mov, place, seg, NoHint, NoHint)
    case Group(sx, w) =>
      var dst := Place(s, w);
      Two(GROUP_OPS[RegField(s[1])], dst, Immediate(DataAt(s, Header(f, s[1]), f)), GroupHint(sx, w, dst), NoHint)
    case ImmToAcc(op, w) =>
      var dst := Register(if w then AX else AL);
      Two(op, dst, Immediate(DataAt(s, 1, f)), NoHint, ImmHint(w, dst))
    case Jump(op) => Short(op, SignExtend(s[1]))
  }

  /** `ReadsPastEnd` marks bytes the C decoder would fetch from beyond the buffer. */
  datatype Decoded =
    | Decoded(instr: Instr, len: byte)
    | Unknown
    | ReadsPastEnd

  function Decode(s: seq<byte>): Decoded {
    if |s| == 0 then ReadsPastEnd
    else
      var f := Classify(s[0]);
      if f == NoForm then Unknown
      else if !Fits(f, s) then ReadsPastEnd
      else ClassifyIsForm(s[0]); Decoded(Meaning(f, s), Length(f, s[1]))
  }
}
