/** The decoded-instruction vocabulary: registers, operations, operands, and the flat record the
    decoder fills in. */
module Isa {
  import opened Words

  /** `MaxReg` is the "no register" value. */
  datatype Reg =
    | AX | AL | AH | BX | BL | BH | CX | CL | CH | DX | DL | DH
    | SP | BP | SI | DI | MaxReg

  datatype SegReg = ES | CS | SS | DS | MaxSegReg

  datatype Op =
    | Mov | Add | Sub | Cmp
    | Jo | Jno | Jb | Jnb | Je | Jnz | Jbe | Ja | Js | Jns | Jp | Jnp | Jl | Jnl | Jle | Jg
    | LoopNz | LoopZ | Loop | Jcxz
    | MaxInst

  predicate IsArith(op: Op) { op.Add? || op.Sub? || op.Cmp? }

  predicate IsBranch(op: Op) { !op.Mov? && !IsArith(op) && !op.MaxInst? }

  datatype OperandType =
    | TypeRegister | TypeSegmentRegister | TypeDirectAddress | TypeEffectiveAddress | TypeData | MaxType

  /** The eight effective-address bases of the r/m field. */
  datatype Base = BxSi | BxDi | BpSi | BpDi | OnlySi | OnlyDi | OnlyBp | OnlyBx

  function Reg1(b: Base): Reg {
    match b
    case BxSi => BX
    case BxDi => BX
    case BpSi => BP
    case BpDi => BP
    case OnlySi => SI
    case OnlyDi => DI
    case OnlyBp => BP
    case OnlyBx => BX
  }

  function Reg2(b: Base): Reg {
    match b
    case BxSi => SI
    case BxDi => DI
    case BpSi => SI
    case BpDi => DI
    case _ => MaxReg
  }

  /** One operand of a two-operand instruction. */
  datatype Operand =
    | Register(reg: Reg)
    | Segment(seg: SegReg)
    | Direct(address: word)
    | Effective(base: Base, displacement: int16)
    | Immediate(data: int16)

  predicate IsMemory(o: Operand) {
    o.Direct? || o.Effective?
  }

  /** The `byte`/`word` decorators the printer needs to keep an operand's size. */
  datatype Hint = NoHint | ByteHint | WordHint

  /** An instruction in structured form. `Short` is a jump or loop with its 8-bit offset. */
  datatype Instr =
    | Two(op: Op, dst: Operand, src: Operand, dstHint: Hint, srcHint: Hint)
    | Short(op: Op, offset: int16)

  predicate IsWide(r: Reg) {
    r.AX? || r.BX? || r.CX? || r.DX? || r.SP? || r.BP? || r.SI? || r.DI?
  }

  predicate IsNarrow(r: Reg) {
    r.AL? || r.AH? || r.BL? || r.BH? || r.CL? || r.CH? || r.DL? || r.DH?
  }

  /** The fields the decoder's result structure has once with prefix `src_` and once with prefix `dst_`. */
  datatype Side = Side(
    kind: OperandType, register: Reg, segRegister: SegReg, directAddress: word,
    effectiveReg1: Reg, effectiveReg2: Reg, effectiveDisplacement: int16,
    needsByteDecorator: bool, needsWordDecorator: bool)

  /** The decoder's result structure, without the text fields. */
  datatype Record = Record(op: Op, numBytes: byte, src: Side, srcData: int16, dst: Side, isShort: bool)

  const NO_SIDE := Side(MaxType, MaxReg, MaxSegReg, 0, MaxReg, MaxReg, 0, false, false)
  const BLANK := Record(MaxInst, 0, NO_SIDE, 0, NO_SIDE, false)

  /** Sets the type tag of a side and the fields that operand uses. */
  function Put(s: Side, o: Operand): Side {
    match o
    case Register(x) => s.(kind := TypeRegister, register := x)
    case Segment(x) => s.(kind := TypeSegmentRegister, segRegister := x)
    case Direct(a) => s.(kind := TypeDirectAddress, directAddress := a)
    case Effective(b, d) =>
      s.(kind := TypeEffectiveAddress, effectiveReg1 := Reg1(b), effectiveReg2 := Reg2(b), effectiveDisplacement := d)
    case Immediate(_) => s.(kind := TypeData)
  }

  function PutHint(s: Side, h: Hint): Side {
    s.(needsByteDecorator := h.ByteHint?, needsWordDecorator := h.WordHint?)
  }

  function DataOf(o: Operand): int16 {
    if o.Immediate? then o.data else 0
  }

  /** The record that stands for an instruction of `len` bytes: all other fields keep their reset value. */
  function Flatten(i: Instr, len: byte): Record {
    match i
    case Two(op, dst, src, dstHint, srcHint) =>
      Record(op, len, PutHint(Put(NO_SIDE, src), srcHint), DataOf(src), PutHint(Put(NO_SIDE, dst), dstHint), false)
    case Short(op, offset) => Record(op, len, NO_SIDE, offset, NO_SIDE, true)
  }

  function BaseOf(r1: Reg, r2: Reg): Base {
    if r2 == MaxReg then
      if r1 == SI then OnlySi else if r1 == DI then OnlyDi else if r1 == BP then OnlyBp else OnlyBx
    else if r1 == BX then
      if r2 == SI then BxSi else BxDi
    else
      if r2 == SI then BpSi else BpDi
  }

  /** Reads an operand back from its type tag and the fields it uses. */
  function Get(s: Side, data: int16): Operand {
    match s.kind
    case TypeRegister => Register(s.register)
    case TypeSegmentRegister => Segment(s.segRegister)
    case TypeDirectAddress => Direct(s.directAddress)
    case TypeEffectiveAddress => Effective(BaseOf(s.effectiveReg1, s.effectiveReg2), s.effectiveDisplacement)
    case _ => Immediate(data)
  }

  function GetHint(s: Side): Hint {
    if s.needsByteDecorator then ByteHint else if s.needsWordDecorator then WordHint else NoHint
  }

  function Unflatten(r: Record): Instr {
    if r.isShort then Short(r.op, r.srcData)
    else Two(r.op, Get(r.dst, 0), Get(r.src, r.srcData), GetHint(r.dst), GetHint(r.src))
  }

  lemma PutGet(o: Operand, h: Hint, data: int16)
    requires o.Immediate? ==> o.data == data
    ensures Get(PutHint(Put(NO_SIDE, o), h), data) == o
  {
  }

  /** No information is lost: the flat record determines the instruction. */
  lemma FlattenFaithful(i: Instr, len: byte)
    requires i.Two? ==> !i.dst.Immediate?
    ensures Unflatten(Flatten(i, len)) == i && Flatten(i, len).numBytes == len
  {
    if i.Two? {
      PutGet(i.dst, i.dstHint, 0);
      PutGet(i.src, i.srcHint, DataOf(i.src));
    }
  }
}
