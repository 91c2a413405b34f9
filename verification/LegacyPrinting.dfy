/** What the older decoder prints, form by form, in terms of the manual's encoding tables, and exactly when that is the
    instruction the bytes encode. */
module LegacyPrinting {
  import opened Words
  import opened Isa
  import opened Grammar
  import opened Manual
  import opened Legacy
  import opened LegacyAgreement

  // ----- how many bytes are missed -----

  /** The exact size of the error for mis-sized instructions: one byte too few where a byte form has an address or a
      16-bit displacement, and one too many where a word form of an immediate has an 8-bit displacement. */
  lemma LengthDifference(f: Form, b1: byte)
    requires IsForm(f) && MisSized(f, b1)
    ensures LegacyLength(f, b1) - Length(f, b1)
            == if (f.ImmToRegMem? || f.Group?) && f.w && Mod(b1) == 1 then 1 else -1
  {
  }

  // ----- the operands -----

  /** The middle field as a register, or as a segment register, of which two bits are used. */
  function FieldOperand(f: Form, b1: byte): Operand {
    if f.RegMem? then Register(ManualReg(b1 / 8 % 8, f.w)) else Segment(ManualSegment(b1 / 8 % 4))
  }

  /** Which operand the field is: the D bit or the direction of the segment move says so, except that a direct address
      is always the source. */
  predicate FieldIsDestination(f: Form, b1: byte) {
    f.ToSegment? || (f.RegMem? && f.d) || (b1 / 64 == 0 && b1 % 8 == 6)
  }

  /** The displacement or address that a register/memory form or a segment move reads: one byte of address for byte
      forms and segment moves. */
  function MoveDisplacement(f: Form, s: seq<byte>): int16
    requires (f.RegMem? || f.ToSegment? || f.FromSegment?) && LegacyFits(f, s)
  {
    var mod, rm := s[1] / 64, s[1] % 8;
    match mod
    case 0 => if rm != 6 then 0 else if f.RegMem? && f.w then SignedWord(s[2], s[3]) else SignedByte(s[2])
    case 1 => SignedByte(s[2])
    case 2 => SignedWord(s[2], s[3])
    case _ => 0
  }

  /** The other operand: a register as the base of a segment move with a displacement. */
  function MovePlace(f: Form, s: seq<byte>): Text
    requires (f.RegMem? || f.ToSegment? || f.FromSegment?) && LegacyFits(f, s)
  {
    var mod, rm, d := s[1] / 64, s[1] % 8, MoveDisplacement(f, s);
    match mod
    case 0 => if rm == 6 then Plain(Direct(U16(d))) else Plain(Effective(ManualBase(rm), 0))
    case 3 => Plain(Register(ManualReg(rm, f.RegMem? ==> f.w)))
    case _ => if f.RegMem? then Plain(Effective(ManualBase(rm), d)) else InBrackets(ManualReg(rm, true), d)
  }

  lemma SignsAgree(low: byte, high: byte)
    ensures SignExtend(low) == SignedByte(low) && S16(LoHi(low, high)) == SignedWord(low, high)
    ensures U16(SignedWord(low, high)) == Word(low, high)
  {
  }

  lemma MovePlacePrinted(f: Form, s: seq<byte>)
    requires (f.RegMem? || f.ToSegment? || f.FromSegment?) && LegacyFits(f, s)
    ensures MovePlace(f, s) == LegacyPlace(f, s) && MoveDisplacement(f, s) == LegacyDisplacement(f, s)
  {
    RegIsManual(Rm(s[1]), f.RegMem? ==> f.w);
    BaseIsManual(Rm(s[1]));
    if LegacyDispLen(f, s[1]) > 0 {
      SignsAgree(s[2], if |s| > 3 then s[3] else 0);
    }
  }

  /** Register/memory forms and segment moves. */
  lemma MovePrinted(f: Form, s: seq<byte>)
    requires IsForm(f) && (f.RegMem? || f.ToSegment? || f.FromSegment?) && LegacyFits(f, s)
    ensures var op, field, place := if f.RegMem? then f.op else Mov, Plain(FieldOperand(f, s[1])), MovePlace(f, s);
            var dst, src := if FieldIsDestination(f, s[1]) then field else place,
                            if FieldIsDestination(f, s[1]) then place else field;
            LegacyMeaning(f, s) == Line(op, dst, src, NoHint, NoHint, MoveDisplacement(f, s), 0)
  {
    MovePlacePrinted(f, s);
    if f.RegMem? {
      RegIsManual(RegField(s[1]), f.w);
    }
  }

  /** The displacement of the immediate forms takes one or two bytes, by the W bit. */
  function ByWidth(s: seq<byte>, k: int, w: bool): int16
    requires 0 <= k && k + (if w then 2 else 1) <= |s|
  {
    if w then SignedWord(s[k], s[k + 1]) else SignedByte(s[k])
  }

  predicate HasDisplacement(b1: byte) {
    b1 / 64 == 1 || b1 / 64 == 2 || (b1 / 64 == 0 && b1 % 8 == 6)
  }

  lemma ImmediateLayout(f: Form, b1: byte)
    requires f.ImmToRegMem? || f.Group?
    ensures LegacyHeader(f, b1) == if !HasDisplacement(b1) then 2 else if f.w then 4 else 3
  {
  }

  lemma ByWidthPrinted(s: seq<byte>, k: int, w: bool)
    requires 0 <= k && k + (if w then 2 else 1) <= |s|
    ensures ByWidth(s, k, w) == if w then S16(LoHi(s[k], s[k + 1])) else SignExtend(s[k])
  {
    SignsAgree(s[k], if w then s[k + 1] else 0);
  }

  /** The displacement of an immediate form, and its first immediate byte. */
  function ImmediateDisplacement(w: bool, s: seq<byte>): int16
    requires |s| >= 2 && (HasDisplacement(s[1]) ==> |s| >= if w then 4 else 3)
  {
    if HasDisplacement(s[1]) then ByWidth(s, 2, w) else 0
  }

  function ImmediateAt(b1: byte, w: bool): int {
    if !HasDisplacement(b1) then 2 else if w then 4 else 3
  }

  lemma ImmediatePlacePrinted(f: Form, s: seq<byte>)
    requires (f.ImmToRegMem? || f.Group?) && LegacyFits(f, s)
    ensures LegacyHeader(f, s[1]) == ImmediateAt(s[1], f.w)
    ensures LegacyDisplacement(f, s) == ImmediateDisplacement(f.w, s)
    ensures RegAt(Rm(s[1]), f.w) == ManualReg(s[1] % 8, f.w) && BASES[Rm(s[1])] == ManualBase(s[1] % 8)
  {
    RegIsManual(Rm(s[1]), f.w);
    BaseIsManual(Rm(s[1]));
    if HasDisplacement(s[1]) {
      ByWidthPrinted(s, 2, f.w);
    }
  }

  /** C6h and C7h: brackets around a register destination, a base where the address is direct, and `word` only for
      mod=10 and mod=11. */
  lemma ImmediateMovePrinted(w: bool, s: seq<byte>)
    requires LegacyFits(ImmToRegMem(w), s)
    ensures var mod, rm, d := s[1] / 64, s[1] % 8, ImmediateDisplacement(w, s);
            var v := ByWidth(s, ImmediateAt(s[1], w), w);
            var dst := if mod == 3 then InBrackets(ManualReg(rm, w), 0) else Plain(Effective(ManualBase(rm), d));
            LegacyMeaning(ImmToRegMem(w), s)
            == Line(Mov, dst, Plain(Immediate(v)), NoHint, if w && mod >= 2 then WordHint else ByteHint, d, v)
  {
    ImmediatePlacePrinted(ImmToRegMem(w), s);
    ByWidthPrinted(s, ImmediateAt(s[1], w), w);
  }

  lemma GroupOpIsManual(b1: byte)
    ensures GROUP_OPS[RegField(b1)] == ManualGroup(b1 / 8 % 8)
  {
  }

  /** 80h to 83h: the immediate of 83h is a sign-extended byte, and a size is printed for every memory operand. */
  lemma GroupPrinted(sx: bool, w: bool, s: seq<byte>)
    requires |s| >= 2 && (ManualGroup(s[1] / 8 % 8) != MaxInst ==> LegacyFits(Group(sx, w), s))
    ensures ManualGroup(s[1] / 8 % 8) == MaxInst <==> BadGroup(Group(sx, w), s[1])
    ensures ManualGroup(s[1] / 8 % 8) == MaxInst ==> LegacyMeaning(Group(sx, w), s) == BadSelector
    ensures ManualGroup(s[1] / 8 % 8) != MaxInst ==>
              var mod, rm, d, k := s[1] / 64, s[1] % 8, ImmediateDisplacement(w, s), ImmediateAt(s[1], w);
              var v := if sx || w then ByWidth(s, k, w && !sx) else s[k];
              var dst := if mod == 3 then Register(ManualReg(rm, w))
                         else if mod == 0 && rm == 6 then Direct(U16(d)) else Effective(ManualBase(rm), d);
              LegacyMeaning(Group(sx, w), s)
              == Line(ManualGroup(s[1] / 8 % 8), Plain(dst), Plain(Immediate(v)),
                      if mod == 3 then NoHint else if w then WordHint else ByteHint, NoHint, d, v)
  {
    GroupOpIsManual(s[1]);
    if !BadGroup(Group(sx, w), s[1]) {
      ImmediatePlacePrinted(Group(sx, w), s);
      ByWidthPrinted(s, ImmediateAt(s[1], w), w && !sx);
    }
  }

  /** A0h to A3h: always AX, and for byte forms one byte of address. */
  lemma AccumulatorPrinted(w: bool, s: seq<byte>)
    requires |s| >= (if w then 3 else 2)
    ensures var a := Plain(Direct(if w then Word(s[1], s[2]) else s[1]));
            && LegacyMeaning(MemToAcc(w), s) == Line(Mov, Plain(Register(AX)), a, NoHint, NoHint, 0, 0)
            && LegacyMeaning(AccToMem(w), s) == Line(Mov, a, Plain(Register(AX)), NoHint, NoHint, 0, 0)
  {
  }

  /** Immediates to a register or the accumulator. */
  lemma RegisterImmediatePrinted(f: Form, s: seq<byte>)
    requires IsForm(f) && (f.ImmToReg? || f.ImmToAcc?) && LegacyFits(f, s)
    ensures var v, r := ByWidth(s, 1, f.w), ManualReg(if f.ImmToReg? then f.reg else 0, f.w);
            LegacyMeaning(f, s)
            == Line(if f.ImmToReg? then Mov else f.op, Plain(Register(r)), Plain(Immediate(v)), NoHint, NoHint, 0, v)
  {
    ByWidthPrinted(s, 1, f.w);
    RegIsManual(if f.ImmToReg? then f.reg else 0, f.w);
  }

  // ----- when it is what the bytes encode -----

  /** The line denotes the encoded instruction, with the right size where an immediate meets memory. */
  predicate Denotes(l: Line, e: Encoding) {
    match e
    case Outside => false
    case Jumps(op, displacement, _) => l == Branch(op, displacement)
    case Encodes(op, dst, src, wide, _) =>
      && l.Line? && l.op == op && l.dst == Plain(dst) && l.src.Plain? && SameOperand(l.src.o, src, wide)
      && (IsMemory(dst) && src.Immediate? ==> Size(l.dstSize, l.srcSize) == if wide then WordHint else ByteHint)
  }

  lemma MoveIsRightIff(f: Form, s: seq<byte>)
    requires IsForm(f) && (f.RegMem? || f.ToSegment? || f.FromSegment?) && LegacyFits(f, s) && ManualFits(f, s)
    requires !MisSized(f, s[1])
    ensures Denotes(LegacyMeaning(f, s), ManualMeaning(f, s)) <==> !MisPrinted(f, s[1]) && !Departs(f, s[1])
  {
    MovePrinted(f, s);
    if f.RegMem? && IsDirect(s[1]) {
      SignsAgree(s[2], s[3]);
    }
  }

  /** Where the sizes agree, the displacement the older decoder reads is the encoded one. */
  lemma ImmediatePlace(f: Form, s: seq<byte>)
    requires (f.ImmToRegMem? || f.Group?) && LegacyFits(f, s) && ManualFits(f, s) && !MisSized(f, s[1])
    ensures var mod, rm, d := s[1] / 64, s[1] % 8, ImmediateDisplacement(f.w, s);
            ManualPlace(s, f.w) == if mod == 3 then Register(ManualReg(rm, f.w))
                                   else if mod == 0 && rm == 6 then Direct(U16(d))
                                   else Effective(ManualBase(rm), d)
    ensures 2 + ManualDisp(s[1] / 64, s[1] % 8) == ImmediateAt(s[1], f.w)
  {
    if HasDisplacement(s[1]) && f.w {
      SignsAgree(s[2], s[3]);
    }
  }

  lemma ImmediateMoveIsRightIff(w: bool, s: seq<byte>)
    requires LegacyFits(ImmToRegMem(w), s) && ManualFits(ImmToRegMem(w), s) && !MisSized(ImmToRegMem(w), s[1])
    ensures Denotes(LegacyMeaning(ImmToRegMem(w), s), ManualMeaning(ImmToRegMem(w), s))
            <==> !MisPrinted(ImmToRegMem(w), s[1]) && !Departs(ImmToRegMem(w), s[1])
  {
    ImmediateMovePrinted(w, s);
    ImmediatePlace(ImmToRegMem(w), s);
  }

  lemma GroupIsRight(sx: bool, w: bool, s: seq<byte>)
    requires LegacyFits(Group(sx, w), s) && ManualFits(Group(sx, w), s)
    requires !MisSized(Group(sx, w), s[1]) && !BadGroup(Group(sx, w), s[1])
    ensures Denotes(LegacyMeaning(Group(sx, w), s), ManualMeaning(Group(sx, w), s))
  {
    GroupPrinted(sx, w, s);
    ImmediatePlace(Group(sx, w), s);
  }

  /** The older decoder prints the encoded instruction and consumes its bytes exactly when it neither mis-sizes nor
      mis-prints it and the instruction is none of those for which the library departs from the manual as well. */
  lemma PrintedIsManualIff(f: Form, s: seq<byte>)
    requires IsForm(f) && LegacyFits(f, s) && ManualFits(f, s) && !BadGroup(f, s[1])
    ensures Denotes(LegacyMeaning(f, s), ManualMeaning(f, s)) && LegacyLength(f, s[1]) == ManualLength(f, s[1])
            <==> !MisSized(f, s[1]) && !MisPrinted(f, s[1]) && !Departs(f, s[1])
  {
    LengthIsManual(f, s[1]);
    LengthAgreement(f, s[1]);
    if !MisSized(f, s[1]) {
      if f.RegMem? || f.ToSegment? || f.FromSegment? {
        MoveIsRightIff(f, s);
      } else if f.ImmToRegMem? {
        ImmediateMoveIsRightIff(f.w, s);
      } else if f.Group? {
        GroupIsRight(f.s, f.w, s);
      } else if f.ImmToReg? || f.ImmToAcc? {
        RegisterImmediatePrinted(f, s);
      } else if f.MemToAcc? || f.AccToMem? {
        AccumulatorPrinted(true, s);
      }
    }
  }
}
