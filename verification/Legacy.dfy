/** The first, hand-written decoder: one routine per instruction family and a chain of comparisons to pick
    the routine. It prints text; a printed operand is kept here as the operand the text denotes. */
module Legacy {
  import opened Words
  import opened Isa
  import opened Grammar

  /** `InBrackets` is a register printed where a memory base belongs, as in `[ax + 5]`. */
  datatype Text = Plain(o: Operand) | InBrackets(reg: Reg, displacement: int16)

  /** A printed line; `dstSize` and `srcSize` are the `byte` or `word` keywords in front of the operands. */
  datatype Line =
    | Line(op: Op, dst: Text, src: Text, dstSize: Hint, srcSize: Hint, displacement: int16, data: int16)
    | Branch(op: Op, data: int16)
    | BadSelector
    | NotRecognized

  // ----- specification -----

  predicate WideDisplacement(f: Form) {
    match f
    case RegMem(_, _, w) => w
    case ImmToRegMem(w) => w
    case Group(_, w) => w
    case _ => false
  }

  /** Bytes the displacement takes: where the manual fixes the size by the mod field, this decoder uses the W
      bit for direct addresses, and for every displacement of the immediate forms. */
  function LegacyDispLen(f: Form, b1: byte): int {
    var byW := if WideDisplacement(f) then 2 else 1;
    if DispLen(b1) == 0 then 0
    else if IsDirect(b1) || f.ImmToRegMem? || f.Group? then byW
    else DispLen(b1)
  }

  function LegacyHeader(f: Form, b1: byte): int {
    if HasModRm(f) then 2 + LegacyDispLen(f, b1)
    else if f.MemToAcc? || f.AccToMem? then (if f.w then 3 else 2)
    else 1
  }

  function LegacyLength(f: Form, b1: byte): int {
    LegacyHeader(f, b1) + DataLen(f)
  }

  predicate LegacyFits(f: Form, s: seq<byte>) {
    |s| >= 2 && |s| >= LegacyLength(f, s[1])
  }

  function LegacyDisplacement(f: Form, s: seq<byte>): int16
    requires HasModRm(f) && LegacyFits(f, s)
  {
    var n := LegacyDispLen(f, s[1]);
    if n == 0 then 0 else if n == 1 then SignExtend(s[2]) else S16(LoHi(s[2], s[3]))
  }

  predicate BadGroup(f: Form, b1: byte) {
    f.Group? && GROUP_OPS[RegField(b1)] == MaxInst
  }

  /** The memory operand as printed by the register/memory routine. */
  function LegacyPlace(f: Form, s: seq<byte>): Text
    requires HasModRm(f) && LegacyFits(f, s)
  {
    var d := LegacyDisplacement(f, s);
    var isSegment := f.ToSegment? || f.FromSegment?;
    if Mod(s[1]) == 3 then
      if f.ImmToRegMem? then InBrackets(RegAt(Rm(s[1]), f.w), 0)
      else Plain(Register(RegAt(Rm(s[1]), isSegment || WideDisplacement(f))))
    else if isSegment && Mod(s[1]) != 0 then InBrackets(RegAt(Rm(s[1]), true), d)
    else if IsDirect(s[1]) && !f.ImmToRegMem? then Plain(Direct(U16(d)))
    else Plain(Effective(BASES[Rm(s[1])], d))
  }

  function SizeOf(wide: bool): Hint {
    if wide then WordHint else ByteHint
  }

  /** An immediate move starts from `byte` and switches to `word` only where the mod field is 10 or 11. */
  function MoveSize(w: bool, b1: byte): Hint {
    SizeOf(w && Mod(b1) >= 2)
  }

  function LegacyMeaning(f: Form, s: seq<byte>): Line
    requires IsForm(f) && |s| >= 2
    requires !BadGroup(f, s[1]) ==> LegacyFits(f, s)
  {
    if BadGroup(f, s[1]) then BadSelector
    else
      match f
      case RegMem(op, d, w) =>
        var reg, place := Plain(Register(RegAt(RegField(s[1]), w))), LegacyPlace(f, s);
        if d || IsDirect(s[1]) then Line(op, reg, place, NoHint, NoHint, LegacyDisplacement(f, s), 0)
        else Line(op, place, reg, NoHint, NoHint, LegacyDisplacement(f, s), 0)
      case ToSegment =>
        var seg := Plain(Segment(SEGMENTS[SrField(s[1])]));
        Line(Mov, seg, LegacyPlace(f, s), NoHint, NoHint, LegacyDisplacement(f, s), 0)
      case FromSegment =>
        var seg, place := Plain(Segment(SEGMENTS[SrField(s[1])])), LegacyPlace(f, s);
        if IsDirect(s[1]) then Line(Mov, seg, place, NoHint, NoHint, LegacyDisplacement(f, s), 0)
        else Line(Mov, place, seg, NoHint, NoHint, LegacyDisplacement(f, s), 0)
      case ImmToRegMem(w) =>
        var v := DataAt(s, LegacyHeader(f, s[1]), f);
        Line(Mov, LegacyPlace(f, s), Plain(Immediate(v)), NoHint, MoveSize(w, s[1]), LegacyDisplacement(f, s), v)
      case Group(_, w) =>
        var v := DataAt(s, LegacyHeader(f, s[1]), f);
        Line(GROUP_OPS[RegField(s[1])], LegacyPlace(f, s), Plain(Immediate(v)),
             if Mod(s[1]) == 3 then NoHint else SizeOf(w), NoHint, LegacyDisplacement(f, s), v)
      case ImmToReg(w, reg) =>
        var v := DataAt(s, 1, f);
        Line(Mov, Plain(Register(RegAt(reg, w))), Plain(Immediate(v)), NoHint, NoHint, 0, v)
      case ImmToAcc(op, w) =>
        var v := DataAt(s, 1, f);
        Line(op, Plain(Register(if w then AX else AL)), Plain(Immediate(v)), NoHint, NoHint, 0, v)
      case MemToAcc(w) =>
        Line(Mov, Plain(Register(AX)), Plain(Direct(LoHi(s[1], if w then s[2] else 0))), NoHint, NoHint, 0, 0)
      case AccToMem(w) =>
        Line(Mov, Plain(Direct(LoHi(s[1], if w then s[2] else 0))), Plain(Register(AX)), NoHint, NoHint, 0, 0)
      case Jump(op) => Branch(op, SignExtend(s[1]))
  }

  /** Would the decoder stay inside the bytes it was given? */
  predicate LegacyReadable(s: seq<byte>) {
    |s| >= 1 && var f := Classify(s[0]);
                f == NoForm || (|s| >= 2 && (BadGroup(f, s[1]) || LegacyFits(f, s)))
  }

  // ----- byte extraction; `ptr` is the index of the last byte consumed -----

  /** Also the body of this decoder's `extract_data`, which differs from it in log text only. */
  method ExtractDisplacement(buf: array<byte>, ptr: nat, bitW: int) returns (consumed: nat, displacement: int16)
    requires ptr + (if bitW == 0 then 1 else 2) < buf.Length
    ensures consumed == if bitW == 0 then 1 else 2
    ensures displacement == if bitW == 0 then SignExtend(buf[ptr + 1]) else S16(LoHi(buf[ptr + 1], buf[ptr + 2]))
  {
    var p := ptr + 1;
    consumed := 1;
    var displacementLow := buf[p];
    if bitW == 0 {
      if buf[p] / 0x80 == 1 {
        displacement := S16(LoHi(buf[p], 0xFF));
      } else {
        displacement := buf[p];
      }
    } else {
      p := p + 1;
      consumed := consumed + 1;
      displacement := S16(LoHi(displacementLow, buf[p]));
    }
  }

  method ExplicitExtractData(buf: array<byte>, ptr: nat, bitS: int, bitW: int) returns (consumed: nat, data: int16)
    requires 0 <= bitS <= 1 && 0 <= bitW <= 1
    requires ptr + (if bitS == 0 && bitW == 1 then 2 else 1) < buf.Length
    ensures consumed == if bitS == 0 && bitW == 1 then 2 else 1
    ensures data == if bitS == 0 && bitW == 1 then S16(LoHi(buf[ptr + 1], buf[ptr + 2]))
                    else if bitS == 0 then buf[ptr + 1] else SignExtend(buf[ptr + 1])
  {
    var p := ptr + 1;
    consumed := 1;
    var dataLow := buf[p];
    match 2 * bitS + bitW {
      case 0 => data := buf[p];
      case 1 =>
        p := p + 1;
        consumed := consumed + 1;
        data := S16(LoHi(dataLow, buf[p]));
      case _ =>
        if buf[p] / 0x80 == 1 {
          data := S16(LoHi(buf[p], 0xFF));
        } else {
          data := buf[p];
        }
    }
  }

  // ----- one routine per family -----

  method ProcessMovAccumulator(buf: array<byte>, at: nat, toAccumulator: bool) returns (line: Line, consumed: nat)
    requires at < buf.Length
    requires Classify(buf[at]) == if toAccumulator then MemToAcc(BitW(buf[at])) else AccToMem(BitW(buf[at]))
    requires LegacyFits(Classify(buf[at]), buf[at..])
    ensures line == LegacyMeaning(Classify(buf[at]), buf[at..])
    ensures consumed == LegacyLength(Classify(buf[at]), buf[at + 1])
  {
    var ptr := at;
    consumed := 1;
    var bitW := buf[ptr] % 2;
    var addressHigh: byte := 0;
    ptr := ptr + 1;
    consumed := consumed + 1;
    var addressLow := buf[ptr];
    if bitW == 1 {
      ptr := ptr + 1;
      consumed := consumed + 1;
      addressHigh := buf[ptr];
    }
    var address := LoHi(addressLow, addressHigh);
    if toAccumulator {
      line := Line(Mov, Plain(Register(AX)), Plain(Direct(address)), NoHint, NoHint, 0, 0);
    } else {
      line := Line(Mov, Plain(Direct(address)), Plain(Register(AX)), NoHint, NoHint, 0, 0);
    }
  }

  method ProcessMovImmediateToRegisterMemory(buf: array<byte>, at: nat) returns (line: Line, consumed: nat)
    requires at < buf.Length && Classify(buf[at]).ImmToRegMem? && LegacyFits(Classify(buf[at]), buf[at..])
    requires Classify(buf[at]).w == BitW(buf[at])
    ensures line == LegacyMeaning(Classify(buf[at]), buf[at..])
    ensures consumed == LegacyLength(Classify(buf[at]), buf[at + 1])
  {
    var bitW := buf[at] % 2;
    var ptr := at + 1;
    consumed := 2;
    var mod, rm := buf[ptr] / 64, buf[ptr] % 8;
    var displacement: int16, data: int16, n := 0, 0, 0;
    if mod == 1 || mod == 2 || (mod == 0 && rm == 6) {
      n, displacement := ExtractDisplacement(buf, ptr, bitW);
      consumed := consumed + n;
      ptr := ptr + n;
    }
    n, data := ExtractDisplacement(buf, ptr, bitW);
    consumed := consumed + n;
    var dataType := ByteHint;
    if (mod == 2 || mod == 3) && bitW == 1 {
      dataType := WordHint;
    }
    var destination;
    if mod == 3 {
      destination := InBrackets(RegAt(rm, bitW == 1), 0);
    } else {
      destination := Plain(Effective(BASES[rm], displacement));
    }
    line := Line(Mov, destination, Plain(Immediate(data)), NoHint, dataType, displacement, data);
  }

  method ProcessMovImmediateToRegister(buf: array<byte>, at: nat) returns (line: Line, consumed: nat)
    requires at < buf.Length && Classify(buf[at]) == ImmToReg(buf[at] / 8 % 2 == 1, buf[at] % 8)
    requires LegacyFits(Classify(buf[at]), buf[at..])
    ensures line == LegacyMeaning(Classify(buf[at]), buf[at..])
    ensures consumed == LegacyLength(Classify(buf[at]), buf[at + 1])
  {
    var bitW, reg := buf[at] / 8 % 2, buf[at] % 8;
    var n, data := ExtractDisplacement(buf, at, bitW);
    consumed := 1 + n;
    line := Line(Mov, Plain(Register(RegAt(reg, bitW == 1))), Plain(Immediate(data)), NoHint, NoHint, 0, data);
  }

  /** Register/memory forms and segment moves. */
  method ProcessRegMemOp(buf: array<byte>, at: nat, op: Op, isSegmentOp: bool, toSegment: bool)
    returns (line: Line, consumed: nat)
    requires at < buf.Length && LegacyFits(Classify(buf[at]), buf[at..])
    requires Classify(buf[at]) == if !isSegmentOp then RegMem(op, BitD(buf[at]), BitW(buf[at]))
                                  else if toSegment then ToSegment else FromSegment
    requires isSegmentOp ==> op == Mov
    ensures IsForm(Classify(buf[at])) ==> line == LegacyMeaning(Classify(buf[at]), buf[at..])
    ensures consumed == LegacyLength(Classify(buf[at]), buf[at + 1])
  {
    var bitD, bitW := 0, 0;
    if !isSegmentOp {
      bitD, bitW := buf[at] / 2 % 2, buf[at] % 2;
    }
    var ptr := at + 1;
    consumed := 2;
    var mod, reg, sr, rm := buf[ptr] / 64, buf[ptr] / 8 % 8, buf[ptr] / 8 % 4, buf[ptr] % 8;
    var displacement: int16, n := 0, 0;
    var field := if isSegmentOp then Plain(Segment(SEGMENTS[sr])) else Plain(Register(RegAt(reg, bitW == 1)));
    var place;
    var fieldIsDestination := if isSegmentOp then toSegment else bitD == 1;
    if mod == 0 {
      if rm == 6 {
        n, displacement := ExtractDisplacement(buf, ptr, bitW);
        consumed := consumed + n;
        place := Plain(Direct(U16(displacement)));
        fieldIsDestination := true;
      } else {
        place := Plain(Effective(BASES[rm], 0));
      }
    } else if mod == 3 {
      place := Plain(Register(RegAt(rm, isSegmentOp || bitW == 1)));
    } else {
      n, displacement := ExtractDisplacement(buf, ptr, mod - 1);
      consumed := consumed + n;
      if isSegmentOp {
        place := InBrackets(RegAt(rm, true), displacement);
      } else {
        place := Plain(Effective(BASES[rm], displacement));
      }
    }
    if fieldIsDestination {
      line := Line(op, field, place, NoHint, NoHint, displacement, 0);
    } else {
      line := Line(op, place, field, NoHint, NoHint, displacement, 0);
    }
  }

  method ProcessImmediateToRegMem(buf: array<byte>, at: nat) returns (line: Line, consumed: nat)
    requires at + 1 < buf.Length && Classify(buf[at]) == Group(BitD(buf[at]), BitW(buf[at]))
    requires !BadGroup(Classify(buf[at]), buf[at + 1]) ==> LegacyFits(Classify(buf[at]), buf[at..])
    ensures line == LegacyMeaning(Classify(buf[at]), buf[at..])
    ensures line != BadSelector ==> consumed == LegacyLength(Classify(buf[at]), buf[at + 1])
  {
    var bitS, bitW := buf[at] / 2 % 2, buf[at] % 2;
    var ptr := at + 1;
    consumed := 2;
    var mod, opSel, rm := buf[ptr] / 64, buf[ptr] / 8 % 8, buf[ptr] % 8;
    var op;
    if opSel == 0 {
      op := Add;
    } else if opSel == 5 {
      op := Sub;
    } else if opSel == 7 {
      op := Cmp;
    } else {
      return BadSelector, consumed;
    }
    var dataType := ByteHint;
    if bitW == 1 {
      dataType := WordHint;
    }
    var displacement: int16, data: int16, n := 0, 0, 0;
    var isDirect := mod == 0 && rm == 6;
    if mod == 1 || mod == 2 || isDirect {
      n, displacement := ExtractDisplacement(buf, ptr, bitW);
      consumed := consumed + n;
      ptr := ptr + n;
    }
    n, data := ExplicitExtractData(buf, ptr, bitS, bitW);
    consumed := consumed + n;
    var destination := if mod == 3 then Plain(Register(RegAt(rm, bitW == 1)))
                       else if isDirect then Plain(Direct(U16(displacement)))
                       else Plain(Effective(BASES[rm], displacement));
    if mod == 3 {
      dataType := NoHint;
    }
    line := Line(op, destination, Plain(Immediate(data)), dataType, NoHint, displacement, data);
  }

  method ProcessImmediateAccumulator(buf: array<byte>, at: nat, op: Op) returns (line: Line, consumed: nat)
    requires at < buf.Length && IsArith(op) && Classify(buf[at]) == ImmToAcc(op, BitW(buf[at]))
    requires LegacyFits(Classify(buf[at]), buf[at..])
    ensures line == LegacyMeaning(Classify(buf[at]), buf[at..])
    ensures consumed == LegacyLength(Classify(buf[at]), buf[at + 1])
  {
    var bitW := buf[at] % 2;
    var n, data := ExtractDisplacement(buf, at, bitW);
    consumed := 1 + n;
    var reg := AX;
    if bitW == 0 {
      reg := AL;
    }
    line := Line(op, Plain(Register(reg)), Plain(Immediate(data)), NoHint, NoHint, 0, data);
  }

  method ProcessJump(buf: array<byte>, at: nat, op: Op) returns (line: Line, consumed: nat)
    requires at < buf.Length && Classify(buf[at]) == Jump(op) && LegacyFits(Classify(buf[at]), buf[at..])
    ensures line == Branch(op, SignExtend(buf[at + 1]))
    ensures consumed == LegacyLength(Classify(buf[at]), buf[at + 1])
  {
    var n, data := ExtractDisplacement(buf, at, 0);
    consumed := 1 + n;
    line := Branch(op, data);
  }

  // ----- the dispatch chain -----

  /** The rest of the chain: one comparison for each conditional jump and loop opcode. */
  method DecodeJump(buf: array<byte>, at: nat) returns (line: Line, consumed: nat)
    requires at < buf.Length && LegacyReadable(buf[at..])
    ensures line == NotRecognized <==> !Classify(buf[at]).Jump?
    ensures line != NotRecognized ==>
              && line == Branch(Classify(buf[at]).op, SignExtend(buf[at + 1]))
              && consumed == LegacyLength(Classify(buf[at]), buf[at + 1])
  {
    var b := buf[at];
    if b == 0x75 {
      line, consumed := ProcessJump(buf, at, Jnz);
    } else if b == 0x74 {
      line, consumed := ProcessJump(buf, at, Je);
    } else if b == 0x7C {
      line, consumed := ProcessJump(buf, at, Jl);
    } else if b == 0x7E {
      line, consumed := ProcessJump(buf, at, Jle);
    } else if b == 0x72 {
      line, consumed := ProcessJump(buf, at, Jb);
    } else if b == 0x76 {
      line, consumed := ProcessJump(buf, at, Jbe);
    } else if b == 0x7A {
      line, consumed := ProcessJump(buf, at, Jp);
    } else if b == 0x70 {
      line, consumed := ProcessJump(buf, at, Jo);
    } else if b == 0x78 {
      line, consumed := ProcessJump(buf, at, Js);
    } else if b == 0x7D {
      line, consumed := ProcessJump(buf, at, Jnl);
    } else if b == 0x7F {
      line, consumed := ProcessJump(buf, at, Jg);
    } else if b == 0x73 {
      line, consumed := ProcessJump(buf, at, Jnb);
    } else if b == 0x77 {
      line, consumed := ProcessJump(buf, at, Ja);
    } else if b == 0x7B {
      line, consumed := ProcessJump(buf, at, Jnp);
    } else if b == 0x71 {
      line, consumed := ProcessJump(buf, at, Jno);
    } else if b == 0x79 {
      line, consumed := ProcessJump(buf, at, Jns);
    } else if b == 0xE2 {
      line, consumed := ProcessJump(buf, at, Loop);
    } else if b == 0xE1 {
      line, consumed := ProcessJump(buf, at, LoopZ);
    } else if b == 0xE0 {
      line, consumed := ProcessJump(buf, at, LoopNz);
    } else if b == 0xE3 {
      line, consumed := ProcessJump(buf, at, Jcxz);
    } else {
      line, consumed := NotRecognized, 0;
    }
  }

  /** Decodes one instruction: the chain of comparisons on the first byte. It stops on an unknown first byte
      and on an unknown operation selector. */
  method DecodeOne(buf: array<byte>, at: nat) returns (line: Line, consumed: nat)
    requires at < buf.Length && LegacyReadable(buf[at..])
    ensures line == NotRecognized <==> Classify(buf[at]) == NoForm
    ensures line != NotRecognized ==> IsForm(Classify(buf[at])) && line == LegacyMeaning(Classify(buf[at]), buf[at..])
    ensures line !in {NotRecognized, BadSelector} ==> consumed == LegacyLength(Classify(buf[at]), buf[at + 1])
  {
    var b := buf[at];
    ClassifyIsForm(b);
    if b / 2 == 0x63 {
      line, consumed := ProcessMovImmediateToRegisterMemory(buf, at);
    } else if b / 16 == 0x0B {
      line, consumed := ProcessMovImmediateToRegister(buf, at);
    } else if b / 4 == 0x22 {
      line, consumed := ProcessRegMemOp(buf, at, Mov, false, false);
    } else if b / 2 == 0x50 {
      line, consumed := ProcessMovAccumulator(buf, at, true);
    } else if b / 2 == 0x51 {
      line, consumed := ProcessMovAccumulator(buf, at, false);
    } else if b == 0x8E {
      line, consumed := ProcessRegMemOp(buf, at, Mov, true, true);
    } else if b == 0x8C {
      line, consumed := ProcessRegMemOp(buf, at, Mov, true, false);
    } else if b / 4 == 0x00 {
      line, consumed := ProcessRegMemOp(buf, at, Add, false, false);
    } else if b / 4 == 0x20 {
      line, consumed := ProcessImmediateToRegMem(buf, at);
    } else if b / 2 == 0x02 {
      line, consumed := ProcessImmediateAccumulator(buf, at, Add);
    } else if b / 4 == 0x0A {
      line, consumed := ProcessRegMemOp(buf, at, Sub, false, false);
    } else if b / 2 == 0x16 {
      line, consumed := ProcessImmediateAccumulator(buf, at, Sub);
    } else if b / 4 == 0x0E {
      line, consumed := ProcessRegMemOp(buf, at, Cmp, false, false);
    } else if b / 2 == 0x1E {
      line, consumed := ProcessImmediateAccumulator(buf, at, Cmp);
    } else {
      line, consumed := DecodeJump(buf, at);
    }
  }
}
