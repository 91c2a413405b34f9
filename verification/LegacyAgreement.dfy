/** Where the two decoders agree: exact conditions for equal lengths, and for equal instructions. */
module LegacyAgreement {
  import opened Words
  import opened Isa
  import opened Grammar
  import opened Legacy

  /** The older decoder mis-sizes these: byte-wide direct addresses, displacements of immediate forms whose
      size differs from the operand size, and the byte forms of the accumulator moves. */
  predicate MisSized(f: Form, b1: byte) {
    match f
    case RegMem(_, _, w) => IsDirect(b1) && !w
    case ToSegment => IsDirect(b1)
    case FromSegment => IsDirect(b1)
    case MemToAcc(w) => !w
    case AccToMem(w) => !w
    case ImmToRegMem(w) => (IsDirect(b1) && !w) || (Mod(b1) == 1 && w) || (Mod(b1) == 2 && !w)
    case Group(_, w) => (IsDirect(b1) && !w) || (Mod(b1) == 1 && w) || (Mod(b1) == 2 && !w)
    case _ => false
  }

  /** The older decoder prints a wrong operand for these: a register in place of the address base of a segment move,
      brackets around a register destination, a base in place of a direct address; and `byte` for the word moves of
      an immediate to memory with mod=00. */
  predicate MisPrinted(f: Form, b1: byte) {
    ((f.ToSegment? || f.FromSegment?) && (Mod(b1) == 1 || Mod(b1) == 2))
    || (f.ImmToRegMem? && (Mod(b1) == 3 || IsDirect(b1) || (f.w && Mod(b1) == 0)))
  }

  /** The library prints no size for these memory operands (81h and 82h), so its text does not say how wide the
      operation is; the older decoder prints one. */
  predicate Unsized(f: Form, b1: byte) {
    f.Group? && f.s != f.w && Mod(b1) != 3
  }

  /** Equal lengths, exactly when the instruction is not mis-sized. */
  lemma LengthAgreement(f: Form, b1: byte)
    requires IsForm(f)
    ensures LegacyLength(f, b1) == Length(f, b1) <==> !MisSized(f, b1)
  {
  }

  lemma U16OfS16(w: word)
    ensures U16(S16(w)) == w
  {
  }

  /** Where the lengths agree, so do the displacement (as a 16-bit pattern) and the immediate. */
  lemma ValueAgreement(f: Form, s: seq<byte>)
    requires IsForm(f) && Fits(f, s) && !MisSized(f, s[1]) && !BadGroup(f, s[1])
    ensures LegacyFits(f, s)
    ensures var l := LegacyMeaning(f, s);
            var i := Meaning(f, s);
            && l.Branch? == i.Short?
            && (i.Short? ==> l.data == i.offset)
            && (i.Two? && i.src.Immediate? ==> l.data == i.src.data)
            && (HasModRm(f) && Mod(s[1]) != 3 && !IsDirect(s[1]) ==> l.displacement == Displacement(s))
            && (HasModRm(f) && IsDirect(s[1]) ==> U16(l.displacement) == LoHi(s[2], s[3]))
  {
    LengthAgreement(f, s[1]);
    if HasModRm(f) && IsDirect(s[1]) {
      U16OfS16(LoHi(s[2], s[3]));
    }
  }

  /** The size in front of either operand. */
  function Size(dst: Hint, src: Hint): Hint {
    if dst != NoHint then dst else src
  }

  /** Two printed lines denote the same instruction: same operation and operands, and, where an immediate meets memory
      and the operands do not tell the width, the same size. Beside a register a size says nothing new. */
  predicate SameInstruction(l: Line, i: Instr) {
    match i
    case Short(op, offset) => l == Branch(op, offset)
    case Two(op, dst, src, dstHint, srcHint) =>
      && l.Line? && l.op == op && l.dst == Plain(dst) && l.src == Plain(src)
      && (IsMemory(dst) && src.Immediate? ==> Size(l.dstSize, l.srcSize) == Size(dstHint, srcHint))
  }

  lemma PlaceAgreement(f: Form, s: seq<byte>)
    requires IsForm(f) && HasModRm(f) && Fits(f, s) && LegacyFits(f, s) && !MisSized(f, s[1])
    ensures var w := if f.ToSegment? || f.FromSegment? then true else WideDisplacement(f);
            LegacyPlace(f, s) == Plain(Place(s, w))
            <==> !MisPrinted(f, s[1]) || (f.ImmToRegMem? && f.w && Mod(s[1]) == 0 && !IsDirect(s[1]))
  {
    if IsDirect(s[1]) {
      U16OfS16(LoHi(s[2], s[3]));
    }
  }

  /** The printed sizes agree, exactly outside the forms where one decoder prints none or the wrong one. */
  lemma SizeAgreement(f: Form, s: seq<byte>)
    requires IsForm(f) && (f.Group? || f.ImmToRegMem?) && Fits(f, s) && LegacyFits(f, s) && !BadGroup(f, s[1])
    requires Mod(s[1]) != 3
    ensures var l, i := LegacyMeaning(f, s), Meaning(f, s);
            Size(l.dstSize, l.srcSize) == Size(i.dstHint, i.srcHint)
            <==> !Unsized(f, s[1]) && !(f.ImmToRegMem? && f.w && Mod(s[1]) < 2)
  {
  }

  /** The decoders print the same instruction and consume the same bytes, exactly when it is neither mis-sized nor
      mis-printed by the older one nor left without a size by the library. */
  lemma FullAgreement(f: Form, s: seq<byte>)
    requires IsForm(f) && Fits(f, s) && LegacyFits(f, s) && !BadGroup(f, s[1])
    ensures SameInstruction(LegacyMeaning(f, s), Meaning(f, s)) && LegacyLength(f, s[1]) == Length(f, s[1])
            <==> !MisSized(f, s[1]) && !MisPrinted(f, s[1]) && !Unsized(f, s[1])
  {
    LengthAgreement(f, s[1]);
    if !MisSized(f, s[1]) && HasModRm(f) {
      PlaceAgreement(f, s);
      if DataLen(f) > 0 && Mod(s[1]) != 3 {
        SizeAgreement(f, s);
      }
    }
  }

  /** C7 07 2C 01, a move of the word 300 to `[bx]`: same length and operands, but the older decoder prints `byte`. */
  lemma WordMovePrintedAsByte()
    ensures var s := [0xC7, 0x07, 0x2C, 0x01];
            var l, i := LegacyMeaning(ImmToRegMem(true), s), Meaning(ImmToRegMem(true), s);
            && Classify(0xC7) == ImmToRegMem(true) && LegacyLength(ImmToRegMem(true), s[1]) == 4
            && l.dst == Plain(i.dst) && l.src == Plain(i.src) && l.data == 300
            && l.srcSize == ByteHint && i.srcHint == WordHint && !SameInstruction(l, i)
  {
  }

  // ----- the keywords themselves -----

  /** The sizes the two decoders print differ letter by letter: also where the library repeats the width of a register
      destination (`mov bx, word 5`) and the older decoder does not. */
  predicate OtherKeyword(f: Form, b1: byte) {
    match f
    case ImmToReg(w, _) => w
    case ImmToAcc(_, w) => w
    case ImmToRegMem(w) => if w then Mod(b1) < 2 else Mod(b1) == 3
    case Group(sx, w) => if Mod(b1) == 3 then sx && w else sx != w
    case _ => false
  }

  lemma RegWidth(field: int, w: bool)
    requires 0 <= field < 8
    ensures Is16Bit(Register(RegAt(field, w))) == w
  {
  }

  /** The `byte` and `word` keywords are the same, in the same places, exactly outside those forms. */
  lemma KeywordAgreement(f: Form, s: seq<byte>)
    requires IsForm(f) && !f.Jump? && Fits(f, s) && LegacyFits(f, s) && !BadGroup(f, s[1])
    ensures var l, i := LegacyMeaning(f, s), Meaning(f, s);
            l.dstSize == i.dstHint && l.srcSize == i.srcHint <==> !OtherKeyword(f, s[1])
  {
    if HasModRm(f) && DataLen(f) > 0 && Mod(s[1]) == 3 {
      RegWidth(Rm(s[1]), f.w);
    }
  }
}
