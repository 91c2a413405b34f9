/** Every instruction the decoder accepts has a canonical encoding: re-encoding what was decoded gives
    bytes that mean the same and are never longer. */
module Canonical {
  import opened Words
  import opened Isa
  import opened Grammar
  import opened GrammarFacts
  import opened Encoder

  lemma ImmediateRange(f: Form, s: seq<byte>)
    requires IsForm(f) && Fits(f, s) && Meaning(f, s).Two? && Meaning(f, s).src.Immediate?
    ensures var m := Meaning(f, s);
            && DataLen(f) > 0
            && (DataLen(f) == 1 ==> -0x80 <= m.src.data < 0x100)
            && (DataLen(f) == 1 && !(f.Group? && !f.s && !f.w) ==> IsByte(m.src.data))
            && (f.Group? && !f.s && !f.w ==> 0 <= m.src.data)
  {
  }

  lemma DecodedIsEncodable(f: Form, s: seq<byte>)
    requires IsForm(f) && Fits(f, s) && Meaning(f, s).op != MaxInst
    ensures Encodable(Reassemble(Meaning(f, s)))
  {
    var m := Meaning(f, s);
    MeaningWellFormed(f, s);
    if m.Two? && m.src.Immediate? {
      ImmediateRange(f, s);
    }
    if HasModRm(f) {
      PlaceSized(s, true);
      PlaceSized(s, false);
    }
  }

  lemma PlaceIsShortest(s: seq<byte>, w: bool, field: int)
    requires |s| >= 2 && |s| >= 2 + DispLen(s[1]) && 0 <= field < 8
    ensures Place(s, w).Register? || IsMemory(Place(s, w))
    ensures |ModRm(field, Place(s, w))| <= 1 + DispLen(s[1])
  {
  }

  lemma MoveIsShortest(f: Form, s: seq<byte>)
    requires IsForm(f) && Fits(f, s) && HasModRm(f) && DataLen(f) == 0
    requires Encodable(Reassemble(Meaning(f, s)))
    ensures |Encode(Reassemble(Meaning(f, s)))| <= Length(f, s[1])
  {
    var a := Reassemble(Meaning(f, s));
    PlaceSized(s, true);
    PlaceSized(s, false);
    var w := if f.RegMem? then f.w else true;
    if a.dst.Segment? {
      CodesInverse(AX, BxSi, a.dst.seg);
      PlaceIsShortest(s, w, SegCode(a.dst.seg));
    } else if a.src.Segment? {
      CodesInverse(AX, BxSi, a.src.seg);
      PlaceIsShortest(s, w, SegCode(a.src.seg));
    } else if IsMemory(a.src) {
      CodesInverse(a.dst.reg, BxSi, ES);
      PlaceIsShortest(s, w, RegCode(a.dst.reg));
    } else {
      CodesInverse(a.src.reg, BxSi, ES);
      PlaceIsShortest(s, w, RegCode(a.src.reg));
    }
  }

  lemma CanonicalIsShortest(f: Form, s: seq<byte>)
    requires IsForm(f) && Fits(f, s) && Meaning(f, s).op != MaxInst
    ensures Encodable(Reassemble(Meaning(f, s)))
    ensures |Encode(Reassemble(Meaning(f, s)))| <= Length(f, s[1])
  {
    var m := Meaning(f, s);
    DecodedIsEncodable(f, s);
    if m.Two? && m.src.Immediate? {
      ImmediateRange(f, s);
      if HasModRm(f) {
        PlaceIsShortest(s, f.w, 0);
        PlaceIsShortest(s, f.w, OpCode(m.op));
      }
    } else if HasModRm(f) {
      MoveIsShortest(f, s);
    }
  }

  /** Decode, reassemble, assemble, decode: the operation, both operands (or the branch offset) and the width as read
      back come out unchanged, in at most as many bytes. The only decoded instructions without a canonical encoding are
      those whose operation selector is unknown. */
  lemma Canonicalization(s: seq<byte>, rest: seq<byte>)
    requires Decode(s).Decoded? && Decode(s).instr.op != MaxInst
    ensures var i := Decode(s).instr;
            && Encodable(Reassemble(i))
            && |Encode(Reassemble(i))| <= Decode(s).len
            && var d := Decode(Encode(Reassemble(i)) + rest);
               && d.Decoded? && d.len == |Encode(Reassemble(i))|
               && d.instr.op == i.op
               && (if i.Short? then d.instr == i else d.instr.Two? && d.instr.dst == i.dst && d.instr.src == i.src)
               && Reassemble(d.instr) == Reassemble(i)
  {
    ClassifyIsForm(s[0]);
    CanonicalIsShortest(Classify(s[0]), s);
    RoundTrip(Reassemble(Decode(s).instr), rest);
  }

  /** The formats whose width the decoded record does not keep: A2h, and the byte forms with a sign-extended immediate
      (82h) on memory, which read back as words. */
  predicate LosesWidth(f: Form, b1: byte) {
    f == AccToMem(false) || (f.Group? && f.s && !f.w && Mod(b1) != 3)
  }

  /** What is read back from a decoded instruction has the width of its encoding, exactly outside those formats. */
  lemma WidthIsKept(f: Form, s: seq<byte>)
    requires IsForm(f) && !f.Jump? && Fits(f, s)
    ensures Reassemble(Meaning(f, s)).wide == Width(f) <==> !LosesWidth(f, s[1])
  {
    if HasModRm(f) {
      PlaceSized(s, true);
      PlaceSized(s, false);
    }
    match f {
      case RegMem(_, _, w) => RegAtSized(RegField(s[1]), w);
      case ImmToReg(w, reg) => RegAtSized(reg, w);
      case _ =>
    }
  }

  /** One such pair: a byte form (82h) and a word form (81h) decode to the same record of the same length, because
      neither sets a decorator. */
  lemma WidthIsLost()
    ensures Decode([0x82, 0x80, 0x05, 0x00, 0x07]) == Decode([0x81, 0x40, 0x05, 0x07, 0x00])
            == Decoded(Two(Add, Effective(BxSi, 5), Immediate(7), NoHint, NoHint), 5)
    ensures Classify(0x82) == Group(true, false) && Classify(0x81) == Group(false, true)
  {
  }
}
