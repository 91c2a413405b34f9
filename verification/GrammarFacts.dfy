/** What the instruction formats guarantee: bounded, self-delimiting, prefix-free encodings, and
    well-formed operands for every accepted byte sequence. */
module GrammarFacts {
  import opened Words
  import opened Isa
  import opened Grammar

  /** Every instruction takes two to six bytes. */
  lemma LengthBounds(f: Form, b1: byte)
    requires IsForm(f)
    ensures 2 <= Length(f, b1) <= 6
  {
  }

  /** The length is settled by the first two bytes. */
  lemma LengthFromTwoBytes(s: seq<byte>, t: seq<byte>)
    requires Decode(s).Decoded? && Decode(t).Decoded? && s[..2] == t[..2]
    ensures Decode(s).len == Decode(t).len
  {
    assert s[0] == s[..2][0] == t[0] && s[1] == s[..2][1] == t[1];
  }

  lemma MeaningFromPrefix(f: Form, s: seq<byte>, t: seq<byte>)
    requires IsForm(f) && Fits(f, s) && Fits(f, t)
    requires s[1] == t[1] && forall k :: 0 <= k < Length(f, s[1]) ==> s[k] == t[k]
    ensures Meaning(f, s) == Meaning(f, t)
  {
    if HasModRm(f) {
      assert DispLen(s[1]) > 0 ==> s[2] == t[2];
      assert DispLen(s[1]) > 1 ==> s[3] == t[3];
      assert Place(s, true) == Place(t, true) && Place(s, false) == Place(t, false);
    }
    if DataLen(f) > 0 {
      var k := Header(f, s[1]);
      assert s[k] == t[k];
      assert DataLen(f) == 2 ==> s[k + 1] == t[k + 1];
      assert DataAt(s, k, f) == DataAt(t, k, f);
    }
  }

  /** Decoding reads only the bytes of the instruction: whatever follows or replaces the rest is irrelevant. */
  lemma DecodeReadsOnlyItsBytes(s: seq<byte>, t: seq<byte>)
    requires Decode(s).Decoded? && Decode(s).len <= |t|
    requires forall k :: 0 <= k < Decode(s).len ==> s[k] == t[k]
    ensures Decode(t) == Decode(s)
  {
    var f := Classify(s[0]);
    ClassifyIsForm(s[0]);
    LengthBounds(f, s[1]);
    assert s[0] == t[0] && s[1] == t[1];
    MeaningFromPrefix(f, s, t);
  }

  /** No encoding is a proper prefix of another. */
  lemma PrefixFree(s: seq<byte>, t: seq<byte>)
    requires Decode(s).Decoded? && Decode(s).len == |s|
    requires Decode(t).Decoded? && Decode(t).len == |t|
    requires s <= t
    ensures s == t
  {
    DecodeReadsOnlyItsBytes(s, t);
  }

  // ----- well-formed operands -----

  predicate Sized(o: Operand, wide: bool) {
    match o
    case Register(r) => if wide then IsWide(r) else IsNarrow(r)
    case Segment(s) => wide && s != MaxSegReg
    case _ => true
  }

  /** What every consumer of a decoded instruction relies on. */
  predicate WellFormed(i: Instr) {
    match i
    case Short(op, offset) => IsBranch(op) && -128 <= offset < 128
    case Two(op, dst, src, dstHint, srcHint) =>
      && !IsBranch(op)
      && !dst.Immediate?
      && !(IsMemory(dst) && IsMemory(src))
      && !(dst.Segment? && src.Segment?) && !(dst.Segment? && src.Immediate?)
      && (op != Mov ==> !dst.Segment? && !src.Segment?)
      && (dst.Direct? && !src.Immediate? ==> op == Mov && src == Register(AX))
      && ((Sized(dst, true) && Sized(src, true)) || (Sized(dst, false) && Sized(src, false)))
      && (src.Segment? ==> !dst.Direct?)
  }

  lemma RegAtSized(field: int, w: bool)
    requires 0 <= field < 8
    ensures Sized(Register(RegAt(field, w)), w)
  {
  }

  lemma PlaceSized(s: seq<byte>, w: bool)
    requires |s| >= 2 && |s| >= 2 + DispLen(s[1])
    ensures Sized(Place(s, w), w) && !Place(s, w).Immediate? && !Place(s, w).Segment?
    ensures Place(s, w).Direct? <==> IsDirect(s[1])
  {
    if Mod(s[1]) == 3 {
      RegAtSized(Rm(s[1]), w);
    }
  }

  lemma MeaningWellFormed(f: Form, s: seq<byte>)
    requires IsForm(f) && Fits(f, s)
    ensures WellFormed(Meaning(f, s))
  {
    if HasModRm(f) {
      PlaceSized(s, true);
      PlaceSized(s, false);
    }
    match f {
      case RegMem(_, _, w) => RegAtSized(RegField(s[1]), w);
      case ImmToReg(w, reg) => RegAtSized(reg, w);
      case _ =>
    }
  }

  /** Every accepted byte sequence decodes to a well-formed instruction of two to six bytes, whose flat record
      never shows the printer, the width check or the simulator an operand kind they reject. */
  lemma DecodedIsWellFormed(s: seq<byte>)
    requires Decode(s).Decoded?
    ensures WellFormed(Decode(s).instr) && 2 <= Decode(s).len <= 6
    ensures var r := Flatten(Decode(s).instr, Decode(s).len);
            !r.isShort ==> r.dst.kind !in {TypeData, MaxType} && r.src.kind != MaxType
    ensures var r := Flatten(Decode(s).instr, Decode(s).len);
            Unflatten(r) == Decode(s).instr
  {
    ClassifyIsForm(s[0]);
    LengthBounds(Classify(s[0]), s[1]);
    MeaningWellFormed(Classify(s[0]), s);
    FlattenFaithful(Decode(s).instr, Decode(s).len);
  }
}
