/** Machine integers of the C sources: 8- and 16-bit unsigned values, 16-bit signed values,
    and the bit operations the sources apply to them. */
module Words {
  type byte = x: int | 0 <= x < 0x100
  type word = x: int | 0 <= x < 0x1_0000
  type int16 = x: int | -0x8000 <= x < 0x8000

  /** Conversion to `uint16_t`. */
  function U16(x: int): word {
    x % 0x1_0000
  }

  /** Conversion to `uint8_t`. */
  function U8(x: int): byte {
    x % 0x100
  }

  /** Conversion of a 16-bit pattern to `int16_t`. */
  function S16(x: word): int16 {
    if x < 0x8000 then x else x - 0x1_0000
  }

  /** `(0xFF << 8) | b` stored in an `int16_t` when bit 7 of `b` is set, `b` itself otherwise. */
  function SignExtend(b: byte): int16 {
    if b < 0x80 then b else b - 0x100
  }

  /** `(hi << 8) | lo`. */
  function LoHi(lo: byte, hi: byte): word {
    lo + 0x100 * hi
  }

  /** Bitwise and of the lowest `bits` bits. */
  function And(a: nat, m: nat, bits: nat): nat
    decreases bits
  {
    if bits == 0 then 0 else (if a % 2 == 1 && m % 2 == 1 then 1 else 0) + 2 * And(a / 2, m / 2, bits - 1)
  }

  function And8(a: byte, m: byte): nat {
    And(a, m, 8)
  }

  /** Logical shift right by at most eight places. */
  function Shr(a: nat, n: nat): nat
    requires n <= 8
  {
    a / [1, 2, 4, 8, 16, 32, 64, 128, 256][n]
  }

  const OPCODE_MASKS: set<byte> := {0xFF, 0xFE, 0xFC, 0xF0}

  /** `b & mask` for the masks of the opcode table. */
  function Masked(b: byte, mask: byte): byte
    requires mask in OPCODE_MASKS
  {
    if mask == 0xFF then b else if mask == 0xFE then b / 2 * 2 else if mask == 0xFC then b / 4 * 4 else b / 16 * 16
  }

  lemma {:induction false} AndNone(a: nat, bits: nat)
    ensures And(a, 0, bits) == 0
    decreases bits
  {
    if bits == 0 {
    } else {
      AndNone(a / 2, bits - 1);
    }
  }

  /** A number of `bits` one bits, and the first number that needs more bits. */
  function Ones(bits: nat): nat {
    if bits == 0 then 0 else 1 + 2 * Ones(bits - 1)
  }

  lemma {:induction false} AndAll(a: nat, bits: nat)
    requires a <= Ones(bits)
    ensures And(a, Ones(bits), bits) == a
    decreases bits
  {
    if bits == 0 {
    } else {
      assert Ones(bits) / 2 == Ones(bits - 1);
      AndAll(a / 2, bits - 1);
    }
  }

  lemma AndShifted(a: nat, m: nat, bits: nat)
    requires bits > 0
    ensures And(a, 2 * m, bits) == 2 * And(a / 2, m, bits - 1)
  {
  }

  lemma OnesUpTo8()
    ensures Ones(4) == 0xF && Ones(6) == 0x3F && Ones(7) == 0x7F && Ones(8) == 0xFF
  {
    assert Ones(3) == 7 && Ones(5) == 31;
  }

  lemma MaskByte(b: byte)
    ensures And8(b, 0xFF) == b && And8(b, 0x00) == 0
  {
    OnesUpTo8();
    AndAll(b, 8);
    AndNone(b, 8);
  }

  lemma MaskFE(b: byte)
    ensures And8(b, 0xFE) == b / 2 * 2
  {
    OnesUpTo8();
    AndShifted(b, 0x7F, 8);
    AndAll(b / 2, 7);
  }

  lemma MaskFC(b: byte)
    ensures And8(b, 0xFC) == b / 4 * 4
  {
    OnesUpTo8();
    AndShifted(b, 0x7E, 8);
    AndShifted(b / 2, 0x3F, 7);
    assert b / 2 / 2 == b / 4;
    AndAll(b / 4, 6);
  }

  lemma MaskF0(b: byte)
    ensures And8(b, 0xF0) == b / 16 * 16
  {
    OnesUpTo8();
    AndShifted(b, 0x78, 8);
    AndShifted(b / 2, 0x3C, 7);
    AndShifted(b / 2 / 2, 0x1E, 6);
    AndShifted(b / 2 / 2 / 2, 0xF, 5);
    assert b / 2 / 2 / 2 / 2 == b / 16;
    AndAll(b / 16, 4);
  }

  /** The opcode masks drop the low bits of a byte. */
  lemma MaskOpcode(b: byte)
    ensures And8(b, 0xFF) == Masked(b, 0xFF) && And8(b, 0xFE) == Masked(b, 0xFE)
    ensures And8(b, 0xFC) == Masked(b, 0xFC) && And8(b, 0xF0) == Masked(b, 0xF0)
  {
    MaskByte(b);
    MaskFE(b);
    MaskFC(b);
    MaskF0(b);
  }

  lemma AndOdd(a: nat, m: nat, bits: nat)
    requires bits > 0
    ensures And(a, 1 + 2 * m, bits) == a % 2 + 2 * And(a / 2, m, bits - 1)
  {
    assert (1 + 2 * m) / 2 == m;
  }

  lemma Remainder4(a: nat, q: nat, r: nat)
    requires a == 4 * q + r && r < 4
    ensures a % 4 == r
  {
    assert a / 4 == q;
  }

  lemma Remainder8(a: nat, q: nat, r: nat)
    requires a == 8 * q + r && r < 8
    ensures a % 8 == r
  {
    assert a / 8 == q;
  }

  lemma Remainder16(a: nat, q: nat, r: nat)
    requires a == 16 * q + r && r < 16
    ensures a % 16 == r
  {
    assert a / 16 == q;
  }

  /** A remainder by an even number, from the lowest bit and the remainder of the half. */
  lemma RemainderOfHalf(a: nat, half: nat)
    requires half == 2 || half == 4 || half == 8
    ensures a % 2 + 2 * (a / 2 % half) == a % (2 * half)
  {
    if half == 2 {
      Remainder4(a, a / 2 / 2, 2 * (a / 2 % 2) + a % 2);
    } else if half == 4 {
      Remainder8(a, a / 2 / 4, 2 * (a / 2 % 4) + a % 2);
    } else {
      Remainder16(a, a / 2 / 8, 2 * (a / 2 % 8) + a % 2);
    }
  }

  lemma And1(a: nat, bits: nat)
    requires bits >= 1
    ensures And(a, 0x1, bits) == a % 2
  {
    AndOdd(a, 0, bits);
    AndNone(a / 2, bits - 1);
  }

  lemma And3(a: nat, bits: nat)
    requires bits >= 2
    ensures And(a, 0x3, bits) == a % 4
  {
    AndOdd(a, 1, bits);
    And1(a / 2, bits - 1);
    RemainderOfHalf(a, 2);
  }

  lemma And7(a: nat, bits: nat)
    requires bits >= 3
    ensures And(a, 0x7, bits) == a % 8
  {
    AndOdd(a, 3, bits);
    And3(a / 2, bits - 1);
    RemainderOfHalf(a, 4);
  }

  lemma AndF(a: nat, bits: nat)
    requires bits >= 4
    ensures And(a, 0xF, bits) == a % 16
  {
    AndOdd(a, 7, bits);
    And7(a / 2, bits - 1);
    RemainderOfHalf(a, 8);
  }

  /** The field masks keep the low bits of a byte, so a shift and a mask select a bit field. */
  lemma MaskField(b: byte)
    ensures And8(b, 0x1) == b % 2 && And8(b, 0x3) == b % 4 && And8(b, 0x7) == b % 8 && And8(b, 0xF) == b % 16
  {
    And1(b, 8);
    And3(b, 8);
    And7(b, 8);
    AndF(b, 8);
  }

  /** `v & mask` for the three register masks 0xFFFF, 0x00FF and 0xFF00. */
  function MaskedWord(v: word, mask: word): word {
    if mask == 0xFFFF then v else if mask == 0x00FF then v % 0x100 else v / 0x100 * 0x100
  }

  function And16(a: word, m: word): nat {
    And(a, m, 16)
  }

  lemma Ones16()
    ensures Ones(8) == 0xFF && Ones(16) == 0xFFFF
  {
    OnesUpTo8();
    assert Ones(10) == 0x3FF;
    assert Ones(12) == 0xFFF;
    assert Ones(14) == 0x3FFF;
  }

  /** `k` halvings. */
  function Halved(a: nat, k: nat): nat {
    if k == 0 then a else Halved(a / 2, k - 1)
  }

  function Doubled(m: nat, k: nat): nat {
    if k == 0 then m else 2 * Doubled(m, k - 1)
  }

  lemma {:induction false} AndDoubled(a: nat, m: nat, bits: nat, k: nat)
    requires k <= bits
    ensures And(a, Doubled(m, k), bits) == Doubled(And(Halved(a, k), m, bits - k), k)
    decreases k
  {
    if k == 0 {
    } else {
      AndShifted(a, Doubled(m, k - 1), bits);
      AndDoubled(a / 2, m, bits - 1, k - 1);
    }
  }

  /** A mask of low bits keeps what is below the bits halved away. */
  lemma {:induction false} AndOnes(a: nat, k: nat, bits: nat)
    requires k <= bits
    ensures And(a, Ones(k), bits) + Doubled(Halved(a, k), k) == a
    decreases k
  {
    if k == 0 {
      AndNone(a, bits);
    } else {
      AndOdd(a, Ones(k - 1), bits);
      AndOnes(a / 2, k - 1, bits - 1);
    }
  }

  lemma Halved8(a: nat)
    ensures Halved(a, 8) == a / 0x100
  {
    var b, c, d := a / 2 / 2, a / 2 / 2 / 2 / 2, a / 2 / 2 / 2 / 2 / 2 / 2;
    assert Halved(a, 8) == Halved(b, 6) == Halved(c, 4) == Halved(d, 2) == d / 2 / 2;
    assert b == a / 4 && c == b / 4 && d == c / 4;
    assert c == a / 16 && d == a / 64;
  }

  lemma Doubled8(m: nat)
    ensures Doubled(m, 8) == 0x100 * m
  {
    assert Doubled(m, 1) == 2 * m;
    assert Doubled(m, 2) == 4 * m;
    assert Doubled(m, 3) == 8 * m;
    assert Doubled(m, 4) == 16 * m;
    assert Doubled(m, 5) == 32 * m;
    assert Doubled(m, 6) == 64 * m;
    assert Doubled(m, 7) == 128 * m;
  }

  lemma MaskWhole(v: word)
    ensures And16(v, 0xFFFF) == v
  {
    Ones16();
    AndAll(v, 16);
  }

  lemma MaskLow(v: word)
    ensures And16(v, 0x00FF) == v % 0x100
  {
    Ones16();
    AndOnes(v, 8, 16);
    Halved8(v);
    Doubled8(v / 0x100);
  }

  lemma MaskHigh(v: word)
    ensures And16(v, 0xFF00) == v / 0x100 * 0x100
  {
    Doubled8(0xFF);
    AndDoubled(v, 0xFF, 16, 8);
    Halved8(v);
    Ones16();
    AndAll(v / 0x100, 8);
    Doubled8(v / 0x100);
  }

  /** The register masks, applied bit by bit to a 16-bit register, keep all of it, its low byte or its high byte. */
  lemma MaskRegister(v: word)
    ensures And16(v, 0xFFFF) == MaskedWord(v, 0xFFFF)
    ensures And16(v, 0x00FF) == MaskedWord(v, 0x00FF)
    ensures And16(v, 0xFF00) == MaskedWord(v, 0xFF00)
  {
    MaskWhole(v);
    MaskLow(v);
    MaskHigh(v);
  }
}
