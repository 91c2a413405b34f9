/** The simulated machine as a value, and what one instruction does to it. */
module Machine {
  import opened Options
  import opened Words
  import opened Isa
  import opened Grammar
  import opened GrammarFacts
  import opened Runs

  const MEMORY_SIZE := 0x1_0000

  /** `regs` is indexed by `RegIndex`; a half register has a slot of its own that is never used. */
  datatype State = State(mem: seq<byte>, regs: seq<word>, segs: seq<word>, flags: bv16, ip: word, clocks: word)

  predicate Valid(st: State) {
    |st.mem| == MEMORY_SIZE && |st.regs| == 16 && |st.segs| == 4
  }

  type Machine = st: State | Valid(st)
    witness State(seq(MEMORY_SIZE, _ => 0), seq(16, _ => 0), [0, 0, 0, 0], 0, 0, 0)

  // ----- registers -----

  function RegIndex(r: Reg): int
    requires r != MaxReg
  {
    match r
    case AX => 0 case AL => 1 case AH => 2 case BX => 3 case BL => 4 case BH => 5
    case CX => 6 case CL => 7 case CH => 8 case DX => 9 case DL => 10 case DH => 11
    case SP => 12 case BP => 13 case SI => 14 case DI => 15
  }

  function SegIndex(s: SegReg): int
    requires s != MaxSegReg
  {
    match s
    case ES => 0 case CS => 1 case SS => 2 case DS => 3
  }

  /** The 16-bit register whose slot holds `r`. */
  function Home(r: Reg): Reg {
    match r
    case AL => AX case AH => AX
    case BL => BX case BH => BX
    case CL => CX case CH => CX
    case DL => DX case DH => DX
    case _ => r
  }

  predicate IsLow(r: Reg) { r.AL? || r.BL? || r.CL? || r.DL? }
  predicate IsHigh(r: Reg) { r.AH? || r.BH? || r.CH? || r.DH? }

  /** The part of the 16-bit register value `v` that `r` names. */
  function Part(v: word, r: Reg): word {
    if IsLow(r) then v % 0x100 else if IsHigh(r) then v / 0x100 else v
  }

  type Registers = s: seq<word> | |s| == 16
    witness [0, 0, 0, 0, 0, 0, 0, 0, 0, 0, 0, 0, 0, 0, 0, 0]

  function ReadFrom(regs: Registers, r: Reg): word
    requires r != MaxReg
  {
    Part(regs[RegIndex(Home(r))], r)
  }

  function Read(st: Machine, r: Reg): word
    requires r != MaxReg
  {
    ReadFrom(st.regs, r)
  }

  /** The new value of the 16-bit register when `v` is written to `r`. */
  function Merge(before: word, r: Reg, v: word): word {
    if IsLow(r) then before / 0x100 * 0x100 + v % 0x100
    else if IsHigh(r) then v % 0x100 * 0x100 + before % 0x100
    else v
  }

  function Write(st: Machine, r: Reg, v: word): Machine
    requires r != MaxReg
  {
    var i := RegIndex(Home(r));
    st.(regs := st.regs[i := Merge(st.regs[i], r, v)])
  }

  function Store(st: Machine, a: word, v: byte): Machine {
    st.(mem := st.mem[a := v])
  }

  function Tick(st: Machine, n: nat): Machine {
    st.(clocks := U16(st.clocks + n))
  }

  // ----- flags -----

  const ZERO_FLAG_MASK: bv16 := 0x40
  const SIGNED_FLAG_MASK: bv16 := 0x80

  /** Sets or clears Z and S from a 16-bit value and leaves the other flag bits alone. */
  function EvalFlags(flags: bv16, value: word): bv16 {
    var z := if value == 0 then flags | ZERO_FLAG_MASK else flags & !ZERO_FLAG_MASK;
    if value >= 0x8000 then z | SIGNED_FLAG_MASK else z & !SIGNED_FLAG_MASK
  }

  predicate IsZSet(flags: bv16) { (flags & ZERO_FLAG_MASK) >> 6 == 1 }
  predicate IsSSet(flags: bv16) { (flags & SIGNED_FLAG_MASK) >> 7 == 1 }

  // ----- addresses and clocks -----

  function AddressFrom(regs: Registers, b: Base, d: int16): word {
    U16(ReadFrom(regs, Reg1(b)) + (if Reg2(b) == MaxReg then 0 else ReadFrom(regs, Reg2(b))) + d)
  }

  function Address(st: Machine, b: Base, d: int16): word {
    AddressFrom(st.regs, b, d)
  }

  /** The effective-address calculation time table of the 8086 manual (Table 2-20). */
  function EaClocks(b: Base, d: int16): nat {
    (match b
     case BpDi => 7
     case BxSi => 7
     case BpSi => 8
     case BxDi => 8
     case _ => 5) + (if d == 0 then 0 else 4)
  }

  // ----- instructions; `None` is the simulator's fatal error -----

  /** What MOV loads. The displacement of a memory source takes part in the timing but not in the address. */
  function MovValue(st: Machine, src: Operand): word
    requires src != Register(MaxReg) && src != Segment(MaxSegReg)
  {
    match src
    case Register(q) => Read(st, q)
    case Segment(q) => st.segs[SegIndex(q)]
    case Immediate(v) => U16(v)
    case Direct(a) => st.mem[a]
    case Effective(b, d) => st.mem[Address(st, b, 0)]
  }

  function MovClocks(src: Operand): nat {
    match src
    case Register(_) => 2
    case Segment(_) => 0
    case Immediate(_) => 4
    case Direct(_) => 8 + 6
    case Effective(b, d) => 8 + EaClocks(b, d)
  }

  function MovRegister(st: Machine, r: Reg, src: Operand): Machine
    requires r != MaxReg && src != Register(MaxReg) && src != Segment(MaxSegReg)
  {
    Tick(Write(st, r, MovValue(st, src)), MovClocks(src))
  }

  function MovSegment(st: Machine, s: SegReg, src: Operand): Option<Machine>
    requires s != MaxSegReg && src != Register(MaxReg) && src != Segment(MaxSegReg)
  {
    match src
    case Register(q) => Some(st.(segs := st.segs[SegIndex(s) := Read(st, q)]))
    case Segment(q) => Some(st.(segs := st.segs[SegIndex(s) := st.segs[SegIndex(q)]]))
    case Immediate(v) => Some(st.(segs := st.segs[SegIndex(s) := U16(v)]))
    case _ => None
  }

  function MovEffective(st: Machine, b: Base, d: int16, src: Operand): Option<Machine>
    requires src != Register(MaxReg)
  {
    match src
    case Register(q) => Some(Tick(Store(st, Address(st, b, d), U8(Read(st, q))), 9 + EaClocks(b, d)))
    case Immediate(v) => Some(Store(st, Address(st, b, d), U8(v)))
    case _ => None
  }

  function ExecMov(st: Machine, dst: Operand, src: Operand): Option<Machine>
    requires dst != Register(MaxReg) && dst != Segment(MaxSegReg)
    requires src != Register(MaxReg) && src != Segment(MaxSegReg)
  {
    match dst
    case Register(r) => Some(MovRegister(st, r, src))
    case Segment(s) => MovSegment(st, s, src)
    case Direct(a) => if src.Immediate? then Some(Store(st, a, U8(src.data))) else None
    case Effective(b, d) => MovEffective(st, b, d, src)
    case Immediate(_) => None
  }

  function Odd(a: word, penalty: nat): nat {
    if a % 2 != 0 then penalty else 0
  }

  /** A sum that sets the flags. */
  function Accumulate(st: Machine, r: Reg, v: word): Machine
    requires r != MaxReg
  {
    var value := U16(Read(st, r) + v);
    Write(st.(flags := EvalFlags(st.flags, value)), r, value)
  }

  /** Adding from memory sets no flags. */
  function AddLoad(st: Machine, r: Reg, b: Base, d: int16): Machine
    requires r != MaxReg
  {
    var a := Address(st, b, d);
    Tick(Write(st, r, U16(Read(st, r) + st.mem[a])), 9 + EaClocks(b, d) + Odd(a, 4))
  }

  /** Adding to memory changes one byte and sets no flags. */
  function AddEffective(st: Machine, b: Base, d: int16, v: int, clocks: nat): Machine {
    var a := Address(st, b, d);
    Tick(Store(st, a, U8(st.mem[a] + v)), clocks + EaClocks(b, d) + Odd(a, 8))
  }

  function ExecAdd(st: Machine, dst: Operand, src: Operand): Option<Machine>
    requires dst != Register(MaxReg) && src != Register(MaxReg)
  {
    match dst
    case Register(r) =>
      (match src
       case Immediate(v) => Some(Tick(Accumulate(st, r, U16(v)), 4))
       case Register(q) => Some(Tick(Accumulate(st, r, Read(st, q)), 3))
       case Effective(b, d) => Some(AddLoad(st, r, b, d))
       case _ => None)
    case Effective(b, d) =>
      (match src
       case Register(q) => Some(AddEffective(st, b, d, Read(st, q), 16))
       case Immediate(v) => Some(AddEffective(st, b, d, v, 17))
       case _ => None)
    case _ => None
  }

  /** A difference that sets the flags; SUB writes it back, CMP does not. */
  function Subtract(st: Machine, r: Reg, v: word, isSub: bool): Machine
    requires r != MaxReg
  {
    var value := U16(Read(st, r) - v);
    var flagged := st.(flags := EvalFlags(st.flags, value));
    if isSub then Write(flagged, r, value) else flagged
  }

  function ExecSubCmp(st: Machine, dst: Operand, src: Operand, isSub: bool): Option<Machine>
    requires dst != Register(MaxReg) && src != Register(MaxReg)
  {
    if !dst.Register? then None
    else
      match src
      case Register(q) => Some(Subtract(st, dst.reg, Read(st, q), isSub))
      case Immediate(v) => Some(Subtract(st, dst.reg, U16(v), isSub))
      case _ => None
  }

  function Advance(st: Machine, n: int): Machine {
    st.(ip := U16(st.ip + n))
  }

  /** LOOP decrements CX, sets the flags from it, and jumps while it is not zero. */
  function ExecLoop(st: Machine, offset: int16): Machine {
    var cx := U16(Read(st, CX) - 1);
    var counted := Write(st, CX, cx).(flags := EvalFlags(st.flags, cx));
    if IsZSet(counted.flags) then counted else Advance(counted, offset)
  }

  /** Jumps move past themselves first. Only JNZ and LOOP are implemented. */
  function ExecJump(st: Machine, op: Op, offset: int16, len: byte): Option<Machine> {
    var next := Advance(st, len);
    if op == Jnz then Some(if IsZSet(st.flags) then next else Advance(next, offset))
    else if op == Loop then Some(ExecLoop(next, offset))
    else None
  }

  /** No operand names the "no register" value; decoding guarantees it. */
  predicate NamesRegisters(i: Instr) {
    i.Two? ==> && i.dst != Register(MaxReg) && i.dst != Segment(MaxSegReg)
               && i.src != Register(MaxReg) && i.src != Segment(MaxSegReg)
  }

  /** One decoded instruction. */
  function Exec(st: Machine, i: Instr, len: byte): Option<Machine>
    requires NamesRegisters(i)
  {
    match i
    case Short(op, offset) => ExecJump(st, op, offset, len)
    case Two(op, dst, src, _, _) =>
      var done := match op {
        case Mov => ExecMov(st, dst, src)
        case Add => ExecAdd(st, dst, src)
        case Sub => ExecSubCmp(st, dst, src, true)
        case Cmp => ExecSubCmp(st, dst, src, false)
        case _ => None
      };
      if done.None? then None else Some(Advance(done.value, len))
  }

  // ----- runs -----

  function Fetch(st: Machine): Decoded {
    Decode(st.mem[st.ip..])
  }

  /** What the fetched bytes do to the machine. */
  function Perform(st: Machine, d: Decoded): Outcome<Machine>
    requires d.Decoded? ==> NamesRegisters(d.instr)
  {
    match d
    case ReadsPastEnd => Failed(OutsideMemory)
    case Unknown => Failed(BadOpcode)
    case Decoded(i, len) =>
      var next := Exec(st, i, len);
      if next.None? then Failed(Unsupported) else Running(next.value)
  }

  lemma FetchNamesRegisters(st: Machine)
    ensures Fetch(st).Decoded? ==> NamesRegisters(Fetch(st).instr) && WellFormed(Fetch(st).instr)
                                   && 2 <= Fetch(st).len <= 6
  {
    if Fetch(st).Decoded? {
      DecodedIsWellFormed(st.mem[st.ip..]);
    }
  }

  /** One turn of the loop on a program of `n` loaded bytes. Code and data share the memory. */
  function Step(st: Machine, n: nat): Outcome<Machine> {
    if st.ip >= n then Exited(st)
    else
      FetchNamesRegisters(st);
      Perform(st, Fetch(st))
  }

  function Stepper(n: nat): Machine -> Outcome<Machine> {
    (st: Machine) => Step(st, n)
  }

  /** `step` is the loop of the simulator on a program of `n` bytes. */
  ghost predicate Simulates(step: Machine -> Outcome<Machine>, n: nat) {
    forall s: Machine {:trigger Step(s, n)} :: step(s) == Step(s, n)
  }

  lemma StepperSimulates(n: nat)
    ensures Simulates(Stepper(n), n)
  {
  }
}
