/** LOOP: a straight-line body that leaves CX alone runs exactly CX times, and 65536 times when CX is zero. */
module Loops {
  import opened Words
  import opened Isa
  import opened Grammar
  import opened GrammarFacts
  import opened Runs
  import opened Machine
  import opened MachineFacts
  import opened Stability

  // ----- which instructions the simulator executes -----

  /** The operand combinations the simulator implements. */
  predicate Supported(i: Instr) {
    match i
    case Short(op, _) => op == Jnz || op == Loop
    case Two(op, dst, src, _, _) =>
      var regOrData := src.Register? || src.Immediate?;
      match op
      case Mov =>
        if dst.Register? then true
        else if dst.Segment? then !IsMemory(src)
        else if dst.Direct? then src.Immediate?
        else dst.Effective? && regOrData
      case Add => (dst.Register? && (regOrData || src.Effective?)) || (dst.Effective? && regOrData)
      case Sub => dst.Register? && regOrData
      case Cmp => dst.Register? && regOrData
      case _ => false
  }

  /** Whether an instruction ends in the fatal error depends on the instruction alone. */
  lemma SupportedExactly(st: Machine, i: Instr, len: byte)
    requires NamesRegisters(i)
    ensures Exec(st, i, len).Some? <==> Supported(i)
  {
  }

  // ----- straight-line code -----

  predicate IsCx(r: Reg) { r.CX? || r.CL? || r.CH? }

  predicate KeepsCx(i: Instr) {
    i.Two? && (i.op.Cmp? || !i.dst.Register? || !IsCx(i.dst.reg))
  }

  lemma WriteKeepsCx(st: Machine, r: Reg, v: word)
    requires r != MaxReg && !IsCx(r)
    ensures Read(Write(st, r, v), CX) == Read(st, CX)
  {
  }

  lemma MovKeepsCx(st: Machine, dst: Operand, src: Operand)
    requires dst != Register(MaxReg) && dst != Segment(MaxSegReg)
    requires src != Register(MaxReg) && src != Segment(MaxSegReg)
    requires !dst.Register? || !IsCx(dst.reg)
    requires ExecMov(st, dst, src).Some?
    ensures var t := ExecMov(st, dst, src).value; t.ip == st.ip && Read(t, CX) == Read(st, CX)
  {
    if dst.Register? {
      WriteKeepsCx(st, dst.reg, MovValue(st, src));
    }
  }

  lemma AccumulateKeepsCx(st: Machine, r: Reg, v: word)
    requires r != MaxReg && !IsCx(r)
    ensures var t := Accumulate(st, r, v); t.ip == st.ip && Read(t, CX) == Read(st, CX)
  {
    var value := U16(Read(st, r) + v);
    WriteKeepsCx(st.(flags := EvalFlags(st.flags, value)), r, value);
  }

  lemma AddKeepsCx(st: Machine, dst: Operand, src: Operand)
    requires dst != Register(MaxReg) && src != Register(MaxReg)
    requires !dst.Register? || !IsCx(dst.reg)
    requires ExecAdd(st, dst, src).Some?
    ensures var t := ExecAdd(st, dst, src).value; t.ip == st.ip && Read(t, CX) == Read(st, CX)
  {
    if dst.Register? {
      match src {
        case Immediate(v) => AccumulateKeepsCx(st, dst.reg, U16(v));
        case Register(q) => AccumulateKeepsCx(st, dst.reg, Read(st, q));
        case Effective(b, d) =>
          WriteKeepsCx(st, dst.reg, U16(Read(st, dst.reg) + st.mem[Address(st, b, d)]));
        case _ =>
      }
    }
  }

  lemma SubtractKeepsCx(st: Machine, r: Reg, v: word, isSub: bool)
    requires r != MaxReg && (isSub ==> !IsCx(r))
    ensures var t := Subtract(st, r, v, isSub); t.ip == st.ip && Read(t, CX) == Read(st, CX)
  {
    var value := U16(Read(st, r) - v);
    if isSub {
      WriteKeepsCx(st.(flags := EvalFlags(st.flags, value)), r, value);
    }
  }

  lemma SubCmpKeepsCx(st: Machine, dst: Operand, src: Operand, isSub: bool)
    requires dst != Register(MaxReg) && src != Register(MaxReg)
    requires isSub && dst.Register? ==> !IsCx(dst.reg)
    requires ExecSubCmp(st, dst, src, isSub).Some?
    ensures var t := ExecSubCmp(st, dst, src, isSub).value; t.ip == st.ip && Read(t, CX) == Read(st, CX)
  {
    SubtractKeepsCx(st, dst.reg, if src.Register? then Read(st, src.reg) else U16(src.data), isSub);
  }

  lemma ExecKeepsCx(st: Machine, i: Instr, len: byte)
    requires NamesRegisters(i) && KeepsCx(i) && Exec(st, i, len).Some?
    ensures var t := Exec(st, i, len).value; t.ip == U16(st.ip + len) && Read(t, CX) == Read(st, CX)
  {
    match i.op {
      case Mov => MovKeepsCx(st, i.dst, i.src);
      case Add => AddKeepsCx(st, i.dst, i.src);
      case Sub => SubCmpKeepsCx(st, i.dst, i.src, true);
      case Cmp => SubCmpKeepsCx(st, i.dst, i.src, false);
      case _ =>
    }
  }

  /** What decoding finds at each address of a memory image. */
  ghost predicate Lists(listing: word -> Decoded, code: seq<byte>)
    requires |code| == MEMORY_SIZE
  {
    forall a: word {:trigger Decode(code[a..])} :: listing(a) == Decode(code[a..])
  }

  /** A listing holds a loop: from `addr` on the instructions of `body` (with their lengths), each supported, falling
      through and leaving CX alone, and behind them a LOOP back to `start`. All of it lies below `m`. */
  predicate IsLoop(listing: word -> Decoded, start: int, addr: int, body: seq<(Instr, byte)>, n: nat, m: int)
    decreases |body|
  {
    && 0 <= addr < n && addr < MEMORY_SIZE && m <= MEMORY_SIZE
    && if body == [] then
         && addr + 2 <= m && addr + 2 < MEMORY_SIZE && -0x8000 <= start - (addr + 2) < 0x8000
         && listing(addr) == Decoded(Short(Loop, start - (addr + 2)), 2)
       else
         && addr + body[0].1 <= m && addr + body[0].1 < MEMORY_SIZE
         && listing(addr) == Decoded(body[0].0, body[0].1)
         && Supported(body[0].0) && KeepsCx(body[0].0)
         && IsLoop(listing, start, addr + body[0].1, body[1..], n, m)
  }

  function Bytes(body: seq<(Instr, byte)>): nat {
    if body == [] then 0 else body[0].1 + Bytes(body[1..])
  }

  /** Fetching where the code is unchanged: only the bytes of the instruction matter. */
  lemma FetchUnchanged(st: Machine, code: seq<byte>, m: int, i: Instr, len: byte)
    requires |code| == MEMORY_SIZE && 0 <= m <= MEMORY_SIZE && SameBelow(st.mem, code, m)
    requires Decode(code[st.ip..]) == Decoded(i, len) && st.ip + len <= m
    ensures Fetch(st) == Decoded(i, len) && NamesRegisters(i)
  {
    var s, t := code[st.ip..], st.mem[st.ip..];
    forall k | 0 <= k < len
      ensures s[k] == t[k]
    {
      assert s[k] == code[st.ip + k] && t[k] == st.mem[st.ip + k];
    }
    DecodeReadsOnlyItsBytes(s, t);
    FetchNamesRegisters(st);
  }

  /** `ok` says that the next instruction of a program of `n` bytes stores nothing below `m`. */
  ghost predicate Guards(ok: Machine -> bool, n: nat, m: int) {
    forall s: Machine {:trigger NextStoresAtOrAbove(s, n, m)} :: ok(s) ==> NextStoresAtOrAbove(s, n, m)
  }

  /** Stepping where the code is unchanged. */
  lemma StepUnchanged(step: Machine -> Outcome<Machine>, ok: Machine -> bool, listing: word -> Decoded,
                      st: Machine, code: seq<byte>, i: Instr, len: byte, n: nat, m: int)
    requires |code| == MEMORY_SIZE && 0 <= m <= MEMORY_SIZE && SameBelow(st.mem, code, m)
    requires Simulates(step, n) && Guards(ok, n, m) && Lists(listing, code)
    requires listing(st.ip) == Decoded(i, len) && st.ip < n && st.ip + len <= m
    ensures NamesRegisters(i)
    ensures step(st) == if Exec(st, i, len).None? then Failed(Unsupported) else Running(Exec(st, i, len).value)
    ensures ok(st) ==> StoresAtOrAbove(st, i, m)
  {
    assert Decode(code[st.ip..]) == Decoded(i, len);
    FetchUnchanged(st, code, m, i, len);
    assert Step(st, n) == Perform(st, Decoded(i, len));
    assert ok(st) ==> NextStoresAtOrAbove(st, n, m);
  }

  lemma ExecKeepsCode(st: Machine, code: seq<byte>, i: Instr, len: byte, m: int)
    requires |code| == MEMORY_SIZE && 0 <= m <= MEMORY_SIZE && SameBelow(st.mem, code, m)
    requires NamesRegisters(i) && StoresAtOrAbove(st, i, m) && Exec(st, i, len).Some?
    ensures SameBelow(Exec(st, i, len).value.mem, code, m)
  {
    forall a | 0 <= a < m
      ensures Exec(st, i, len).value.mem[a] == code[a]
    {
      ExecFrame(st, i, len, a);
    }
  }

  lemma BodyStep(st: Machine, code: seq<byte>, i: Instr, len: byte, m: int)
    requires |code| == MEMORY_SIZE && 0 <= m <= MEMORY_SIZE && SameBelow(st.mem, code, m)
    requires NamesRegisters(i) && Supported(i) && KeepsCx(i) && StoresAtOrAbove(st, i, m)
    requires st.ip + len < MEMORY_SIZE
    ensures Exec(st, i, len).Some?
    ensures var t := Exec(st, i, len).value;
            t.ip == st.ip + len && Read(t, CX) == Read(st, CX) && SameBelow(t.mem, code, m)
  {
    SupportedExactly(st, i, len);
    ExecKeepsCx(st, i, len);
    ExecKeepsCode(st, code, i, len, m);
  }

  lemma LoopEffect(st: Machine, offset: int16)
    ensures var t := ExecLoop(st, offset);
            && Read(t, CX) == (Read(st, CX) - 1) % 0x1_0000
            && t.ip == (if Read(st, CX) == 1 then st.ip else U16(st.ip + offset))
            && (IsZSet(t.flags) <==> Read(st, CX) == 1)
            && t.mem == st.mem
  {
    var cx: int := Read(st, CX);
    FlagsOfValue(st.flags, U16(cx - 1));
    ReadAfterWrite(st, CX, U16(cx - 1), CX);
    assert U16(cx - 1) == 0 <==> cx == 1;
  }

  /** At the start of the body, code unchanged. */
  predicate AtHead(s: Machine, code: seq<byte>, start: int, m: int)
    requires |code| == MEMORY_SIZE && 0 <= m <= MEMORY_SIZE
  {
    s.ip == start && SameBelow(s.mem, code, m)
  }

  /** Behind the LOOP, with CX = 0 and Z set. */
  predicate FellThrough(s: Machine, code: seq<byte>, end: int, m: int)
    requires |code| == MEMORY_SIZE && 0 <= m <= MEMORY_SIZE
  {
    s.ip == end + 2 && Read(s, CX) == 0 && IsZSet(s.flags) && SameBelow(s.mem, code, m)
  }

  /** The LOOP at the end of a body. */
  lemma LoopTurn(s: Machine, code: seq<byte>, start: word, m: int)
    requires |code| == MEMORY_SIZE && 0 <= m <= MEMORY_SIZE && SameBelow(s.mem, code, m)
    requires s.ip + 2 < MEMORY_SIZE && -0x8000 <= start - (s.ip + 2) < 0x8000
    ensures var t := Exec(s, Short(Loop, start - (s.ip + 2)), 2);
            && t.Some?
            && Read(t.value, CX) == (Read(s, CX) - 1) % 0x1_0000
            && if Read(s, CX) == 1 then FellThrough(t.value, code, s.ip, m) else AtHead(t.value, code, start, m)
  {
    LoopEffect(Advance(s, 2), start - (s.ip + 2));
  }

  /** The rest of the body and the LOOP. */
  lemma {:induction false} OnePass(step: Machine -> Outcome<Machine>, ok: Machine -> bool, listing: word -> Decoded,
                                   st: Machine, code: seq<byte>, start: word, body: seq<(Instr, byte)>, n: nat, m: int)
    requires |code| == MEMORY_SIZE && 0 <= m <= MEMORY_SIZE
    requires Simulates(step, n) && Guards(ok, n, m) && Lists(listing, code)
    requires IsLoop(listing, start, st.ip, body, n, m) && SameBelow(st.mem, code, m)
    requires AllAlong(step, ok, st, |body| + 1)
    ensures Run(step, st, |body| + 1).Running?
    ensures var t := Run(step, st, |body| + 1).st;
            && Read(t, CX) == (Read(st, CX) - 1) % 0x1_0000
            && if Read(st, CX) == 1 then FellThrough(t, code, st.ip + Bytes(body), m) else AtHead(t, code, start, m)
    decreases |body|
  {
    if body == [] {
      StepUnchanged(step, ok, listing, st, code, Short(Loop, start - (st.ip + 2)), 2, n, m);
      LoopTurn(st, code, start, m);
      assert Run(step, st, 1) == Run(step, step(st).st, 0);
    } else {
      StepUnchanged(step, ok, listing, st, code, body[0].0, body[0].1, n, m);
      BodyStep(st, code, body[0].0, body[0].1, m);
      OnePass(step, ok, listing, step(st).st, code, start, body[1..], n, m);
    }
  }

  /** The passes of the loop are counted by CX. */
  lemma LoopIsCounted(step: Machine -> Outcome<Machine>, ok: Machine -> bool, listing: word -> Decoded, code: seq<byte>,
                      start: word, body: seq<(Instr, byte)>, n: nat, m: int,
                      head: Machine -> bool, done: Machine -> bool, counter: Machine -> int)
    requires |code| == MEMORY_SIZE && 0 <= m <= MEMORY_SIZE
    requires Simulates(step, n) && Guards(ok, n, m) && Lists(listing, code) && IsLoop(listing, start, start, body, n, m)
    requires forall s: Machine :: head(s) == AtHead(s, code, start, m)
    requires forall s: Machine :: done(s) == FellThrough(s, code, start + Bytes(body), m)
    requires forall s: Machine :: counter(s) == Read(s, CX)
    ensures IsCountedLoop(step, ok, |body| + 1, head, done, counter)
  {
    forall s: Machine | head(s) && AllAlong(step, ok, s, |body| + 1)
      ensures Run(step, s, |body| + 1).Running?
      ensures var t := Run(step, s, |body| + 1).st;
              && counter(t) == (counter(s) - 1) % 0x1_0000
              && if counter(s) == 1 then done(t) else head(t)
    {
      OnePass(step, ok, listing, s, code, start, body, n, m);
    }
  }

  /** After `j` passes CX has gone down by `j`, and the run is back at the start of the body; after the last pass,
      number CX (65536 when CX was 0), it has fallen through with CX = 0 and Z set. So the body runs exactly that
      often. The only hypothesis on the run is that it stores nothing into the code. */
  lemma LoopRunsCxTimes(step: Machine -> Outcome<Machine>, ok: Machine -> bool, listing: word -> Decoded,
                        st: Machine, code: seq<byte>, body: seq<(Instr, byte)>, n: nat, m: int, j: nat)
    requires |code| == MEMORY_SIZE && 0 <= m <= MEMORY_SIZE
    requires Simulates(step, n) && Guards(ok, n, m) && Lists(listing, code)
    requires IsLoop(listing, st.ip, st.ip, body, n, m) && SameBelow(st.mem, code, m)
    requires j <= Count(Read(st, CX))
    requires AllAlong(step, ok, st, j * (|body| + 1))
    ensures Run(step, st, j * (|body| + 1)).Running?
    ensures var t := Run(step, st, j * (|body| + 1)).st;
            && Read(t, CX) == (Read(st, CX) - j) % 0x1_0000
            && if j == Count(Read(st, CX)) then FellThrough(t, code, st.ip + Bytes(body), m)
               else AtHead(t, code, st.ip, m)
  {
    var start := st.ip;
    var head := (s: Machine) => AtHead(s, code, start, m);
    var done := (s: Machine) => FellThrough(s, code, start + Bytes(body), m);
    var counter := (s: Machine) => Read(s, CX) as int;
    LoopIsCounted(step, ok, listing, code, start, body, n, m, head, done, counter);
    CountedLoop(step, ok, |body| + 1, head, done, counter, st, j);
  }

  /** The same of the simulator itself: a body in the loaded memory, closed by a LOOP back to where the machine is,
      on a run that stores nothing below the end of the loop. */
  lemma SimulatorLoop(st: Machine, body: seq<(Instr, byte)>, n: nat, m: int, j: nat)
    requires 0 <= m <= MEMORY_SIZE
    requires IsLoop((a: word) => Decode(st.mem[a..]), st.ip, st.ip, body, n, m)
    requires j <= Count(Read(st, CX))
    requires AllAlong(Stepper(n), (s: Machine) => NextStoresAtOrAbove(s, n, m), st, j * (|body| + 1))
    ensures Run(Stepper(n), st, j * (|body| + 1)).Running?
    ensures var t := Run(Stepper(n), st, j * (|body| + 1)).st;
            && Read(t, CX) == (Read(st, CX) - j) % 0x1_0000
            && if j == Count(Read(st, CX)) then FellThrough(t, st.mem, st.ip + Bytes(body), m)
               else AtHead(t, st.mem, st.ip, m)
  {
    var listing := (a: word) => Decode(st.mem[a..]);
    var ok := (s: Machine) => NextStoresAtOrAbove(s, n, m);
    StepperSimulates(n);
    LoopRunsCxTimes(Stepper(n), ok, listing, st, st.mem, body, n, m, j);
  }
}
