/** The nested block profiler: START and END macros that thread a call stack through parent indices and a
    recursion counter. The tick counter is an input. */
module Profiler {
  const SLOTS := 4096
  const TICK_RANGE := 0x1_0000_0000_0000_0000

  type ticks = x: int | 0 <= x < 0x1_0000_0000_0000_0000
  type slot = x: int | 0 <= x < 4096

  function U64(x: int): ticks {
    x % TICK_RANGE
  }

  datatype Block = Block(parentIndex: int, startRdtsc: ticks, totalTicks: ticks, count: ticks,
                         childrenTicks: ticks, recursiveCount: int, processedByteCount: ticks)

  const EMPTY_BLOCK := Block(0, 0, 0, 0, 0, 0, 0)

  /** The profiler's globals as a value. */
  datatype Profile = Profile(index: int, blocks: seq<Block>)

  /** Every index stored is -1 or a slot. */
  predicate Indexed(p: Profile) {
    |p.blocks| == SLOTS && -1 <= p.index < SLOTS
    && forall i :: 0 <= i < SLOTS ==> -1 <= p.blocks[i].parentIndex < SLOTS
  }

  const INITIAL := Profile(-1, seq(SLOTS, _ => EMPTY_BLOCK))

  datatype Event = Start(slot: slot, time: ticks, bytes: ticks) | End(slot: slot, time: ticks)

  function BlockStart(p: Profile, i: slot, time: ticks, bytes: ticks): (q: Profile)
    requires Indexed(p)
    ensures Indexed(q)
  {
    var b := p.blocks[i];
    if i == p.index then p.(blocks := p.blocks[i := b.(recursiveCount := b.recursiveCount + 1)])
    else Profile(i, p.blocks[i := b.(startRdtsc := time, processedByteCount := bytes, parentIndex := p.index)])
  }

  /** A closed block: its ticks are added to its own total. */
  function Closed(b: Block, time: ticks): Block {
    b.(totalTicks := U64(b.totalTicks + U64(time - b.startRdtsc)), count := U64(b.count + 1), startRdtsc := 0)
  }

  function BlockEnd(p: Profile, i: slot, time: ticks): (q: Profile)
    requires Indexed(p)
    ensures Indexed(q)
  {
    var b := p.blocks[i];
    if b.recursiveCount != 0 then p.(blocks := p.blocks[i := b.(recursiveCount := b.recursiveCount - 1)])
    else
      var closed := p.blocks[i := Closed(b, time)];
      if b.parentIndex == -1 then Profile(-1, closed)
      else
        var parent := closed[b.parentIndex];
        Profile(b.parentIndex,
                closed[b.parentIndex := parent.(childrenTicks := U64(parent.childrenTicks + closed[i].totalTicks))])
  }

  function Apply(p: Profile, e: Event): (q: Profile)
    requires Indexed(p)
    ensures Indexed(q)
  {
    match e
    case Start(i, time, bytes) => BlockStart(p, i, time, bytes)
    case End(i, time) => BlockEnd(p, i, time)
  }

  function ApplyAll(p: Profile, trace: seq<Event>): (q: Profile)
    requires Indexed(p)
    ensures Indexed(q)
    decreases |trace|
  {
    if trace == [] then p else ApplyAll(Apply(p, trace[0]), trace[1..])
  }

  lemma {:induction false} ApplyConcat(p: Profile, a: seq<Event>, b: seq<Event>)
    requires Indexed(p)
    ensures ApplyAll(p, a + b) == ApplyAll(ApplyAll(p, a), b)
    decreases |a|
  {
    if a == [] {
      assert a + b == b;
    } else {
      assert (a + b)[1..] == a[1..] + b;
      ApplyConcat(Apply(p, a[0]), a[1..], b);
    }
  }

  /** The macros on the global array. */
  class Globals {
    var profileIndex: int
    const profileData: array<Block>

    ghost function Value(): Profile
      reads this, profileData
    {
      Profile(profileIndex, profileData[..])
    }

    ghost predicate Intact()
      reads this, profileData
    {
      profileData.Length == SLOTS && Indexed(Value())
    }

    constructor ()
      ensures Intact() && Value() == INITIAL && fresh(profileData)
    {
      profileIndex := -1;
      profileData := new Block[SLOTS](_ => EMPTY_BLOCK);
    }

    method TagDataBlockStart(index: slot, byteCount: ticks, now: ticks)
      requires Intact()
      modifies this, profileData
      ensures Intact() && Value() == BlockStart(old(Value()), index, now, byteCount)
    {
      if index == profileIndex {
        profileData[index] := profileData[index].(recursiveCount := profileData[index].recursiveCount + 1);
      } else {
        profileData[index] := profileData[index].(startRdtsc := now);
        profileData[index] := profileData[index].(processedByteCount := byteCount);
        if profileIndex != -1 {
          profileData[index] := profileData[index].(parentIndex := profileIndex);
        } else {
          profileData[index] := profileData[index].(parentIndex := -1);
        }
        profileIndex := index;
      }
      assert Value() == BlockStart(old(Value()), index, now, byteCount);
    }

    method TagBlockEnd(index: slot, now: ticks)
      requires Intact()
      modifies this, profileData
      ensures Intact() && Value() == BlockEnd(old(Value()), index, now)
    {
      if profileData[index].recursiveCount == 0 {
        var b := profileData[index];
        profileData[index] := b.(totalTicks := U64(b.totalTicks + U64(now - b.startRdtsc)));
        profileData[index] := profileData[index].(count := U64(profileData[index].count + 1));
        profileData[index] := profileData[index].(startRdtsc := 0);
        assert profileData[..] == old(profileData[..])[index := Closed(b, now)];
        if profileData[index].parentIndex != -1 {
          profileIndex := profileData[index].parentIndex;
          var parent := profileData[profileIndex];
          profileData[profileIndex] :=
            parent.(childrenTicks := U64(parent.childrenTicks + profileData[index].totalTicks));
        } else {
          profileIndex := -1;
        }
      } else {
        profileData[index] := profileData[index].(recursiveCount := profileData[index].recursiveCount - 1);
      }
      assert Value() == BlockEnd(old(Value()), index, now);
    }
  }
}
