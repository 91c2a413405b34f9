/** Listing 52 on the simulator class: loading the program's bytes and running the loop leaves the sum behind. */
module Listing52Run {
  import opened Words
  import opened Decoder
  import opened Machine
  import opened Simulator
  import opened Listing52

  /** With room for all its turns, the simulator's loop exits past the program with the sum in BX. */
  method RunListing52(sim: Simulator, n: word, b: word, maxSteps: nat, inst: DecodedInstruction)
    requires sim.Intact() && Setting(sim.memory[..], n, b) && sim.ip == 0 && maxSteps >= Turns(n)
    modifies sim, sim.memory, sim.registers, sim.segmentRegisters, inst
    ensures sim.Intact() && sim.ip == 0x23 && Summed(old(sim.Value()), sim.Value(), n, b)
  {
    var fault, exited;
    ghost var trace;
    fault, exited, trace := sim.Simulate(SIZE, maxSteps, inst);
    StepperSimulates(SIZE);
    TraceEnds(Stepper(SIZE), trace, n, b);
  }
}
