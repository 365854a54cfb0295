/** `Chip8Emulator` (Chip8Emulator.java): a `CPU` over a caller's memory and screen, run for
    a fixed number of cycles. */
module Emulator {
  import opened JavaInt
  import opened Wrappers
  import opened Screens
  import opened Semantics
  import opened Cpu

  class Chip8Emulator {
    const cpu: Cpu

    ghost predicate Valid()
      reads this, cpu, cpu.screen, cpu.screen.Repr
    {
      cpu.Valid()
    }

    /** `new Chip8Emulator(memory, screen)`: a fresh `CPU` on the caller's memory and screen. */
    constructor(memory: array<byte>, screen: Screen)
      requires screen.Valid() && memory.Length == MemorySize && memory !in screen.Repr
      ensures Valid() && fresh(cpu) && fresh(cpu.registers)
      ensures cpu.memory == memory && cpu.screen == screen
      ensures cpu.State() == Initial(screen.grid)
    {
      cpu := new Cpu(memory, screen);
    }

    /** `runFixedCycles`: counts `numCycles` down to zero, one `CPU` cycle each; an exception
        ends the run early. */
    method RunFixedCycles(numCycles: int32) returns (fault: Option<Fault>)
      requires Valid()
      modifies cpu, cpu.registers, cpu.screen, cpu.screen.Repr
      ensures Valid() && fresh(cpu.screen.Repr - old(cpu.screen.Repr))
      ensures Outcome(cpu.State(), fault) == Run(CpuRevision, old(cpu.State()), cpu.memory[..], numCycles)
      ensures numCycles <= 0 ==> fault == None && cpu.State() == old(cpu.State())
    {
      var remaining := numCycles;
      fault := None;
      while remaining > 0
        invariant Valid() && fresh(cpu.screen.Repr - old(cpu.screen.Repr))
        invariant fault == None
        invariant Run(CpuRevision, old(cpu.State()), cpu.memory[..], numCycles)
               == Run(CpuRevision, cpu.State(), cpu.memory[..], remaining)
        decreases remaining
      {
        fault := cpu.ExecuteCycle();
        if fault.Some? {
          return;
        }
        remaining := remaining - 1;
      }
    }
  }
}
