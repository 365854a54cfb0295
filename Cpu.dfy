/** The `CPU` engine (cpu/CPU.java): registers, `I` and `pc` over a shared memory and screen,
    proved against `Semantics.Step` with the `CpuRevision` choices. */
module Cpu {
  import opened JavaInt
  import opened Wrappers
  import opened Instructions
  import opened Screens
  import opened Semantics
  import DrawLoop

  class Cpu {
    /** The 4096-byte memory, each byte stored as its 8-bit pattern; only read here. */
    const memory: array<byte>
    const screen: Screen
    /** `V0..VF`. */
    const registers: array<int32>
    var pc: int
    var indexRegister: int

    ghost predicate Valid()
      reads this, screen, screen.Repr
    {
      && screen.Valid()
      && memory.Length == MemorySize && registers.Length == 16
      && memory !in screen.Repr && registers !in screen.Repr && memory as object != registers
      && 0 <= indexRegister < MemorySize && 0 <= pc <= MemorySize
    }

    /** The engine's state as a `Semantics.Machine`. */
    ghost function State(): (m: Machine)
      reads this, registers, screen
      requires registers.Length == 16 && IsFrame(screen.grid)
      requires 0 <= indexRegister < MemorySize && 0 <= pc <= MemorySize
      ensures Wellformed(m)
    {
      Machine(registers[..], indexRegister, pc, screen.grid)
    }

    /** `new CPU(memory, screen)`: registers zero, `I = 0`, `pc = 0x200`. */
    constructor(memory: array<byte>, screen: Screen)
      requires screen.Valid() && memory.Length == MemorySize && memory !in screen.Repr
      ensures Valid() && fresh(registers)
      ensures this.memory == memory && this.screen == screen
      ensures State() == Initial(screen.grid)
    {
      this.memory := memory;
      this.screen := screen;
      registers := new int32[16](_ => 0);
      pc := InitialPc;
      indexRegister := 0;
    }

    /** `fetchInstruction`: the big-endian word at `pc`, then `pc += 2`. A read out of range
        throws before `pc` moves. */
    method FetchInstruction() returns (ins: Instruction, fault: Option<Fault>)
      requires Valid()
      modifies this
      ensures Valid() && indexRegister == old(indexRegister)
      ensures match Fetch(old(State()), memory[..])
        case FetchFault(f) => fault == Some(f) && pc == old(pc)
        case Fetched(fetched, next) => fault == None && ins == fetched && State() == next
    {
      ins := Instruction(0);
      if !(0 <= pc < memory.Length) {
        return ins, Some(MemoryOutOfRange(pc));
      }
      if !(0 <= pc + 1 < memory.Length) {
        return ins, Some(MemoryOutOfRange(pc + 1));
      }
      var word := FetchWord(memory[pc], memory[pc + 1]);
      pc := pc + 2;
      ins := Instruction(word);
      fault := None;
    }

    /** `executeInstruction`: the `switch` on the opcode nibble. */
    method ExecuteInstruction(ins: Instruction) returns (fault: Option<Fault>)
      requires Valid()
      modifies this, registers, screen, screen.Repr
      ensures Valid() && fresh(screen.Repr - old(screen.Repr))
      ensures Outcome(State(), fault) == Execute(CpuRevision, old(State()), memory[..], ins)
    {
      fault := None;
      match ins.OpCode()
      case 0x0 =>
        if ins.NN() == 0xE0 {
          screen.Clear();
        }
      case 0x1 =>
        pc := ins.NNN();
      case 0x2 =>
      case 0x3 =>
      case 0x4 =>
      case 0x5 =>
      case 0x6 =>
        registers[ins.X()] := ins.NN();
      case 0x7 =>
        // A Java `int` `+=`: it wraps at 32 bits, not at 8.
        registers[ins.X()] := Wrap32(registers[ins.X()] + ins.NN());
      case 0x8 =>
      case 0x9 =>
      case 0xA =>
        indexRegister := ins.NNN();
      case 0xB =>
      case 0xC =>
      case 0xD =>
        var xCoord := JavaRem(registers[ins.X()], Width);
        var yCoord := JavaRem(registers[ins.Y()], Height);
        fault := DrawLoop.Draw(screen, memory, registers, indexRegister, xCoord, yCoord, ins.N());
      case 0xE =>
      case 0xF =>
    }

    /** `executeCycle`: fetch, then execute. */
    method ExecuteCycle() returns (fault: Option<Fault>)
      requires Valid()
      modifies this, registers, screen, screen.Repr
      ensures Valid() && fresh(screen.Repr - old(screen.Repr))
      ensures Outcome(State(), fault) == Step(CpuRevision, old(State()), memory[..])
    {
      var ins;
      ins, fault := FetchInstruction();
      if fault.Some? {
        return;
      }
      fault := ExecuteInstruction(ins);
    }
  }
}
