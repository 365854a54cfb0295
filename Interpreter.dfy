/** The older `Interpreter` engine (Interpreter.java): the same cycle as `CPU`, written over a
    raw `int` opcode and with its own display, proved against `Semantics.Run` with the
    `InterpreterRevision` choices. */
module Interpreters {
  import opened JavaInt
  import opened Wrappers
  import opened Instructions
  import opened Screens
  import opened Semantics
  import DrawLoop

  class Interpreter {
    /** The 4096-byte memory, each byte stored as its 8-bit pattern; only read here. */
    const memory: array<byte>
    /** The engine's own display (a `Display` has the same interface as a `Screen`). */
    const display: Screen
    /** `V0..VF`. */
    const registers: array<int32>
    var indexRegister: int
    var pc: int

    ghost predicate Valid()
      reads this, display, display.Repr
    {
      && display.Valid()
      && memory.Length == MemorySize && registers.Length == 16
      && memory !in display.Repr && registers !in display.Repr && memory as object != registers
      && 0 <= indexRegister < MemorySize && 0 <= pc <= MemorySize
    }

    /** The engine's state as a `Semantics.Machine`. */
    ghost function State(): (m: Machine)
      reads this, registers, display
      requires registers.Length == 16 && IsFrame(display.grid)
      requires 0 <= indexRegister < MemorySize && 0 <= pc <= MemorySize
      ensures Wellformed(m)
    {
      Machine(registers[..], indexRegister, pc, display.grid)
    }

    /** `new Interpreter(memory)`: a blank display of its own, registers zero, `I = 0`,
        `pc = 0x200`. */
    constructor(memory: array<byte>)
      requires memory.Length == MemorySize
      ensures Valid() && fresh(registers) && fresh(display) && fresh(display.Repr)
      ensures this.memory == memory
      ensures State() == Initial(Blank())
    {
      this.memory := memory;
      display := new Screen();
      registers := new int32[16](_ => 0);
      indexRegister := 0;
      pc := InitialPc;
    }

    /** `runFixedCycles`: counts `numCycles` down to zero, one cycle each; an exception ends
        the run early. */
    method RunFixedCycles(numCycles: int32) returns (fault: Option<Fault>)
      requires Valid()
      modifies this, registers, display, display.Repr
      ensures Valid() && fresh(display.Repr - old(display.Repr))
      ensures Outcome(State(), fault) == Run(InterpreterRevision, old(State()), memory[..], numCycles)
      ensures numCycles <= 0 ==> fault == None && State() == old(State())
    {
      var remaining := numCycles;
      fault := None;
      while remaining > 0
        invariant Valid() && fresh(display.Repr - old(display.Repr))
        invariant fault == None
        invariant Run(InterpreterRevision, old(State()), memory[..], numCycles)
               == Run(InterpreterRevision, State(), memory[..], remaining)
        decreases remaining
      {
        fault := RunCycle();
        if fault.Some? {
          return;
        }
        remaining := remaining - 1;
      }
    }

    /** `runCycle`: fetch a word, then dispatch on it. */
    method RunCycle() returns (fault: Option<Fault>)
      requires Valid()
      modifies this, registers, display, display.Repr
      ensures Valid() && fresh(display.Repr - old(display.Repr))
      ensures Outcome(State(), fault) == Step(InterpreterRevision, old(State()), memory[..])
    {
      var opCode;
      opCode, fault := FetchInstruction();
      if fault.Some? {
        return;
      }
      fault := Dispatch(opCode);
    }

    /** The `switch` of `runCycle`: split the word into nibbles and dispatch on the first. */
    method Dispatch(opCode: int32) returns (fault: Option<Fault>)
      requires Valid()
      modifies this, registers, display, display.Repr
      ensures Valid() && fresh(display.Repr - old(display.Repr))
      ensures Outcome(State(), fault) == Execute(InterpreterRevision, old(State()), memory[..], Instruction(opCode))
    {
      fault := None;
      // The nibbles `(opCode & 0xF000) >> 12`, ... are the `Instruction` getters.
      var nibbles := Instruction(opCode);
      match nibbles.OpCode()
      case 0x0 =>
        if opCode == 0x00E0 {
          display.Clear();
        }
      case 0x1 =>
        pc := nibbles.NNN();
      case 0x2 =>
      case 0x3 =>
      case 0x4 =>
      case 0x5 =>
      case 0x6 =>
        registers[nibbles.X()] := nibbles.NN();
      case 0x7 =>
        // A Java `int` addition: it wraps at 32 bits, not at 8.
        registers[nibbles.X()] := Wrap32(registers[nibbles.X()] + nibbles.NN());
      case 0x8 =>
      case 0x9 =>
      case 0xA =>
        indexRegister := nibbles.NNN();
      case 0xB =>
      case 0xC =>
      case 0xD =>
        var xCoord := JavaRem(LowByte(registers[nibbles.X()]), Width);
        var yCoord := JavaRem(LowByte(registers[nibbles.Y()]), Height);
        fault := DrawLoop.Draw(display, memory, registers, indexRegister, xCoord, yCoord, nibbles.N());
      case 0xE =>
      case 0xF =>
    }

    /** `fetchInstruction`: the big-endian word at `pc` as a sign-extended `int`, then
        `pc += 2`. A read out of range throws before `pc` moves. */
    method FetchInstruction() returns (opCode: int32, fault: Option<Fault>)
      requires Valid()
      modifies this
      ensures Valid() && indexRegister == old(indexRegister)
      ensures match Fetch(old(State()), memory[..])
        case FetchFault(f) => fault == Some(f) && pc == old(pc)
        case Fetched(fetched, next) => fault == None && opCode == fetched.word && State() == next
    {
      opCode := 0;
      if !(0 <= pc < memory.Length) {
        return opCode, Some(MemoryOutOfRange(pc));
      }
      if !(0 <= pc + 1 < memory.Length) {
        return opCode, Some(MemoryOutOfRange(pc + 1));
      }
      opCode := FetchWord(memory[pc], memory[pc + 1]);
      pc := pc + 2;
      fault := None;
    }

    /** `getDisplay`: the engine's own display. */
    function GetDisplay(): (d: Screen)
      reads this
      ensures d == display
    {
      display
    }
  }
}
