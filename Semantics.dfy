/** The meaning of one fetch-decode-execute cycle, as functions on a machine-state value.
    Two revisions of the engine are described: `CPU` (cpu/CPU.java) and the older
    `Interpreter` (Interpreter.java). They differ in two places only: the condition for
    clearing the screen and the masking of the sprite coordinates. */
module Semantics {
  import opened JavaInt
  import opened Wrappers
  import opened Instructions
  import opened Screens

  const MemorySize: int := 0x1000
  const InitialPc: int := 0x200
  /** `VF`, the register that doubles as the collision flag. */
  const FlagRegister: int := 0xF

  datatype Revision = CpuRevision | InterpreterRevision

  /** The exceptions an index out of range raises: in memory (`getByte`) or on the screen. */
  datatype Fault = MemoryOutOfRange(address: int) | PixelOutOfRange(x: int, y: int)

  /** Registers `V0..VF` (Java `int`s), the index register `I`, the program counter and the screen. */
  datatype Machine = Machine(v: seq<int32>, i: int, pc: int, frame: seq<seq<bool>>)

  /** What every reachable state satisfies: `I` only ever holds an `NNN`, and `pc` only grows
      past a byte it has just read, so it stays within one step of the end of memory. */
  ghost predicate Wellformed(m: Machine) {
    |m.v| == 16 && 0 <= m.i < MemorySize && 0 <= m.pc <= MemorySize && IsFrame(m.frame)
  }

  /** The state after a step, and the exception the step ended with, if any (the state is then
      the one at the moment of the exception). */
  datatype Outcome = Outcome(m: Machine, fault: Option<Fault>)

  /** A fresh engine on a given screen: registers zero, `I = 0`, `pc = 0x200`. */
  function Initial(frame: seq<seq<bool>>): (m: Machine)
    requires IsFrame(frame)
    ensures Wellformed(m) && m.pc == InitialPc && m.i == 0 && m.frame == frame
    ensures forall k :: 0 <= k < 16 ==> m.v[k] == 0
  {
    Machine(seq(16, _ => 0), 0, InitialPc, frame)
  }

  // ---------------------------------------------------------------- fetch

  /** `(memory.getByte(pc) << 8) | (memory.getByte(pc + 1) & 0xFF)`: the high byte is a
      signed Java `byte`, so it is sign-extended; the low 8 bits of the shifted value are
      zero, so the `|` adds the low byte. */
  function FetchWord(hi: byte, lo: byte): (w: int32)
    ensures -0x8000 <= w < 0x8000
    ensures w % 0x1_0000 == (hi as int) * 0x100 + lo
    ensures hi < 0x80 ==> w == (hi as int) * 0x100 + lo
  {
    var w := SignedByte(hi) * 0x100 + lo;
    DivModUnique(w, 0x1_0000, if hi < 0x80 then 0 else -1, (hi as int) * 0x100 + lo);
    w
  }

  datatype Fetched = Fetched(ins: Instruction, next: Machine) | FetchFault(fault: Fault)

  /** Reads `pc` then `pc + 1` (either read may be out of range), then advances `pc` by 2. */
  function Fetch(m: Machine, mem: seq<byte>): (r: Fetched)
    ensures r.FetchFault? <==> !(0 <= m.pc && m.pc + 1 < |mem|)
    ensures r.Fetched? ==> r.next == m.(pc := m.pc + 2)
    ensures r.Fetched? ==> r.ins.word % 0x1_0000 == (mem[m.pc] as int) * 0x100 + mem[m.pc + 1]
  {
    if !(0 <= m.pc < |mem|) then FetchFault(MemoryOutOfRange(m.pc))
    else if !(m.pc + 1 < |mem|) then FetchFault(MemoryOutOfRange(m.pc + 1))
    else Fetched(Instruction(FetchWord(mem[m.pc], mem[m.pc + 1])), m.(pc := m.pc + 2))
  }

  // ---------------------------------------------------------------- sprites

  /** The low `k` bits of `s`, most significant first. */
  function LowBits(s: int, k: nat): (bits: seq<bool>)
    ensures |bits| == k
    decreases k
  {
    if k == 0 then [] else LowBits(s / 2, k - 1) + [s % 2 == 1]
  }

  /** The `bits` array of a sprite row, most significant bit first
      (`DrawProperties.BitsAreMaskTests` proves it is the source's eight mask tests). */
  function SpriteBits(sprite: byte): (bits: seq<bool>)
    ensures |bits| == 8
  {
    LowBits(sprite, 8)
  }

  /** The number of columns one sprite row touches from `x0`: the column loop stops after the
      last screen column, so `min(8, Width - x0)`. */
  function Cols(x0: int): (c: int)
    requires 0 <= x0 < Width
    ensures 1 <= c <= 8 && x0 + c <= Width
  {
    if x0 + 8 <= Width then 8 else Width - x0
  }

  function Min(a: int, b: int): int {
    if a <= b then a else b
  }

  /** A frame after (part of) a draw, and whether a lit pixel met a set sprite bit. */
  datatype Canvas = Canvas(frame: seq<seq<bool>>, collision: bool)

  /** The first `k` iterations of the column loop over screen row `y`: each pixel becomes
      `!previous && bit` (not the XOR of the two, as CHIP-8 specifies), and a collision is
      recorded where `previous && bit`. */
  function RowDrawn(f: seq<seq<bool>>, x0: int, y: int, bits: seq<bool>, k: int): (c: Canvas)
    requires IsFrame(f) && |bits| == 8 && 0 <= x0 && 0 <= k <= 8 && x0 + k <= Width && 0 <= y < Height
    ensures IsFrame(c.frame)
    decreases k
  {
    if k == 0 then Canvas(f, false)
    else
      var before := RowDrawn(f, x0, y, bits, k - 1);
      var previous := before.frame[y][x0 + k - 1];
      var bit := bits[k - 1];
      Canvas(Plot(before.frame, x0 + k - 1, y, !previous && bit), before.collision || (previous && bit))
  }

  /** The row loop over the sprite rows `sprites` (already read from memory), starting at
      screen row `y0`; each row touches `Cols(x0)` columns. */
  function RowsDrawn(f: seq<seq<bool>>, x0: int, y0: int, sprites: seq<byte>): (c: Canvas)
    requires IsFrame(f) && 0 <= x0 < Width && 0 <= y0 && y0 + |sprites| <= Height
    ensures IsFrame(c.frame)
    decreases |sprites|
  {
    if sprites == [] then Canvas(f, false)
    else
      var last := |sprites| - 1;
      var before := RowsDrawn(f, x0, y0, sprites[..last]);
      var row := RowDrawn(before.frame, x0, y0 + last, SpriteBits(sprites[last]), Cols(x0));
      Canvas(row.frame, before.collision || row.collision)
  }

  /** The result of a whole draw, ended early by an exception if one is raised. */
  datatype Drawn = Drawn(frame: seq<seq<bool>>, collision: bool, fault: Option<Fault>)

  /** `n` sprite rows read from `mem[i..]`, drawn with the top-left corner at `(x0, y0)`.
      The row loop stops after the last screen row, so at most `Height - y0` rows are drawn.
      A negative corner (possible only in the `CPU` revision) makes the very first pixel
      access throw; a sprite running past the end of memory throws when the first missing
      byte is read, after the rows before it are drawn. */
  function SpriteDrawn(f: seq<seq<bool>>, mem: seq<byte>, i: int, x0: int, y0: int, n: int): (d: Drawn)
    requires IsFrame(f) && |mem| == MemorySize && 0 <= i < MemorySize
    requires 0 <= n < 0x10 && x0 < Width && y0 < Height
    ensures IsFrame(d.frame)
  {
    if n == 0 then Drawn(f, false, None)
    else if x0 < 0 || y0 < 0 then Drawn(f, false, Some(PixelOutOfRange(x0, y0)))
    else
      var wanted := Min(n, Height - y0);
      var available := MemorySize - i;
      var c := RowsDrawn(f, x0, y0, mem[i..i + Min(wanted, available)]);
      Drawn(c.frame, c.collision, if wanted > available then Some(MemoryOutOfRange(i + available)) else None)
  }

  /** The sprite's start coordinate on an axis of size `size`, from register value `r`:
      `r % size` in `CPU` (Java's `%`, negative for a negative `r`), `(r & 0xFF) % size` in
      `Interpreter`. */
  function Origin(rev: Revision, r: int32, size: int): (o: int)
    requires size > 0
    ensures -size < o < size
    ensures rev == CpuRevision ==> (r - o) % size == 0 && (r >= 0 ==> o == r % size) && (r < 0 ==> o <= 0)
    ensures rev == InterpreterRevision ==> o == (r % 0x100) % size
  {
    match rev
    case CpuRevision => JavaRem(r, size)
    case InterpreterRevision => JavaRem(LowByte(r), size)
  }

  /** `Dxyn`: `VF := 0`, then the draw, then `VF := 1` if a collision occurred. */
  function ExecuteDraw(rev: Revision, m: Machine, mem: seq<byte>, ins: Instruction): (o: Outcome)
    requires Wellformed(m) && |mem| == MemorySize
    ensures o.m.pc == m.pc && o.m.i == m.i && |o.m.v| == 16
    ensures o.m.v[FlagRegister] == 0 || o.m.v[FlagRegister] == 1
    ensures forall r :: 0 <= r < 16 && r != FlagRegister ==> o.m.v[r] == m.v[r]
  {
    var x0 := Origin(rev, m.v[ins.X()], Width);
    var y0 := Origin(rev, m.v[ins.Y()], Height);
    var d := SpriteDrawn(m.frame, mem, m.i, x0, y0, ins.N());
    Outcome(m.(v := m.v[FlagRegister := if d.collision then 1 else 0], frame := d.frame), d.fault)
  }

  // ---------------------------------------------------------------- execute

  /** Whether a `0x0...` instruction clears the screen: `CPU` tests the low byte only
      (`getNN() == 0x00E0`); `Interpreter` tests the whole word (`opCode == 0x00E0`). */
  predicate ClearSelected(rev: Revision, ins: Instruction)
    ensures ClearSelected(rev, ins) ==> ins.NN() == 0xE0
  {
    match rev
    case CpuRevision => ins.NN() == 0xE0
    case InterpreterRevision => ins.word == 0x00E0
  }

  /** `executeInstruction` / the `switch` of `runCycle`: dispatch on the opcode nibble.
      Only `0`, `1`, `6`, `7`, `A` and `D` do anything; every other nibble leaves the state as it is. */
  function Execute(rev: Revision, m: Machine, mem: seq<byte>, ins: Instruction): (o: Outcome)
    requires Wellformed(m) && |mem| == MemorySize
    ensures Wellformed(o.m)
  {
    match ins.OpCode()
    case 0x0 => Outcome(if ClearSelected(rev, ins) then m.(frame := Blank()) else m, None)
    case 0x1 => Outcome(m.(pc := ins.NNN()), None)
    case 0x6 => Outcome(m.(v := m.v[ins.X() := ins.NN()]), None)
    // No 8-bit wrap: the register is a Java `int` and only Java's 32-bit overflow applies.
    case 0x7 => Outcome(m.(v := m.v[ins.X() := Wrap32(m.v[ins.X()] + ins.NN())]), None)
    case 0xA => Outcome(m.(i := ins.NNN()), None)
    case 0xD => ExecuteDraw(rev, m, mem, ins)
    case _ => Outcome(m, None)
  }

  /** One cycle: fetch at `pc`, then execute. */
  function Step(rev: Revision, m: Machine, mem: seq<byte>): (o: Outcome)
    requires Wellformed(m) && |mem| == MemorySize
    ensures Wellformed(o.m)
  {
    match Fetch(m, mem)
    case FetchFault(f) => Outcome(m, Some(f))
    case Fetched(ins, next) => Execute(rev, next, mem, ins)
  }

  /** `runFixedCycles(n)`: `n` cycles while `n > 0`, ended early by an exception. */
  function Run(rev: Revision, m: Machine, mem: seq<byte>, n: int): (o: Outcome)
    requires Wellformed(m) && |mem| == MemorySize
    ensures Wellformed(o.m)
    decreases n
  {
    if n <= 0 then Outcome(m, None)
    else
      var o := Step(rev, m, mem);
      if o.fault.Some? then o else Run(rev, o.m, mem, n - 1)
  }
}
