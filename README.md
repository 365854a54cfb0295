# CHIP-8 interpreter core, modelled in Dafny

This project models the instruction interpreter of a Java CHIP-8 emulator. One cycle fetches a
big-endian 16-bit word at the program counter, advances the program counter by 2, decodes the
word and executes it. The state is sixteen registers `V0..VF`, the index register `I`, the
program counter (initially `0x200`), a 4096-byte memory and a 64x32 boolean framebuffer.

The engine exists in two revisions. `CPU` (`cpu/CPU.java`) works over a caller-supplied memory
and screen and decodes through `Instruction`. The older `Interpreter` (`Interpreter.java`) owns
its display and decodes the nibbles inline. Both implement only `00E0`, `1nnn`, `6xkk`, `7xkk`,
`Annn` and `Dxyn`. Every other opcode nibble only advances the program counter.

Layout:

- `JavaInt.dfy`: Java `int` (32-bit wrap-around), Java `byte`, Java's truncating `%`, and an
  `Option` type.
- `Instruction.dfy`: the decoder (`Instructions.Instruction`) and the laws that tie its fields
  together.
- `Screen.dfy`: the framebuffer class `Screens.Screen`, over an array of row arrays, as in Java's
  `boolean[32][64]`.
- `Semantics.dfy`: one cycle and a fixed-cycle run as functions on a `Machine` value. A
  `Revision` parameter selects `CPU` or `Interpreter` where the two differ.
- `DrawLoop.dfy`: the nested `Dxyn` loops with their `break`s, as methods over the screen,
  memory and register arrays.
- `Cpu.dfy`, `Interpreter.dfy`, `Chip8Emulator.dfy`: the three classes. Each method is proved
  equal to the functions of `Semantics`.
- `DrawProperties.dfy`: the draw in closed form (per-pixel rule, clipping, collision flag).
- `CycleProperties.dfy`: per-opcode statements about one cycle, the differences between the two
  revisions, the draw test as a lemma, and how fixed-cycle runs compose.

Exceptions are modelled as values. A memory index out of range (`Memory.getByte`) or a pixel
index off the screen (`getPixel`/`setPixel`) yields a `Fault`. The state is kept as it was at
the moment of the throw. For example, a draw that runs past the end of memory keeps the rows it
already drew.

Where the code and the CHIP-8 design disagree, the model follows the code:

- `7xkk` adds in a Java `int` and does not wrap to 8 bits. `0xFF + 0x01` leaves `0x100` in the
  register (`Semantics.Execute`, `CycleProperties.StepAddRegister`).
- The draw writes `!previous && bit`, not `previous XOR bit`. A lit pixel under a clear sprite
  bit is switched off (`DrawProperties.ClearBitTurnsPixelOff`). The collision flag is still
  "some covered pixel was lit under a set bit".
- Unimplemented opcodes are silent no-ops, not errors.
- `CPU` clears the screen for any `0x0?E0` word, because it tests only the low byte. `Interpreter`
  clears only for the word `0x00E0` (`CycleProperties.StepClear`, `RevisionsAgree`).
- `CPU` takes the sprite corner as `Vx % 64` and `Vy % 32` with Java's `%`, whose remainder
  takes the sign of `Vx`. A negative `Vx` that is not a multiple of 64 therefore gives a
  negative corner, and a draw of `n > 0` rows throws at its first pixel
  (`CycleProperties.CpuNegativeCoordinateFaults`). A multiple of 64 such as `-64` gives corner 0,
  and a `Dxy0` touches no pixel at all. A register only becomes negative after `7xkk` additions
  carry it past `2^31 - 1`. `Interpreter` masks with `& 0xFF` first, so its corner is always on
  the screen.
- `Screen.equals` compares the row arrays by reference (`Arrays.equals` on `boolean[][]`). Two
  screens with equal contents are in general not equal (`Screens.FreshScreensDiffer`). `hashCode`
  is a deep hash of the contents.
- `Chip8Emulator.runFixedCycles` calls `cpu.executeInstructionFromMemory()`. In `CPU.java`
  that step is named `executeCycle`, and the model uses `ExecuteCycle`.

## Model

| member | source | states |
|---|---|---|
| `Instructions.Instruction.OpCode` | src/main/java/com/lujon/chip8/cpu/Instruction.java:11-13 | the opcode nibble lies in 0..15 |
| `Instructions.Instruction.X` | src/main/java/com/lujon/chip8/cpu/Instruction.java:15-17 | `X` lies in 0..15 |
| `Instructions.Instruction.Y` | src/main/java/com/lujon/chip8/cpu/Instruction.java:19-21 | `Y` lies in 0..15 |
| `Instructions.Instruction.N` | src/main/java/com/lujon/chip8/cpu/Instruction.java:23-25 | `N` lies in 0..15 |
| `Instructions.Instruction.NN` | src/main/java/com/lujon/chip8/cpu/Instruction.java:27-29 | `NN` lies in 0..255 |
| `Instructions.Instruction.NNN` | src/main/java/com/lujon/chip8/cpu/Instruction.java:31-33 | `NNN` lies in 0..4095 |
| `Instructions.Recompose` | src/main/java/com/lujon/chip8/cpu/Instruction.java:11-33 | `NN == Y*16 + N`, `NNN == X*256 + NN`, and `opcode*4096 + NNN` is the low 16 bits of the word |
| `Instructions.DependsOnLow16` | src/main/java/com/lujon/chip8/cpu/Instruction.java:11-33 | two words with the same low 16 bits decode to the same six fields |
| `Instructions.DecodeAssemble` | src/main/java/com/lujon/chip8/cpu/Instruction.java:11-33 | decoding the word built from opcode, `X` and `NN` gives those parts back, with `Y` and `N` the nibbles of `NN` |
| `Instructions.AssembleDecode` | src/main/java/com/lujon/chip8/cpu/Instruction.java:11-33 | building a word from the decoded opcode, `X` and `NN` gives the low 16 bits of the original word |
| `Screens.Blank` | src/main/java/com/lujon/chip8/screen/Screen.java:16 | a new 32-row, 64-column frame has every pixel off |
| `Screens.PlotThenGet` | src/main/java/com/lujon/chip8/screen/Screen.java:26-32 | after setting `(x, y)` to `b`, that pixel reads `b` and every other pixel reads as before; rows are indexed by `y` |
| `Screens.NewPixels` | src/main/java/com/lujon/chip8/screen/Screen.java:16 | `new boolean[32][64]`: fresh, pairwise distinct rows of 64 pixels, all off |
| `Screens.Screen.constructor` | src/main/java/com/lujon/chip8/screen/Screen.java:16 | a new screen is valid and blank |
| `Screens.Screen.GetWidth` | src/main/java/com/lujon/chip8/screen/Screen.java:18-20 | the width is 64 |
| `Screens.Screen.GetHeight` | src/main/java/com/lujon/chip8/screen/Screen.java:22-24 | the height is 32 |
| `Screens.Screen.GetPixel` | src/main/java/com/lujon/chip8/screen/Screen.java:26-28 | returns the pixel at column `x`, row `y` exactly when `0 <= x < 64` and `0 <= y < 32`, and the index error otherwise |
| `Screens.Screen.SetPixel` | src/main/java/com/lujon/chip8/screen/Screen.java:30-32 | in range, the contents become the old contents with `(x, y)` set; out of range it fails and nothing changes |
| `Screens.Screen.Clear` | src/main/java/com/lujon/chip8/screen/Screen.java:34-36 | afterwards every pixel is off, whatever the screen held, so clearing twice is clearing once |
| `Screens.Screen.Contents` | src/main/java/com/lujon/chip8/screen/Screen.java:16 | the rows read from the pixel table are the screen's contents |
| `Screens.Screen.HashCode` | src/main/java/com/lujon/chip8/screen/Screen.java:81-84 | the hash is `Arrays.deepHashCode` of the contents (32-bit wrap-around included) |
| `Screens.Screen.Equals` | src/main/java/com/lujon/chip8/screen/Screen.java:69-79 | `equals` holds exactly for the same object or a screen whose row table holds the same row objects (`SameRows`); so it is reflexive, and equal screens have equal contents |
| `Screens.SharedRowsSameGrid` | src/main/java/com/lujon/chip8/screen/Screen.java:78 | screens whose row tables hold the same row objects have the same contents |
| `Screens.EqualScreensHashAlike` | src/main/java/com/lujon/chip8/screen/Screen.java:69-84 | screens that `equals` relates have the same `hashCode` |
| `Screens.SameContentsHashAlike` | src/main/java/com/lujon/chip8/screen/Screen.java:81-84 | the hash depends on the pixel contents only |
| `Screens.FreshScreensDiffer` | src/main/java/com/lujon/chip8/screen/Screen.java:69-79 | two new blank screens have the same contents but `equals` is false, because rows are compared by reference |
| `Semantics.Initial` | src/main/java/com/lujon/chip8/cpu/CPU.java:8-19 | a new engine has all registers 0, `I = 0`, `pc = 0x200` and the given screen |
| `Semantics.FetchWord` | src/main/java/com/lujon/chip8/cpu/CPU.java:27 | the fetched word lies within 16 signed bits, its low 16 bits are `hi * 256 + lo`, and it equals `hi * 256 + lo` when the high byte is below `0x80` |
| `Semantics.Fetch` | src/main/java/com/lujon/chip8/cpu/CPU.java:26-30 | the fetch fails exactly when `pc` or `pc + 1` is outside memory; otherwise only `pc` changes, to `pc + 2`, and the word's low 16 bits are `mem[pc] * 256 + mem[pc + 1]` |
| `Semantics.SpriteBits` | src/main/java/com/lujon/chip8/cpu/CPU.java:76-85 | a sprite row has 8 bits (their values are stated by `DrawProperties.BitsAreMaskTests`) |
| `Semantics.RowDrawn` | src/main/java/com/lujon/chip8/cpu/CPU.java:89-104 | the column loop keeps a 64x32 frame (its effect is stated by `DrawProperties.RowDrawnPixels` and `RowDrawnCollision`) |
| `Semantics.RowsDrawn` | src/main/java/com/lujon/chip8/cpu/CPU.java:73-109 | the row loop keeps a 64x32 frame (its effect is stated by `DrawProperties.RowsDrawnPixels` and `RowsDrawnCollision`) |
| `Semantics.SpriteDrawn` | src/main/java/com/lujon/chip8/cpu/CPU.java:73-109 | a whole draw keeps a 64x32 frame (its effect is stated by `DrawProperties.SpriteDrawnPixels`) |
| `Semantics.ExecuteDraw` | src/main/java/com/lujon/chip8/cpu/CPU.java:67-111 | `Dxyn` leaves `pc`, `I` and every register but `VF` unchanged, and leaves `VF` at 0 or 1 |
| `Semantics.ClearSelected` | src/main/java/com/lujon/chip8/cpu/CPU.java:34-38 | a word selected for clearing has low byte `E0` in both revisions, so every word `Interpreter` clears on, `CPU` clears on too |
| `Screens.Plot` | src/main/java/com/lujon/chip8/screen/Screen.java:30-32 | plotting keeps a 64x32 frame and the plotted pixel holds the new value (the rest is `Screens.PlotThenGet`) |
| `Screens.RowHash` | src/main/java/com/lujon/chip8/screen/Screen.java:81-84 | no contract of its own: `Arrays.hashCode` of a row, the `31 * h + (b ? 1231 : 1237)` fold in 32-bit `int` |
| `Screens.FrameHash` | src/main/java/com/lujon/chip8/screen/Screen.java:81-84 | no contract of its own: `Arrays.deepHashCode`, the `31 * h + rowHash` fold in 32-bit `int`; see `Screens.FrameHashByRows` |
| `Screens.FrameHashByRows` | src/main/java/com/lujon/chip8/screen/Screen.java:81-84 | frames with pairwise equal row hashes have equal deep hashes |
| `Screens.SameRows` | src/main/java/com/lujon/chip8/screen/Screen.java:78 | `Arrays.equals` on row tables holds only for tables of equal length whose rows are the same objects, position by position |
| `JavaInt.Wrap32` | src/main/java/com/lujon/chip8/cpu/CPU.java:54 | Java's `int` addition: the result differs from the exact sum by a multiple of `2^32`, and equals it when the sum fits in 32 signed bits |
| `JavaInt.JavaRem` | src/main/java/com/lujon/chip8/cpu/CPU.java:68-69 | Java's `%` by a positive divisor: strictly between `-b` and `b`, congruent to `a` modulo `b` (`(a - r) % b == 0`), the Euclidean remainder for `a >= 0`, and never positive for `a < 0` |
| `JavaInt.LowByte` | src/main/java/com/lujon/chip8/Interpreter.java:71-72 | `x & 0xFF` is a value in 0..255 that differs from `x` by a multiple of 256 |
| `JavaInt.SignedByte` | src/main/java/com/lujon/chip8/cpu/CPU.java:27 | the value Java reads from a `byte` lies in -128..127 and has the stored 8-bit pattern |
| `Semantics.Origin` | src/main/java/com/lujon/chip8/cpu/CPU.java:68-69 | the sprite corner on an axis of size `s` lies strictly between `-s` and `s`; in `CPU` it is congruent to the register `r` modulo `s`, equals `r % s` for `r >= 0` and is never positive for `r < 0`; in `Interpreter` it is exactly `(r % 256) % s` |
| `Semantics.Cols` | src/main/java/com/lujon/chip8/cpu/CPU.java:89-104 | a sprite row touches between 1 and 8 columns and never passes column 63 |
| `Semantics.Execute` | src/main/java/com/lujon/chip8/cpu/CPU.java:32-119 | executing any instruction keeps the state well-formed: 16 registers, `I` and `pc` in range, a 64x32 frame |
| `Semantics.Step` | src/main/java/com/lujon/chip8/cpu/CPU.java:21-24 | one cycle keeps the state well-formed |
| `Semantics.Run` | src/main/java/com/lujon/chip8/Chip8Emulator.java:18-23 | a run of any number of cycles keeps the state well-formed |
| `DrawLoop.Draw` | src/main/java/com/lujon/chip8/cpu/CPU.java:71-109 | `VF := 0`, the sprite loop, `VF := 1` on collision: the new frame, `VF` and fault are those of `SpriteDrawn`; no other register changes |
| `DrawLoop.DrawSprite` | src/main/java/com/lujon/chip8/cpu/CPU.java:73-109 | the row loop, with its memory read per row and its `break` after the last screen row, gives exactly the frame, collision flag and fault of `SpriteDrawn` |
| `DrawLoop.DrawSpriteRow` | src/main/java/com/lujon/chip8/cpu/CPU.java:87-104 | the column loop, with its `break` after the last screen column, gives the frame and collision of `RowDrawn`; a negative corner throws at once and changes nothing |
| `DrawLoop.RowsDrawnStep` | src/main/java/com/lujon/chip8/cpu/CPU.java:73-109 | drawing `k + 1` rows is drawing `k` rows and then row `k` |
| `DrawLoop.SpriteRunsOutOfMemory` | src/main/java/com/lujon/chip8/cpu/CPU.java:74 | a sprite that reaches the end of memory after `k` rows throws there and keeps the `k` rows drawn |
| `DrawLoop.SpriteCompletes` | src/main/java/com/lujon/chip8/cpu/CPU.java:73-108 | a row loop that stops after all `n` rows or at the last screen row ends without an exception |
| `Cpu.Cpu.constructor` | src/main/java/com/lujon/chip8/cpu/CPU.java:8-19 | the engine keeps the caller's memory and screen; registers 0, `I = 0`, `pc = 0x200` |
| `Cpu.Cpu.FetchInstruction` | src/main/java/com/lujon/chip8/cpu/CPU.java:26-30 | returns the big-endian word at `pc` and advances `pc` by 2, or throws on the first address out of range with `pc` unchanged |
| `Cpu.Cpu.ExecuteInstruction` | src/main/java/com/lujon/chip8/cpu/CPU.java:32-119 | the new registers, `I`, `pc`, screen and fault are those of `Execute` for the `CPU` revision |
| `Cpu.Cpu.ExecuteCycle` | src/main/java/com/lujon/chip8/cpu/CPU.java:21-24 | the new state and fault are those of one `Step` of the `CPU` revision |
| `Interpreters.Interpreter.constructor` | src/main/java/com/lujon/chip8/Interpreter.java:8-18 | the engine owns a new blank display; registers 0, `I = 0`, `pc = 0x200` |
| `Interpreters.Interpreter.RunFixedCycles` | src/main/java/com/lujon/chip8/Interpreter.java:20-25 | the new state and fault are those of `Run` for `numCycles` cycles; with `numCycles <= 0` nothing changes |
| `Interpreters.Interpreter.RunCycle` | src/main/java/com/lujon/chip8/Interpreter.java:27-122 | the new state and fault are those of one `Step` of the `Interpreter` revision |
| `Interpreters.Interpreter.Dispatch` | src/main/java/com/lujon/chip8/Interpreter.java:30-121 | the new state and fault are those of `Execute` for the `Interpreter` revision on the fetched word |
| `Interpreters.Interpreter.FetchInstruction` | src/main/java/com/lujon/chip8/Interpreter.java:124-128 | returns the sign-extended big-endian word at `pc` and advances `pc` by 2, or throws with `pc` unchanged |
| `Interpreters.Interpreter.GetDisplay` | src/main/java/com/lujon/chip8/Interpreter.java:131-133 | returns the engine's own display |
| `Emulator.Chip8Emulator.constructor` | src/main/java/com/lujon/chip8/Chip8Emulator.java:14-16 | a new `CPU` over the caller's memory and screen, so draws are seen through the caller's screen |
| `Emulator.Chip8Emulator.RunFixedCycles` | src/main/java/com/lujon/chip8/Chip8Emulator.java:18-23 | the new state and fault are those of `Run` of the `CPU` revision for `numCycles` cycles; with `numCycles <= 0` nothing changes |
| `DrawProperties.RowDrawnPixels` | src/main/java/com/lujon/chip8/cpu/CPU.java:89-104 | after `k` columns of a row, each covered pixel is `!previous && bit` and every other pixel is unchanged |
| `DrawProperties.RowDrawnCollision` | src/main/java/com/lujon/chip8/cpu/CPU.java:92-99 | a row collides if and only if some covered pixel was lit under a set bit |
| `DrawProperties.RowsDrawnPixels` | src/main/java/com/lujon/chip8/cpu/CPU.java:73-109 | after the sprite rows, each pixel of the clipped rectangle is `!previous && bit` (bits MSB first) and every other pixel is unchanged |
| `DrawProperties.RowsDrawnCollision` | src/main/java/com/lujon/chip8/cpu/CPU.java:97-99 | the sprite collides if and only if some covered pixel was lit under a set bit |
| `DrawProperties.CollisionHasWitness` | src/main/java/com/lujon/chip8/cpu/CPU.java:97-99 | a collision has a covered pixel that was lit under a set bit |
| `DrawProperties.WitnessCollides` | src/main/java/com/lujon/chip8/cpu/CPU.java:97-99 | a covered pixel lit under a set bit makes the sprite collide |
| `DrawProperties.WitnessInLastRowCollides` | src/main/java/com/lujon/chip8/cpu/CPU.java:97-99 | such a pixel in the last sprite row makes the sprite collide |
| `DrawProperties.RowsDrawnPixelOutside` | src/main/java/com/lujon/chip8/cpu/CPU.java:87-108 | a pixel outside the rows drawn keeps its value |
| `DrawProperties.SpriteDrawnPixels` | src/main/java/com/lujon/chip8/cpu/CPU.java:67-111 | a whole draw: only columns `x0..min(x0+7, 63)` of rows `y0..min(y0+n-1, 31)` (and within memory) change, each to `!previous && bit`; `VF` is 1 if and only if one of them was lit under a set bit; the fault is the first out-of-range access |
| `DrawProperties.DrawnTwice` | src/main/java/com/lujon/chip8/cpu/CPU.java:67-111 | the same sprite drawn twice leaves a covered pixel lit only where it was lit and the bit is set, and the second draw collides exactly where the first left a pixel lit |
| `DrawProperties.ClearBitTurnsPixelOff` | src/main/java/com/lujon/chip8/cpu/CPU.java:95 | a covered pixel under a clear bit ends off, so a lit one does not keep its value as XOR would require |
| `DrawProperties.BitsAreMaskTests` | src/main/java/com/lujon/chip8/cpu/CPU.java:76-85 | the eight sprite bits are the mask tests `0x80` down to `0x01`, most significant first |
| `DrawProperties.MaskTest` | src/main/java/com/lujon/chip8/cpu/CPU.java:76-85 | bit `c` of a sprite row is set exactly when `(sprite / 2^(7 - c)) % 2 == 1`, that is when the mask `0x80 >> c` hits |
| `DrawProperties.SpriteDrawnFrame` | src/main/java/com/lujon/chip8/cpu/CPU.java:73-109 | the frame part of `SpriteDrawnPixels`: only covered pixels of painted rows change, each to `!previous && bit` |
| `DrawProperties.SpriteDrawnCollision` | src/main/java/com/lujon/chip8/cpu/CPU.java:97-99 | the collision part of `SpriteDrawnPixels`: the draw collides exactly when a covered pixel was lit under a set bit |
| `DrawProperties.SpriteBitsByHalving` | src/main/java/com/lujon/chip8/cpu/CPU.java:76-85 | bit `c` of a sprite row is the last bit of the byte halved `7 - c` times |
| `CycleProperties.DecodeBytes` | src/main/java/com/lujon/chip8/cpu/CPU.java:27 | the sign-extended fetched word decodes like `hi*256 + lo`, and its fields are the nibbles and bytes of `hi` and `lo` |
| `CycleProperties.FetchBigEndian` | src/main/java/com/lujon/chip8/cpu/CPU.java:26-30 | the fetch fails exactly when `pc + 1` is past memory; otherwise it decodes the big-endian word at `pc` and only `pc` changes, by exactly 2 |
| `CycleProperties.StepFetchFault` | src/main/java/com/lujon/chip8/cpu/CPU.java:26-30 | a cycle that reads past the end of memory throws and changes nothing |
| `CycleProperties.StepClear` | src/main/java/com/lujon/chip8/cpu/CPU.java:34-38 | `CPU` clears for any `0x0?E0` word, `Interpreter` only for `0x00E0`; otherwise only `pc` advances |
| `CycleProperties.StepJump` | src/main/java/com/lujon/chip8/cpu/CPU.java:39-41 | `1nnn` sets `pc` to exactly `nnn`, whatever it held; nothing else changes |
| `CycleProperties.StepSetRegister` | src/main/java/com/lujon/chip8/cpu/CPU.java:50-52 | `6xkk` sets register `x` to `kk` and changes no other register |
| `CycleProperties.StepAddRegister` | src/main/java/com/lujon/chip8/cpu/CPU.java:53-55 | `7xkk` adds `kk` as a Java `int`; a register holding a byte holds the plain sum, up to `0x1FE`, not wrapped to 8 bits |
| `CycleProperties.StepSetIndex` | src/main/java/com/lujon/chip8/cpu/CPU.java:60-62 | `Annn` sets `I` to `nnn`; only `I` and `pc` change |
| `CycleProperties.StepUnimplemented` | src/main/java/com/lujon/chip8/cpu/CPU.java:42-49 | nibbles 2, 3, 4, 5, 8, 9, B, C, E and F only advance `pc` by 2 |
| `CycleProperties.StepDraw` | src/main/java/com/lujon/chip8/cpu/CPU.java:67-111 | `Dxyn` draws `n` rows from `I` at the corner taken from `Vx`, `Vy`, with `VF` set to the collision flag |
| `CycleProperties.CpuNegativeCoordinateFaults` | src/main/java/com/lujon/chip8/cpu/CPU.java:68-92 | in `CPU` a negative `Vx` that is not a multiple of 64 makes a non-empty draw throw at the first pixel, leaving `VF = 0` and the screen unchanged |
| `CycleProperties.InterpreterNeverPixelFaults` | src/main/java/com/lujon/chip8/Interpreter.java:71-72 | in `Interpreter` a draw never throws on a pixel, only at the end of memory |
| `CycleProperties.OriginsAgree` | src/main/java/com/lujon/chip8/Interpreter.java:71-72 | on a register holding a byte, the two revisions compute the same sprite corner |
| `CycleProperties.OriginsAgreeNonNegative` | src/main/java/com/lujon/chip8/Interpreter.java:71-72 | on any non-negative register, masking with `0xFF` before `% 64` or `% 32` changes nothing |
| `CycleProperties.RevisionsAgree` | src/main/java/com/lujon/chip8/Interpreter.java:37-41 | the revisions execute alike exactly unless the word is a `0x0?E0` other than `0x00E0` on a non-blank screen (draws with negative registers aside) |
| `CycleProperties.SetThenAdd` | src/main/java/com/lujon/chip8/cpu/CPU.java:50-55 | `6A0F` then `7AF0` leaves `0xFF` in `VA` |
| `CycleProperties.SolidRow` | src/main/java/com/lujon/chip8/cpu/CPU.java:76-85 | the byte `0xFF` is a sprite row with all eight bits set |
| `CycleProperties.SolidSpriteLights` | src/main/java/com/lujon/chip8/cpu/CPU.java:73-109 | a solid 8x8 sprite drawn on an unlit rectangle lights exactly that rectangle, without a collision or a fault |
| `CycleProperties.SolidSpriteClears` | src/main/java/com/lujon/chip8/cpu/CPU.java:73-109 | a solid 8x8 sprite drawn on a lit rectangle turns exactly that rectangle off, with a collision and no fault |
| `CycleProperties.SolidSpriteOnOff` | src/main/java/com/lujon/chip8/cpu/CPU.java:73-109 | a solid 8x8 sprite drawn on an unlit rectangle lights it without collision; drawn again it restores the frame with a collision |
| `CycleProperties.SolidSpriteDrawnTwice` | src/main/java/com/lujon/chip8/cpu/CPU.java:67-111 | `Dxy8` of a solid sprite twice: first `VF = 0` and the rectangle lit, then `VF = 1` and the original frame back |
| `CycleProperties.ExecuteIsDraw` | src/main/java/com/lujon/chip8/cpu/CPU.java:67 | a `Dxyn` word executes as the draw |
| `CycleProperties.RunSplit` | src/main/java/com/lujon/chip8/Chip8Emulator.java:18-23 | running `a + b` cycles is running `a`, then, unless it threw, running `b` |
| `CycleProperties.RunNothing` | src/main/java/com/lujon/chip8/Chip8Emulator.java:19 | a run of `n <= 0` cycles changes nothing |
| `CycleProperties.StraightLineRun` | src/main/java/com/lujon/chip8/Interpreter.java:20-25 | `n` cycles over `6`, `7` and `A` instructions do not throw, advance `pc` by exactly `2n` and leave the screen alone |

## Left out

- `Screen.show`: Swing windowing and image scaling are presentation, not interpreter logic.
- The `main` methods of `Interpreter` and `Chip8Emulator`: loading a ROM from a class-path
  resource is I/O.
- `Instruction.toString`: hexadecimal formatting through the Java library.
- `Memory` and `Display` are not part of this model. Memory is a 4096-byte array whose reads
  fail outside `0..4095`, and the engine only reads it. `Display` is taken to behave like
  `Screen`.
- The regression tests that run the IBM logo ROM for 20 cycles need the ROM file. The model
  states instead that a run of `n` cycles is `n` single steps (`CycleProperties.RunSplit`).
- The `8xy_`, `Fx__`, `2nnn`/`00EE`, skip, `Bnnn` and `Cxkk` opcodes are only exercised by tests
  for a later revision. They are not in the engine code modelled here, so they are not modelled.
- Java's `int` width is modelled for registers and hashes. `pc` and `I` are unbounded integers,
  because they stay within `0..4096` in every reachable state.
- `Semantics.Execute`: its own contract states only that the state stays well-formed. What each
  opcode does is stated by the `CycleProperties.Step*` lemmas.
- `Semantics.Step`: its own contract states only that the state stays well-formed. Fetch and
  execute are stated by `CycleProperties.FetchBigEndian` and the `CycleProperties.Step*` lemmas.
- `Semantics.Run`: its own contract states only that the state stays well-formed. How runs compose
  is stated by `CycleProperties.RunSplit` and `CycleProperties.RunNothing`.
- `Semantics.RowDrawn`: its own contract states only that the frame stays 64x32. The effect is
  stated by `DrawProperties.RowDrawnPixels` and `DrawProperties.RowDrawnCollision`.
- `Semantics.RowsDrawn`: its own contract states only that the frame stays 64x32. The effect is
  stated by `DrawProperties.RowsDrawnPixels` and `DrawProperties.RowsDrawnCollision`.
- `Semantics.SpriteDrawn`: its own contract states only that the frame stays 64x32. The effect is
  stated by `DrawProperties.SpriteDrawnPixels`.
- `Semantics.SpriteBits`: its own contract states only the length 8. The bit values are stated by
  `DrawProperties.BitsAreMaskTests`.
- `Semantics.ExecuteDraw`: its own contract states only that `pc`, `I` and every register but `VF`
  stay, and that `VF` is 0 or 1. The new frame, `VF` as the collision flag and the fault are
  stated by `CycleProperties.StepDraw`, `CycleProperties.ExecuteIsDraw` and
  `DrawProperties.SpriteDrawnPixels`.
- `Screens.Screen.Equals`: its argument is a `Screen` or null, so Java's branch where an object of
  another class gives `false` (`getClass() != o.getClass()`) is not modelled.
- `Screens.RowHash`: no contract of its own; it is the `Arrays.hashCode` fold.
- `Screens.FrameHash`: no contract of its own; it is the `Arrays.deepHashCode` fold, and
  `Screens.FrameHashByRows` and `Screens.Screen.HashCode` state what is proved about it.
