/** What one cycle does, stated on the two instruction bytes in memory at `pc`, for both
    engine revisions; how the revisions differ; and how runs of cycles compose. */
module CycleProperties {
  import opened JavaInt
  import opened Wrappers
  import opened Instructions
  import opened Screens
  import opened Semantics
  import opened DrawProperties

  // ---------------------------------------------------------------- fetch and decode

  /** The fetched word decodes like the unsigned big-endian `hi * 0x100 + lo` (the sign
      extension of `hi` only touches bits above 15), and its fields are the nibbles and bytes
      of `hi` and `lo`. */
  lemma {:induction false} DecodeBytes(hi: byte, lo: byte)
    ensures SameFields(Instruction(FetchWord(hi, lo)), Instruction((hi as int) * 0x100 + lo))
    ensures var ins := Instruction(FetchWord(hi, lo));
      && ins.OpCode() == hi / 0x10 && ins.X() == hi % 0x10
      && ins.Y() == lo / 0x10 && ins.N() == lo % 0x10
      && ins.NN() == lo && ins.NNN() == ((hi as int) % 0x10) * 0x100 + lo
  {
    var w := FetchWord(hi, lo);
    var u := (hi as int) * 0x100 + lo;
    if hi < 0x80 {
      assert w == u;
    } else {
      assert w == 0x1_0000 * -1 + u;
      DivModUnique(w, 0x1_0000, -1, u);
    }
    DivModUnique(u, 0x1_0000, 0, u);
    DependsOnLow16(Instruction(w), Instruction(u));
    assert u == Assemble(hi / 0x10, hi % 0x10, lo);
    DecodeAssemble(hi / 0x10, hi % 0x10, lo);
    Recompose(Instruction(u));
  }

  /** `fetchInstruction`: an out-of-range read throws at the first missing address; otherwise
      the instruction is the big-endian word at `pc`, `pc` advances by exactly 2 and nothing
      else changes. */
  lemma FetchBigEndian(m: Machine, mem: seq<byte>)
    requires Wellformed(m) && |mem| == MemorySize
    ensures Fetch(m, mem).FetchFault? <==> m.pc + 1 >= MemorySize
    ensures m.pc == MemorySize ==> Fetch(m, mem) == FetchFault(MemoryOutOfRange(MemorySize))
    ensures m.pc == MemorySize - 1 ==> Fetch(m, mem) == FetchFault(MemoryOutOfRange(MemorySize))
    ensures m.pc + 1 < MemorySize ==>
      && Fetch(m, mem).next == m.(pc := m.pc + 2)
      && SameFields(Fetch(m, mem).ins, Instruction((mem[m.pc] as int) * 0x100 + mem[m.pc + 1]))
  {
    if m.pc + 1 < MemorySize {
      DecodeBytes(mem[m.pc], mem[m.pc + 1]);
    }
  }

  // ---------------------------------------------------------------- one cycle per opcode

  /** The state after the fetch of a cycle that reads its two bytes from memory. */
  function Advanced(m: Machine): (n: Machine)
    ensures n.v == m.v && n.i == m.i && n.frame == m.frame && n.pc == m.pc + 2
  {
    m.(pc := m.pc + 2)
  }

  /** A cycle whose fetch reads past the end of memory throws and changes nothing. */
  lemma StepFetchFault(rev: Revision, m: Machine, mem: seq<byte>)
    requires Wellformed(m) && |mem| == MemorySize && m.pc + 1 >= MemorySize
    ensures Step(rev, m, mem) == Outcome(m, Some(MemoryOutOfRange(MemorySize)))
  {
  }

  /** `0x0...`: `CPU` clears the screen whenever the low byte is `E0` (so `0x0?E0` all clear),
      `Interpreter` only for the word `0x00E0`; every other `0x0...` word only advances `pc`. */
  lemma StepClear(m: Machine, mem: seq<byte>)
    requires Wellformed(m) && |mem| == MemorySize && m.pc + 1 < MemorySize
    requires mem[m.pc] / 0x10 == 0x0
    ensures Step(CpuRevision, m, mem)
         == Outcome(Advanced(m).(frame := if mem[m.pc + 1] == 0xE0 then Blank() else m.frame), None)
    ensures Step(InterpreterRevision, m, mem)
         == Outcome(Advanced(m).(frame := if mem[m.pc] == 0 && mem[m.pc + 1] == 0xE0 then Blank() else m.frame), None)
  {
    DecodeBytes(mem[m.pc], mem[m.pc + 1]);
  }

  /** `1nnn`: `pc` becomes `nnn`, whatever it was; nothing else changes. */
  lemma StepJump(rev: Revision, m: Machine, mem: seq<byte>)
    requires Wellformed(m) && |mem| == MemorySize && m.pc + 1 < MemorySize
    requires mem[m.pc] / 0x10 == 0x1
    ensures Step(rev, m, mem) == Outcome(m.(pc := ((mem[m.pc] as int) % 0x10) * 0x100 + mem[m.pc + 1]), None)
  {
    DecodeBytes(mem[m.pc], mem[m.pc + 1]);
  }

  /** `6xkk`: register `x` becomes `kk`; no other register, nor `I` nor the screen, changes. */
  lemma StepSetRegister(rev: Revision, m: Machine, mem: seq<byte>)
    requires Wellformed(m) && |mem| == MemorySize && m.pc + 1 < MemorySize
    requires mem[m.pc] / 0x10 == 0x6
    ensures var o := Step(rev, m, mem);
      && o == Outcome(Advanced(m).(v := m.v[mem[m.pc] % 0x10 := mem[m.pc + 1]]), None)
      && (forall r :: 0 <= r < 16 && r != mem[m.pc] % 0x10 ==> o.m.v[r] == m.v[r])
  {
    DecodeBytes(mem[m.pc], mem[m.pc + 1]);
  }

  /** `7xkk`: register `x` gains `kk` as a Java `int`; a register holding a byte value ends
      up holding the plain sum, which is not wrapped to 8 bits and can exceed `0xFF`. */
  lemma StepAddRegister(rev: Revision, m: Machine, mem: seq<byte>)
    requires Wellformed(m) && |mem| == MemorySize && m.pc + 1 < MemorySize
    requires mem[m.pc] / 0x10 == 0x7
    ensures var x := mem[m.pc] % 0x10;
      var o := Step(rev, m, mem);
      && o == Outcome(Advanced(m).(v := m.v[x := Wrap32(m.v[x] + mem[m.pc + 1])]), None)
      && (0 <= m.v[x] < 0x100 ==> o.m.v[x] == m.v[x] + mem[m.pc + 1] < 0x200)
  {
    DecodeBytes(mem[m.pc], mem[m.pc + 1]);
  }

  /** `Annn`: `I` becomes `nnn`; nothing else changes. */
  lemma StepSetIndex(rev: Revision, m: Machine, mem: seq<byte>)
    requires Wellformed(m) && |mem| == MemorySize && m.pc + 1 < MemorySize
    requires mem[m.pc] / 0x10 == 0xA
    ensures Step(rev, m, mem) == Outcome(Advanced(m).(i := ((mem[m.pc] as int) % 0x10) * 0x100 + mem[m.pc + 1]), None)
  {
    DecodeBytes(mem[m.pc], mem[m.pc + 1]);
  }

  /** The opcode nibbles this revision leaves unimplemented. */
  predicate Unimplemented(op: int) {
    op in {0x2, 0x3, 0x4, 0x5, 0x8, 0x9, 0xB, 0xC, 0xE, 0xF}
  }

  /** An unimplemented opcode only advances `pc` past itself. */
  lemma StepUnimplemented(rev: Revision, m: Machine, mem: seq<byte>)
    requires Wellformed(m) && |mem| == MemorySize && m.pc + 1 < MemorySize
    requires Unimplemented(mem[m.pc] / 0x10)
    ensures Step(rev, m, mem) == Outcome(Advanced(m), None)
  {
    DecodeBytes(mem[m.pc], mem[m.pc + 1]);
  }

  /** `Dxyn`: a draw of `n` rows from `I` at the origin of registers `x` and `y`, with `VF`
      reset first and set to the collision flag after. */
  lemma StepDraw(rev: Revision, m: Machine, mem: seq<byte>)
    requires Wellformed(m) && |mem| == MemorySize && m.pc + 1 < MemorySize
    requires mem[m.pc] / 0x10 == 0xD
    ensures var a := Advanced(m);
      var d := SpriteDrawn(m.frame, mem, m.i, Origin(rev, m.v[mem[m.pc] % 0x10], Width),
                           Origin(rev, m.v[mem[m.pc + 1] / 0x10], Height), mem[m.pc + 1] % 0x10);
      Step(rev, m, mem) == Outcome(a.(v := m.v[FlagRegister := if d.collision then 1 else 0], frame := d.frame), d.fault)
  {
    DecodeBytes(mem[m.pc], mem[m.pc + 1]);
    var ins := Instruction(FetchWord(mem[m.pc], mem[m.pc + 1]));
    assert Fetch(m, mem) == Fetched(ins, Advanced(m));
    ExecuteIsDraw(rev, Advanced(m), mem, ins);
  }

  // ---------------------------------------------------------------- the two revisions

  /** `CPU` takes a screen coordinate from the register by Java's `%`, so a negative register
      gives a negative corner, and the first `getPixel` of any non-empty draw throws; nothing
      is drawn and `VF` is left 0. */
  lemma CpuNegativeCoordinateFaults(m: Machine, mem: seq<byte>, ins: Instruction)
    requires Wellformed(m) && |mem| == MemorySize
    requires ins.OpCode() == 0xD && ins.N() > 0 && m.v[ins.X()] < 0 && m.v[ins.X()] % Width != 0
    ensures var o := Execute(CpuRevision, m, mem, ins);
      && o.fault == Some(PixelOutOfRange(JavaRem(m.v[ins.X()], Width), Origin(CpuRevision, m.v[ins.Y()], Height)))
      && o.m == m.(v := m.v[FlagRegister := 0])
  {
    var a := m.v[ins.X()];
    if (-a) % Width == 0 {
      DivModUnique(a, Width, -((-a) / Width), 0);
    }
  }

  /** `Interpreter` masks the registers to a byte first, so its corner is always on the
      screen and a draw can only throw by running out of memory. */
  lemma InterpreterNeverPixelFaults(m: Machine, mem: seq<byte>, ins: Instruction)
    requires Wellformed(m) && |mem| == MemorySize && ins.OpCode() == 0xD
    ensures var o := Execute(InterpreterRevision, m, mem, ins);
      o.fault.None? || o.fault == Some(MemoryOutOfRange(MemorySize))
  {
    var x0 := Origin(InterpreterRevision, m.v[ins.X()], Width);
    var y0 := Origin(InterpreterRevision, m.v[ins.Y()], Height);
    assert 0 <= x0 && 0 <= y0;
    ExecuteIsDraw(InterpreterRevision, m, mem, ins);
    SpriteDrawnPixels(m.frame, mem, m.i, x0, y0, ins.N());
  }

  /** On a register holding a value `0..255`, `(r & 0xFF) % size` is `r % size`. */
  lemma OriginsAgree(r: int32, size: int)
    requires 0 <= r < 0x100 && size > 0
    ensures Origin(CpuRevision, r, size) == Origin(InterpreterRevision, r, size)
  {
    DivModUnique(r, 0x100, 0, r);
  }

  /** On non-negative coordinate registers, a register wider than a byte still gives the same
      origin: the masked-off bits are multiples of the screen size. */
  lemma {:induction false} OriginsAgreeNonNegative(r: int32, size: int)
    requires 0 <= r && (size == Width || size == Height)
    ensures Origin(CpuRevision, r, size) == Origin(InterpreterRevision, r, size)
  {
    if size == Width {
      ModOfMod(r, Width, 4);
    } else {
      ModOfMod(r, Height, 8);
    }
  }

  /** The revisions agree on every instruction, except that `CPU` also clears on a `0x0?E0`
      word other than `0x00E0`, which makes a difference on a screen that is not blank (a
      draw with a negative coordinate register is left aside: there `CPU` throws). */
  lemma RevisionsAgree(m: Machine, mem: seq<byte>, ins: Instruction)
    requires Wellformed(m) && |mem| == MemorySize
    requires ins.OpCode() == 0xD ==> 0 <= m.v[ins.X()] && 0 <= m.v[ins.Y()]
    ensures Execute(CpuRevision, m, mem, ins) == Execute(InterpreterRevision, m, mem, ins)
        <==> !(ins.OpCode() == 0x0 && ins.NN() == 0xE0 && ins.word != 0x00E0 && m.frame != Blank())
  {
    if ins.OpCode() == 0xD {
      OriginsAgreeNonNegative(m.v[ins.X()], Width);
      OriginsAgreeNonNegative(m.v[ins.Y()], Height);
    } else if ins.OpCode() == 0x0 && ins.word == 0x00E0 {
      assert ins.NN() == 0xE0;
    }
  }

  // ---------------------------------------------------------------- the tests, as lemmas

  /** `6A0F` then `7AF0` leaves `0xFF` in `VA`. */
  lemma SetThenAdd(f: seq<seq<bool>>, mem: seq<byte>)
    requires IsFrame(f) && |mem| == MemorySize
    ensures var o1 := Execute(CpuRevision, Initial(f), mem, Instruction(0x6A0F));
      var o2 := Execute(CpuRevision, o1.m, mem, Instruction(0x7AF0));
      o1.m.v[0xA] == 0x0F && o2.m.v[0xA] == 0xFF && o2.fault == None
  {
  }

  /** The sprite row with every bit set. */
  lemma SolidRow()
    ensures forall c :: 0 <= c < 8 ==> SpriteBits(0xFF)[c]
  {
    SpriteBitsByHalving(0xFF);
    assert Halved(0xFF, 7) == 1 && Halved(0xFF, 6) == 3 && Halved(0xFF, 5) == 7 && Halved(0xFF, 4) == 15;
    assert Halved(0xFF, 3) == 31 && Halved(0xFF, 2) == 63 && Halved(0xFF, 1) == 127 && Halved(0xFF, 0) == 255;
  }

  /** A solid 8x8 sprite drawn twice on a rectangle that is off: the first draw lights the
      rectangle without a collision, the second turns it off again with a collision, the rest
      of the screen is untouched, and neither throws. */
  lemma SolidSpriteOnOff(f: seq<seq<bool>>, mem: seq<byte>, i: int, x0: int, y0: int)
    requires IsFrame(f) && |mem| == MemorySize && 0 <= i && i + 8 <= MemorySize
    requires 0 <= x0 <= Width - 8 && 0 <= y0 <= Height - 8
    requires forall r :: i <= r < i + 8 ==> mem[r] == 0xFF
    requires forall y, x :: InBounds(x, y) && InSprite(x0, y0, 8, x, y) ==> !f[y][x]
    ensures var first := SpriteDrawn(f, mem, i, x0, y0, 8);
      var second := SpriteDrawn(first.frame, mem, i, x0, y0, 8);
      && first.fault == None && !first.collision
      && (forall y, x :: InBounds(x, y) ==> first.frame[y][x] == (InSprite(x0, y0, 8, x, y) || f[y][x]))
      && second.fault == None && second.collision && second.frame == f
  {
    SolidSpriteLights(f, mem, i, x0, y0);
    var first := SpriteDrawn(f, mem, i, x0, y0, 8);
    SolidSpriteClears(first.frame, mem, i, x0, y0);
    var second := SpriteDrawn(first.frame, mem, i, x0, y0, 8);
    SameFrame(second.frame, f);
  }

  /** The first draw of a solid sprite over an unlit rectangle lights it, without a collision. */
  lemma SolidSpriteLights(f: seq<seq<bool>>, mem: seq<byte>, i: int, x0: int, y0: int)
    requires IsFrame(f) && |mem| == MemorySize && 0 <= i && i + 8 <= MemorySize
    requires 0 <= x0 <= Width - 8 && 0 <= y0 <= Height - 8
    requires forall r :: i <= r < i + 8 ==> mem[r] == 0xFF
    requires forall y, x :: InBounds(x, y) && InSprite(x0, y0, 8, x, y) ==> !f[y][x]
    ensures var d := SpriteDrawn(f, mem, i, x0, y0, 8);
      && d.fault == None && !d.collision
      && forall y, x :: InBounds(x, y) ==> d.frame[y][x] == (InSprite(x0, y0, 8, x, y) || f[y][x])
  {
    SolidRow();
    assert RowsPainted(i, x0, y0, 8) == 8;
    SpriteDrawnPixels(f, mem, i, x0, y0, 8);
  }

  /** The second draw of a solid sprite over a lit rectangle turns it off, with a collision,
      and leaves every other pixel as it was. */
  lemma SolidSpriteClears(g: seq<seq<bool>>, mem: seq<byte>, i: int, x0: int, y0: int)
    requires IsFrame(g) && |mem| == MemorySize && 0 <= i && i + 8 <= MemorySize
    requires 0 <= x0 <= Width - 8 && 0 <= y0 <= Height - 8
    requires forall r :: i <= r < i + 8 ==> mem[r] == 0xFF
    requires forall y, x :: InBounds(x, y) && InSprite(x0, y0, 8, x, y) ==> g[y][x]
    ensures var d := SpriteDrawn(g, mem, i, x0, y0, 8);
      && d.fault == None && d.collision
      && forall y, x :: InBounds(x, y) ==> d.frame[y][x] == (!InSprite(x0, y0, 8, x, y) && g[y][x])
  {
    SolidRow();
    assert RowsPainted(i, x0, y0, 8) == 8;
    SpriteDrawnPixels(g, mem, i, x0, y0, 8);
    assert InBounds(x0, y0) && InSprite(x0, y0, 8, x0, y0) && g[y0][x0] && SpriteBits(mem[i])[0];
  }

  /** Two frames that agree on every pixel are the same frame. */
  lemma SameFrame(f: seq<seq<bool>>, g: seq<seq<bool>>)
    requires IsFrame(f) && IsFrame(g)
    requires forall y, x :: InBounds(x, y) ==> f[y][x] == g[y][x]
    ensures f == g
  {
    forall y | 0 <= y < Height
      ensures f[y] == g[y]
    {
      assert forall x :: 0 <= x < Width ==> InBounds(x, y);
    }
  }

  /** The draw test: `Dxy8` of a solid sprite, twice, on a rectangle that is off, with the
      coordinate registers other than `VF`. The first draw lights the rectangle with `VF = 0`,
      the second restores the screen with `VF = 1`. */
  lemma SolidSpriteDrawnTwice(rev: Revision, m: Machine, mem: seq<byte>, ins: Instruction)
    requires Wellformed(m) && |mem| == MemorySize
    requires ins.OpCode() == 0xD && ins.N() == 8 && ins.X() != FlagRegister && ins.Y() != FlagRegister
    requires var x0 := Origin(rev, m.v[ins.X()], Width);
      var y0 := Origin(rev, m.v[ins.Y()], Height);
      && 0 <= x0 <= Width - 8 && 0 <= y0 <= Height - 8 && m.i + 8 <= MemorySize
      && (forall r :: m.i <= r < m.i + 8 ==> mem[r] == 0xFF)
      && (forall y, x :: InBounds(x, y) && InSprite(x0, y0, 8, x, y) ==> !m.frame[y][x])
    ensures var x0 := Origin(rev, m.v[ins.X()], Width);
      var y0 := Origin(rev, m.v[ins.Y()], Height);
      var first := Execute(rev, m, mem, ins);
      var second := Execute(rev, first.m, mem, ins);
      && first.fault == None && first.m.v[FlagRegister] == 0
      && (forall y, x :: InBounds(x, y) ==>
            first.m.frame[y][x] == (InSprite(x0, y0, 8, x, y) || m.frame[y][x]))
      && second.fault == None && second.m.v[FlagRegister] == 1
      && second.m.frame == m.frame
  {
    var x0 := Origin(rev, m.v[ins.X()], Width);
    var y0 := Origin(rev, m.v[ins.Y()], Height);
    SolidSpriteOnOff(m.frame, mem, m.i, x0, y0);
    ExecuteIsDraw(rev, m, mem, ins);
    var first := ExecuteDraw(rev, m, mem, ins);
    assert first.m.v[ins.X()] == m.v[ins.X()] && first.m.v[ins.Y()] == m.v[ins.Y()];
    ExecuteIsDraw(rev, first.m, mem, ins);
  }

  /** A `Dxyn` instruction executes as a draw. */
  lemma ExecuteIsDraw(rev: Revision, m: Machine, mem: seq<byte>, ins: Instruction)
    requires Wellformed(m) && |mem| == MemorySize && ins.OpCode() == 0xD
    ensures Execute(rev, m, mem, ins) == ExecuteDraw(rev, m, mem, ins)
  {
  }

  // ---------------------------------------------------------------- runs

  /** `runFixedCycles(a + b)` is `runFixedCycles(a)` then, unless it threw,
      `runFixedCycles(b)`. */
  lemma {:induction false} RunSplit(rev: Revision, m: Machine, mem: seq<byte>, a: nat, b: nat)
    requires Wellformed(m) && |mem| == MemorySize
    ensures var o := Run(rev, m, mem, a);
      Run(rev, m, mem, a + b) == if o.fault.Some? then o else Run(rev, o.m, mem, b)
    decreases a
  {
    if a > 0 {
      var s := Step(rev, m, mem);
      if s.fault.None? {
        RunSplit(rev, s.m, mem, a - 1, b);
      }
    }
  }

  /** A run of `n <= 0` cycles does nothing. */
  lemma RunNothing(rev: Revision, m: Machine, mem: seq<byte>, n: int)
    requires Wellformed(m) && |mem| == MemorySize && n <= 0
    ensures Run(rev, m, mem, n) == Outcome(m, None)
  {
  }

  /** A run without exceptions counts `pc` up by 2 per cycle when none of its instructions
      moves `pc` by itself: a program of straight-line `6`, `7`, `A` instructions. */
  lemma {:induction false} StraightLineRun(rev: Revision, m: Machine, mem: seq<byte>, n: nat)
    requires Wellformed(m) && |mem| == MemorySize && m.pc + 2 * n <= MemorySize
    requires forall k :: 0 <= k < n ==> mem[m.pc + 2 * k] / 0x10 in {0x6, 0x7, 0xA}
    ensures var o := Run(rev, m, mem, n);
      o.fault == None && o.m.pc == m.pc + 2 * n && o.m.frame == m.frame
    decreases n
  {
    if n > 0 {
      var s := Step(rev, m, mem);
      var op := mem[m.pc] / 0x10;
      assert mem[m.pc + 2 * 0] / 0x10 in {0x6, 0x7, 0xA};
      if op == 0x6 {
        StepSetRegister(rev, m, mem);
      } else if op == 0x7 {
        StepAddRegister(rev, m, mem);
      } else {
        StepSetIndex(rev, m, mem);
      }
      forall k | 0 <= k < n - 1
        ensures mem[s.m.pc + 2 * k] / 0x10 in {0x6, 0x7, 0xA}
      {
        assert s.m.pc + 2 * k == m.pc + 2 * (k + 1);
      }
      StraightLineRun(rev, s.m, mem, n - 1);
    }
  }
}
