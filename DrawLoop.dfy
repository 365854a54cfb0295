/** The `Dxyn` draw loop, which both engine revisions run over their screen and registers. */
module DrawLoop {
  import opened JavaInt
  import opened Wrappers
  import opened Screens
  import opened Semantics

  /** The `Dxyn` body after the coordinates are known: `VF := 0`, the draw, and `VF := 1`
      when a drawn pixel collided. If the draw throws, `VF` keeps what the rows drawn before
      the exception left in it. */
  method Draw(screen: Screen, memory: array<byte>, registers: array<int32>, i: int, x0: int, y0: int, n: int)
    returns (fault: Option<Fault>)
    requires screen.Valid() && memory !in screen.Repr && memory.Length == MemorySize
    requires registers !in screen.Repr && registers.Length == 16 && memory as object != registers
    requires 0 <= i < MemorySize && 0 <= n < 0x10 && x0 < Width && y0 < Height
    modifies screen.Repr, registers
    ensures screen.Valid() && screen.Repr == old(screen.Repr)
    ensures var d := SpriteDrawn(old(screen.grid), old(memory[..]), i, x0, y0, n);
      && screen.grid == d.frame && fault == d.fault
      && registers[..] == old(registers[..])[FlagRegister := if d.collision then 1 else 0]
  {
    registers[FlagRegister] := 0;
    var collision;
    fault, collision := DrawSprite(screen, memory, i, x0, y0, n);
    if collision {
      registers[FlagRegister] := 1;
    }
    assert registers[..] == old(registers[..])[FlagRegister := if collision then 1 else 0];
  }

  /** For each sprite row reads `memory[i + row]` and draws it (see `DrawSpriteRow`); the row
      loop stops after the last row of the screen. Returns the exception that ended the draw,
      if any, and whether some drawn pixel collided (the caller's `VF`). */
  method DrawSprite(screen: Screen, memory: array<byte>, i: int, x0: int, y0: int, n: int)
    returns (fault: Option<Fault>, hit: bool)
    requires screen.Valid() && memory !in screen.Repr && memory.Length == MemorySize
    requires 0 <= i < MemorySize && 0 <= n < 0x10 && x0 < Width && y0 < Height
    modifies screen.Repr
    ensures screen.Valid() && screen.Repr == old(screen.Repr)
    ensures SpriteDrawn(old(screen.grid), old(memory[..]), i, x0, y0, n) == Drawn(screen.grid, hit, fault)
  {
    ghost var f0 := screen.grid;
    ghost var mem := memory[..];
    hit := false;
    fault := None;

    var pixelRow := 0;
    // The number of rows drawn so far.
    ghost var drawn := 0;
    while pixelRow < n
      invariant 0 <= pixelRow <= n && drawn == pixelRow
      invariant screen.Valid() && screen.Repr == old(screen.Repr)
      invariant fault == None
      invariant x0 < 0 || y0 < 0 ==> pixelRow == 0 && screen.grid == f0 && !hit
      invariant 0 <= x0 && 0 <= y0 ==>
        && y0 + pixelRow < Height
        && i + pixelRow <= MemorySize
        && RowsDrawn(f0, x0, y0, mem[i..i + pixelRow]) == Canvas(screen.grid, hit)
    {
      if !(0 <= i + pixelRow < memory.Length) {
        fault := Some(MemoryOutOfRange(i + pixelRow));
        SpriteRunsOutOfMemory(f0, mem, i, x0, y0, n, pixelRow);
        assert SpriteDrawn(f0, mem, i, x0, y0, n) == Drawn(screen.grid, hit, fault);
        break;
      }
      var sprite := memory[i + pixelRow];
      var bits := SpriteBits(sprite);
      var screenY := y0 + pixelRow;
      var collision;
      fault, collision := DrawSpriteRow(screen, bits, x0, screenY);
      if fault.Some? {
        break;
      }
      RowsDrawnStep(f0, x0, y0, mem, i, pixelRow);
      hit := hit || collision;
      drawn := drawn + 1;
      if screenY == screen.GetHeight() - 1 {
        break;
      }
      pixelRow := pixelRow + 1;
    }
    if n == 0 {
    } else if x0 < 0 || y0 < 0 {
      assert fault == Some(PixelOutOfRange(x0, y0)) && screen.grid == f0 && !hit;
    } else if fault.None? {
      SpriteCompletes(f0, mem, i, x0, y0, n, drawn);
    }
  }

  /** The column loop of one sprite row: for bit `c` (most significant first) the pixel at
      `(x0 + c, y)` becomes `!previous && bit`, and a collision is noted where
      `previous && bit`; the loop stops after the last column of the screen. A corner off the
      screen makes the first `getPixel` throw. */
  method DrawSpriteRow(screen: Screen, bits: seq<bool>, x0: int, y: int)
    returns (fault: Option<Fault>, collision: bool)
    requires screen.Valid() && |bits| == 8 && x0 < Width && y < Height
    modifies screen.Repr
    ensures screen.Valid() && screen.Repr == old(screen.Repr)
    ensures x0 < 0 || y < 0 ==> fault == Some(PixelOutOfRange(x0, y)) && screen.grid == old(screen.grid)
    ensures 0 <= x0 && 0 <= y ==>
      fault == None && RowDrawn(old(screen.grid), x0, y, bits, Cols(x0)) == Canvas(screen.grid, collision)
  {
    ghost var g := screen.grid;
    fault := None;
    collision := false;
    var bitIndex := 0;
    // The number of columns drawn so far.
    ghost var drawn := 0;
    while bitIndex < 8
      invariant 0 <= bitIndex <= 8 && drawn == bitIndex && fault == None
      invariant screen.Valid() && screen.Repr == old(screen.Repr)
      invariant x0 < 0 || y < 0 ==> bitIndex == 0 && screen.grid == g
      invariant 0 <= x0 && 0 <= y ==>
        x0 + bitIndex < Width && RowDrawn(g, x0, y, bits, drawn) == Canvas(screen.grid, collision)
    {
      var screenX := x0 + bitIndex;
      var previous := screen.GetPixel(screenX, y);
      if previous.None? {
        fault := Some(PixelOutOfRange(screenX, y));
        break;
      }
      var bit := bits[bitIndex];
      var _ := screen.SetPixel(screenX, y, !previous.value && bit);
      if previous.value && bit {
        collision := true;
      }
      drawn := drawn + 1;
      assert 0 <= x0 && 0 <= y ==> RowDrawn(g, x0, y, bits, drawn) == Canvas(screen.grid, collision);
      if screenX == screen.GetWidth() - 1 {
        break;
      }
      bitIndex := bitIndex + 1;
    }
    if x0 < 0 || y < 0 {
      assert fault == Some(PixelOutOfRange(x0, y)) && screen.grid == g;
    } else {
      assert fault == None && drawn == Cols(x0);
    }
  }

  /** One more row of the sprite loop: drawing row `k` on top of the first `k` rows. */
  lemma RowsDrawnStep(f: seq<seq<bool>>, x0: int, y0: int, mem: seq<byte>, i: int, k: int)
    requires IsFrame(f) && 0 <= x0 < Width && 0 <= y0 && 0 <= i && 0 <= k && i + k < |mem| && y0 + k < Height
    ensures var before := RowsDrawn(f, x0, y0, mem[i..i + k]);
      var row := RowDrawn(before.frame, x0, y0 + k, SpriteBits(mem[i + k]), Cols(x0));
      RowsDrawn(f, x0, y0, mem[i..i + k + 1]) == Canvas(row.frame, before.collision || row.collision)
  {
    var sprites := mem[i..i + k + 1];
    assert sprites[..k] == mem[i..i + k] && sprites[k] == mem[i + k];
  }

  /** A sprite loop that reaches the end of memory after `k` rows throws there,
      keeping the `k` rows drawn. */
  lemma SpriteRunsOutOfMemory(f: seq<seq<bool>>, mem: seq<byte>, i: int, x0: int, y0: int, n: int, k: int)
    requires IsFrame(f) && |mem| == MemorySize && 0 <= i < MemorySize && n < 0x10
    requires 0 <= x0 < Width && 0 <= y0 && 0 <= k < n && y0 + k < Height && i + k == MemorySize
    ensures var c := RowsDrawn(f, x0, y0, mem[i..i + k]);
      SpriteDrawn(f, mem, i, x0, y0, n) == Drawn(c.frame, c.collision, Some(MemoryOutOfRange(i + k)))
  {
    var wanted := Min(n, Height - y0);
    assert wanted > MemorySize - i && Min(wanted, MemorySize - i) == k;
  }

  /** A sprite loop that leaves after `k` rows, because all `n` rows are drawn or the last
      screen row is reached, completes without an exception. */
  lemma SpriteCompletes(f: seq<seq<bool>>, mem: seq<byte>, i: int, x0: int, y0: int, n: int, k: int)
    requires IsFrame(f) && |mem| == MemorySize && 0 <= i < MemorySize && 0 < n < 0x10
    requires 0 <= x0 < Width && 0 <= y0 < Height && 0 <= k <= n && y0 + k <= Height && i + k <= MemorySize
    requires k == n || y0 + k == Height
    ensures var c := RowsDrawn(f, x0, y0, mem[i..i + k]);
      SpriteDrawn(f, mem, i, x0, y0, n) == Drawn(c.frame, c.collision, None)
  {
    var wanted := Min(n, Height - y0);
    assert wanted == k && Min(wanted, MemorySize - i) == k;
    assert mem[i..i + Min(wanted, MemorySize - i)] == mem[i..i + k];
  }
}
