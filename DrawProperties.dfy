/** What a `Dxyn` draw does to each pixel, in closed form, and what follows from it. */
module DrawProperties {
  import opened JavaInt
  import opened Wrappers
  import opened Screens
  import opened Semantics
  import opened Instructions

  /** Pixel `(x, y)` lies in the `rows`-row, 8-column sprite rectangle at `(x0, y0)`. */
  predicate InSprite(x0: int, y0: int, rows: int, x: int, y: int) {
    y0 <= y < y0 + rows && x0 <= x < x0 + 8
  }

  /** The number of sprite rows a draw paints: none when `n` is zero or the corner is off the
      screen, else `n` clipped to the bottom of the screen and to the end of memory. */
  function RowsPainted(i: int, x0: int, y0: int, n: int): int {
    if n == 0 || x0 < 0 || y0 < 0 then 0 else Min(Min(n, Height - y0), MemorySize - i)
  }

  /** After the first `k` columns of a row: the covered pixels are `!previous && bit` and all
      others are unchanged. */
  lemma {:induction false} RowDrawnPixels(f: seq<seq<bool>>, x0: int, y: int, bits: seq<bool>, k: int)
    requires IsFrame(f) && |bits| == 8 && 0 <= x0 && 0 <= k <= 8 && x0 + k <= Width && 0 <= y < Height
    ensures var c := RowDrawn(f, x0, y, bits, k);
      forall y', x' :: InBounds(x', y') ==>
        c.frame[y'][x'] == if y' == y && x0 <= x' < x0 + k then !f[y'][x'] && bits[x' - x0] else f[y'][x']
    decreases k
  {
    if k > 0 {
      RowDrawnPixels(f, x0, y, bits, k - 1);
    }
  }

  /** A row's collision flag: some covered pixel was lit under a set bit. */
  lemma {:induction false} RowDrawnCollision(f: seq<seq<bool>>, x0: int, y: int, bits: seq<bool>, k: int)
    requires IsFrame(f) && |bits| == 8 && 0 <= x0 && 0 <= k <= 8 && x0 + k <= Width && 0 <= y < Height
    ensures RowDrawn(f, x0, y, bits, k).collision <==>
      exists x :: x0 <= x < x0 + k && f[y][x] && bits[x - x0]
    decreases k
  {
    if k > 0 {
      RowDrawnCollision(f, x0, y, bits, k - 1);
      RowDrawnPixels(f, x0, y, bits, k - 1);
      var before := RowDrawn(f, x0, y, bits, k - 1);
      assert before.frame[y][x0 + k - 1] == f[y][x0 + k - 1];
    }
  }

  /** After the sprite rows `sprites`: the covered pixels (the rectangle clipped to the
      screen) are `!previous && bit` and all others are unchanged. */
  lemma {:induction false} RowsDrawnPixels(f: seq<seq<bool>>, x0: int, y0: int, sprites: seq<byte>)
    requires IsFrame(f) && 0 <= x0 < Width && 0 <= y0 && y0 + |sprites| <= Height
    ensures var c := RowsDrawn(f, x0, y0, sprites);
      forall y, x :: InBounds(x, y) ==>
        c.frame[y][x] == if InSprite(x0, y0, |sprites|, x, y) then !f[y][x] && SpriteBits(sprites[y - y0])[x - x0] else f[y][x]
    decreases |sprites|
  {
    if sprites != [] {
      var last := |sprites| - 1;
      var prefix := sprites[..last];
      RowsDrawnPixels(f, x0, y0, prefix);
      var before := RowsDrawn(f, x0, y0, prefix);
      var row := RowDrawn(before.frame, x0, y0 + last, SpriteBits(sprites[last]), Cols(x0));
      assert RowsDrawn(f, x0, y0, sprites).frame == row.frame;
      RowDrawnPixels(before.frame, x0, y0 + last, SpriteBits(sprites[last]), Cols(x0));
      forall y, x | InBounds(x, y)
        ensures row.frame[y][x] == if InSprite(x0, y0, |sprites|, x, y) then !f[y][x] && SpriteBits(sprites[y - y0])[x - x0] else f[y][x]
      {
        if InSprite(x0, y0, last, x, y) {
          assert sprites[y - y0] == prefix[y - y0];
        }
      }
    }
  }

  /** The collision flag after the sprite rows `sprites`: some covered pixel was lit under a
      set bit. */
  lemma RowsDrawnCollision(f: seq<seq<bool>>, x0: int, y0: int, sprites: seq<byte>)
    requires IsFrame(f) && 0 <= x0 < Width && 0 <= y0 && y0 + |sprites| <= Height
    ensures RowsDrawn(f, x0, y0, sprites).collision <==>
      exists y, x :: InBounds(x, y) && InSprite(x0, y0, |sprites|, x, y) && f[y][x] && SpriteBits(sprites[y - y0])[x - x0]
  {
    if RowsDrawn(f, x0, y0, sprites).collision {
      CollisionHasWitness(f, x0, y0, sprites);
    }
    forall y, x | InBounds(x, y) && InSprite(x0, y0, |sprites|, x, y) && f[y][x] && SpriteBits(sprites[y - y0])[x - x0]
      ensures RowsDrawn(f, x0, y0, sprites).collision
    {
      WitnessCollides(f, x0, y0, sprites, x, y);
    }
  }

  lemma {:induction false} CollisionHasWitness(f: seq<seq<bool>>, x0: int, y0: int, sprites: seq<byte>)
    requires IsFrame(f) && 0 <= x0 < Width && 0 <= y0 && y0 + |sprites| <= Height
    requires RowsDrawn(f, x0, y0, sprites).collision
    ensures exists y, x :: InBounds(x, y) && InSprite(x0, y0, |sprites|, x, y) && f[y][x] && SpriteBits(sprites[y - y0])[x - x0]
    decreases |sprites|
  {
    var prefix := sprites[..|sprites| - 1];
    if RowsDrawn(f, x0, y0, prefix).collision {
      CollisionHasWitness(f, x0, y0, prefix);
      PrefixWitness(f, x0, y0, sprites);
    } else {
      LastRowWitness(f, x0, y0, sprites);
    }
  }

  /** A witness among the first rows is a witness among all of them. */
  lemma PrefixWitness(f: seq<seq<bool>>, x0: int, y0: int, sprites: seq<byte>)
    requires IsFrame(f) && 0 <= x0 < Width && 0 <= y0 && y0 + |sprites| <= Height && sprites != []
    requires var prefix := sprites[..|sprites| - 1];
      exists y, x :: InBounds(x, y) && InSprite(x0, y0, |prefix|, x, y) && f[y][x] && SpriteBits(prefix[y - y0])[x - x0]
    ensures exists y, x :: InBounds(x, y) && InSprite(x0, y0, |sprites|, x, y) && f[y][x] && SpriteBits(sprites[y - y0])[x - x0]
  {
    var prefix := sprites[..|sprites| - 1];
    var y, x :| InBounds(x, y) && InSprite(x0, y0, |prefix|, x, y) && f[y][x] && SpriteBits(prefix[y - y0])[x - x0];
    assert prefix[y - y0] == sprites[y - y0];
    assert InSprite(x0, y0, |sprites|, x, y);
  }

  /** A collision raised by the last row has its witness in that row. */
  lemma LastRowWitness(f: seq<seq<bool>>, x0: int, y0: int, sprites: seq<byte>)
    requires IsFrame(f) && 0 <= x0 < Width && 0 <= y0 && y0 + |sprites| <= Height && sprites != []
    requires RowsDrawn(f, x0, y0, sprites).collision && !RowsDrawn(f, x0, y0, sprites[..|sprites| - 1]).collision
    ensures exists y, x :: InBounds(x, y) && InSprite(x0, y0, |sprites|, x, y) && f[y][x] && SpriteBits(sprites[y - y0])[x - x0]
  {
    var last := |sprites| - 1;
    var prefix := sprites[..last];
    var before := RowsDrawn(f, x0, y0, prefix);
    var yl := y0 + last;
    var row := RowDrawn(before.frame, x0, yl, SpriteBits(sprites[last]), Cols(x0));
    assert RowsDrawn(f, x0, y0, sprites).collision == (before.collision || row.collision);
    RowDrawnCollision(before.frame, x0, yl, SpriteBits(sprites[last]), Cols(x0));
    var x :| x0 <= x < x0 + Cols(x0) && before.frame[yl][x] && SpriteBits(sprites[last])[x - x0];
    RowsDrawnPixelOutside(f, x0, y0, prefix, x, yl);
    assert yl - y0 == last && InBounds(x, yl);
    assert f[yl][x] && InSprite(x0, y0, |sprites|, x, yl);
  }

  lemma {:induction false} WitnessCollides(f: seq<seq<bool>>, x0: int, y0: int, sprites: seq<byte>, x: int, y: int)
    requires IsFrame(f) && 0 <= x0 < Width && 0 <= y0 && y0 + |sprites| <= Height
    requires InBounds(x, y) && InSprite(x0, y0, |sprites|, x, y) && f[y][x] && SpriteBits(sprites[y - y0])[x - x0]
    ensures RowsDrawn(f, x0, y0, sprites).collision
    decreases |sprites|
  {
    var prefix := sprites[..|sprites| - 1];
    if y < y0 + |prefix| {
      WitnessInPrefix(f, x0, y0, sprites, x, y);
      WitnessCollides(f, x0, y0, prefix, x, y);
      CollisionPersists(f, x0, y0, sprites);
    } else {
      WitnessInLastRowCollides(f, x0, y0, sprites, x);
    }
  }

  /** A witness above the last row is a witness among the first rows. */
  lemma WitnessInPrefix(f: seq<seq<bool>>, x0: int, y0: int, sprites: seq<byte>, x: int, y: int)
    requires IsFrame(f) && 0 <= x0 < Width && 0 <= y0 && y0 + |sprites| <= Height
    requires InBounds(x, y) && InSprite(x0, y0, |sprites| - 1, x, y) && f[y][x] && SpriteBits(sprites[y - y0])[x - x0]
    ensures var prefix := sprites[..|sprites| - 1];
      InSprite(x0, y0, |prefix|, x, y) && SpriteBits(prefix[y - y0])[x - x0]
  {
  }

  /** A collision in the first rows stays raised after the last one. */
  lemma CollisionPersists(f: seq<seq<bool>>, x0: int, y0: int, sprites: seq<byte>)
    requires IsFrame(f) && 0 <= x0 < Width && 0 <= y0 && y0 + |sprites| <= Height && sprites != []
    requires RowsDrawn(f, x0, y0, sprites[..|sprites| - 1]).collision
    ensures RowsDrawn(f, x0, y0, sprites).collision
  {
  }

  lemma WitnessInLastRowCollides(f: seq<seq<bool>>, x0: int, y0: int, sprites: seq<byte>, x: int)
    requires IsFrame(f) && 0 <= x0 < Width && 0 <= y0 && y0 + |sprites| <= Height && sprites != []
    requires x0 <= x < x0 + 8 && x < Width
    requires f[y0 + |sprites| - 1][x] && SpriteBits(sprites[|sprites| - 1])[x - x0]
    ensures RowsDrawn(f, x0, y0, sprites).collision
  {
    var last := |sprites| - 1;
    var prefix := sprites[..last];
    var before := RowsDrawn(f, x0, y0, prefix);
    var yl := y0 + last;
    var row := RowDrawn(before.frame, x0, yl, SpriteBits(sprites[last]), Cols(x0));
    assert RowsDrawn(f, x0, y0, sprites).collision == (before.collision || row.collision);
    RowsDrawnPixelOutside(f, x0, y0, prefix, x, yl);
    RowDrawnCollision(before.frame, x0, yl, SpriteBits(sprites[last]), Cols(x0));
  }

  /** A pixel outside the rows drawn so far keeps its value. */
  lemma RowsDrawnPixelOutside(f: seq<seq<bool>>, x0: int, y0: int, sprites: seq<byte>, x: int, y: int)
    requires IsFrame(f) && 0 <= x0 < Width && 0 <= y0 && y0 + |sprites| <= Height
    requires InBounds(x, y) && !InSprite(x0, y0, |sprites|, x, y)
    ensures RowsDrawn(f, x0, y0, sprites).frame[y][x] == f[y][x]
  {
    RowsDrawnPixels(f, x0, y0, sprites);
  }

  /** A whole draw in closed form: exactly the pixels of the painted rows inside the sprite
      rectangle become `!previous && bit`, the collision flag says whether one of them was lit
      under a set bit, and the exception is the one the first out-of-range access raises. */
  lemma SpriteDrawnPixels(f: seq<seq<bool>>, mem: seq<byte>, i: int, x0: int, y0: int, n: int)
    requires IsFrame(f) && |mem| == MemorySize && 0 <= i < MemorySize
    requires 0 <= n < 0x10 && x0 < Width && y0 < Height
    ensures var d := SpriteDrawn(f, mem, i, x0, y0, n);
      var rows := RowsPainted(i, x0, y0, n);
      && (forall y, x :: InBounds(x, y) ==>
            d.frame[y][x] == if InSprite(x0, y0, rows, x, y) then !f[y][x] && SpriteBits(mem[i + y - y0])[x - x0] else f[y][x])
      && (d.collision <==>
            exists y, x :: InBounds(x, y) && InSprite(x0, y0, rows, x, y) && f[y][x] && SpriteBits(mem[i + y - y0])[x - x0])
      && d.fault == if n == 0 then None
                    else if x0 < 0 || y0 < 0 then Some(PixelOutOfRange(x0, y0))
                    else if i + Min(n, Height - y0) > MemorySize then Some(MemoryOutOfRange(MemorySize))
                    else None
  {
    SpriteDrawnFrame(f, mem, i, x0, y0, n);
    SpriteDrawnCollision(f, mem, i, x0, y0, n);
  }

  /** A draw that starts on the screen is the painted rows of memory drawn in a row. */
  lemma SpriteDrawnIsRows(f: seq<seq<bool>>, mem: seq<byte>, i: int, x0: int, y0: int, n: int)
    requires IsFrame(f) && |mem| == MemorySize && 0 <= i < MemorySize
    requires 0 < n < 0x10 && 0 <= x0 < Width && 0 <= y0 < Height
    ensures var rows := RowsPainted(i, x0, y0, n);
      var c := RowsDrawn(f, x0, y0, mem[i..i + rows]);
      var d := SpriteDrawn(f, mem, i, x0, y0, n);
      d.frame == c.frame && d.collision == c.collision
  {
  }

  /** The frame part of `SpriteDrawnPixels`. */
  lemma SpriteDrawnFrame(f: seq<seq<bool>>, mem: seq<byte>, i: int, x0: int, y0: int, n: int)
    requires IsFrame(f) && |mem| == MemorySize && 0 <= i < MemorySize
    requires 0 <= n < 0x10 && x0 < Width && y0 < Height
    ensures var d := SpriteDrawn(f, mem, i, x0, y0, n);
      var rows := RowsPainted(i, x0, y0, n);
      forall y, x :: InBounds(x, y) ==>
        d.frame[y][x] == if InSprite(x0, y0, rows, x, y) then !f[y][x] && SpriteBits(mem[i + y - y0])[x - x0] else f[y][x]
  {
    if n > 0 && 0 <= x0 && 0 <= y0 {
      var rows := RowsPainted(i, x0, y0, n);
      var sprites := mem[i..i + rows];
      SpriteDrawnIsRows(f, mem, i, x0, y0, n);
      RowsDrawnPixels(f, x0, y0, sprites);
      assert forall r :: 0 <= r < rows ==> sprites[r] == mem[i + r];
    }
  }

  /** The collision part of `SpriteDrawnPixels`. */
  lemma SpriteDrawnCollision(f: seq<seq<bool>>, mem: seq<byte>, i: int, x0: int, y0: int, n: int)
    requires IsFrame(f) && |mem| == MemorySize && 0 <= i < MemorySize
    requires 0 <= n < 0x10 && x0 < Width && y0 < Height
    ensures var d := SpriteDrawn(f, mem, i, x0, y0, n);
      var rows := RowsPainted(i, x0, y0, n);
      d.collision <==>
        exists y, x :: InBounds(x, y) && InSprite(x0, y0, rows, x, y) && f[y][x] && SpriteBits(mem[i + y - y0])[x - x0]
  {
    if n > 0 && 0 <= x0 && 0 <= y0 {
      SpriteDrawnIsRows(f, mem, i, x0, y0, n);
      MemoryRowsCollision(f, x0, y0, mem, i, RowsPainted(i, x0, y0, n));
    }
  }

  /** `RowsDrawnCollision` for sprite rows read from `mem[i..i + rows]`. */
  lemma MemoryRowsCollision(f: seq<seq<bool>>, x0: int, y0: int, mem: seq<byte>, i: int, rows: int)
    requires IsFrame(f) && 0 <= x0 < Width && 0 <= y0 && 0 <= rows && y0 + rows <= Height
    requires 0 <= i && i + rows <= |mem|
    ensures RowsDrawn(f, x0, y0, mem[i..i + rows]).collision <==>
      exists y, x :: InBounds(x, y) && InSprite(x0, y0, rows, x, y) && f[y][x] && SpriteBits(mem[i + y - y0])[x - x0]
  {
    var sprites := mem[i..i + rows];
    RowsDrawnCollision(f, x0, y0, sprites);
    if RowsDrawn(f, x0, y0, sprites).collision {
      var y, x :| InBounds(x, y) && InSprite(x0, y0, rows, x, y) && f[y][x] && SpriteBits(sprites[y - y0])[x - x0];
      assert sprites[y - y0] == mem[i + y - y0];
    } else {
      forall y, x | InBounds(x, y) && InSprite(x0, y0, rows, x, y) && f[y][x]
        ensures !SpriteBits(mem[i + y - y0])[x - x0]
      {
        assert sprites[y - y0] == mem[i + y - y0];
      }
    }
  }

  /** Drawing the same sprite twice at the same place keeps a covered pixel lit only where it
      was lit before and the bit is set (with XOR it would come back to its old value), and the
      second draw collides exactly where the first one lit a pixel. */
  lemma DrawnTwice(f: seq<seq<bool>>, mem: seq<byte>, i: int, x0: int, y0: int, n: int)
    requires IsFrame(f) && |mem| == MemorySize && 0 <= i < MemorySize
    requires 0 <= n < 0x10 && x0 < Width && y0 < Height
    ensures var first := SpriteDrawn(f, mem, i, x0, y0, n);
      var second := SpriteDrawn(first.frame, mem, i, x0, y0, n);
      var rows := RowsPainted(i, x0, y0, n);
      && second.fault == first.fault
      && (forall y, x :: InBounds(x, y) ==>
            second.frame[y][x] == if InSprite(x0, y0, rows, x, y) then f[y][x] && SpriteBits(mem[i + y - y0])[x - x0] else f[y][x])
      && (second.collision <==>
            exists y, x :: InBounds(x, y) && InSprite(x0, y0, rows, x, y) && !f[y][x] && SpriteBits(mem[i + y - y0])[x - x0])
  {
    SpriteDrawnPixels(f, mem, i, x0, y0, n);
    var first := SpriteDrawn(f, mem, i, x0, y0, n);
    SpriteDrawnPixels(first.frame, mem, i, x0, y0, n);
  }

  /** The draw is not an XOR: a covered pixel under a clear bit ends up off even when it was
      lit, where CHIP-8's XOR would leave it lit. */
  lemma ClearBitTurnsPixelOff(f: seq<seq<bool>>, mem: seq<byte>, i: int, x0: int, y0: int, n: int, x: int, y: int)
    requires IsFrame(f) && |mem| == MemorySize && 0 <= i < MemorySize
    requires 0 <= n < 0x10 && x0 < Width && y0 < Height
    requires InBounds(x, y) && InSprite(x0, y0, RowsPainted(i, x0, y0, n), x, y)
    requires !SpriteBits(mem[i + y - y0])[x - x0]
    ensures !SpriteDrawn(f, mem, i, x0, y0, n).frame[y][x]
    ensures f[y][x] ==> SpriteDrawn(f, mem, i, x0, y0, n).frame[y][x] != (f[y][x] != SpriteBits(mem[i + y - y0])[x - x0])
  {
    SpriteDrawnPixels(f, mem, i, x0, y0, n);
  }

  // ---------------------------------------------------------------- the bits of a sprite row

  /** `SpriteBits` is the source's `bits` array: the mask tests `(sprite & 0b10000000) != 0`,
      ..., `(sprite & 0b00000001) != 0`, each written `(sprite / mask) % 2 == 1` for its
      one-bit mask. */
  lemma BitsAreMaskTests(sprite: byte)
    ensures var bits := SpriteBits(sprite);
      && bits[0] == ((sprite / 0x80) % 2 == 1) && bits[1] == ((sprite / 0x40) % 2 == 1)
      && bits[2] == ((sprite / 0x20) % 2 == 1) && bits[3] == ((sprite / 0x10) % 2 == 1)
      && bits[4] == ((sprite / 0x08) % 2 == 1) && bits[5] == ((sprite / 0x04) % 2 == 1)
      && bits[6] == ((sprite / 0x02) % 2 == 1) && bits[7] == ((sprite / 0x01) % 2 == 1)
  {
    MaskTest(sprite, 0);
    MaskTest(sprite, 1);
    MaskTest(sprite, 2);
    MaskTest(sprite, 3);
    MaskTest(sprite, 4);
    MaskTest(sprite, 5);
    MaskTest(sprite, 6);
    MaskTest(sprite, 7);
  }

  /** Bit `c` of a sprite row is the last bit of the quotient by `2^(7 - c)`. */
  lemma MaskTest(sprite: byte, c: int)
    requires 0 <= c < 8
    ensures SpriteBits(sprite)[c] == ((sprite / Pow2(7 - c)) % 2 == 1)
  {
    SpriteBitsByHalving(sprite);
    HalvedIsQuotient(sprite, 7 - c);
  }

  /** `s` halved `t` times. */
  function Halved(s: int, t: nat): int
    decreases t
  {
    if t == 0 then s else Halved(s / 2, t - 1)
  }

  function Pow2(t: nat): (p: int)
    ensures p > 0
  {
    if t == 0 then 1 else 2 * Pow2(t - 1)
  }

  /** `SpriteBits` unfolded: bit `c` is the last bit of `sprite` halved `7 - c` times. */
  lemma SpriteBitsByHalving(sprite: byte)
    ensures forall c :: 0 <= c < 8 ==> SpriteBits(sprite)[c] == (Halved(sprite, 7 - c) % 2 == 1)
  {
    forall c | 0 <= c < 8
      ensures SpriteBits(sprite)[c] == (Halved(sprite, 7 - c) % 2 == 1)
    {
      LowBitsIndex(sprite, 8, c);
    }
  }

  /** Bit `j` of the `k` low bits, most significant first, is the last bit of `s` halved
      `k - 1 - j` times. */
  lemma {:induction false} LowBitsIndex(s: int, k: nat, j: int)
    requires 0 <= j < k
    ensures LowBits(s, k)[j] == (Halved(s, k - 1 - j) % 2 == 1)
    decreases k
  {
    if j < k - 1 {
      LowBitsIndex(s / 2, k - 1, j);
    }
  }

  /** Halving `t` times divides by `2^t`. */
  lemma {:induction false} HalvedIsQuotient(s: int, t: nat)
    requires 0 <= s
    ensures Halved(s, t) == s / Pow2(t)
    decreases t
  {
    if t > 0 {
      HalvedIsQuotient(s / 2, t - 1);
      HalveThenDivide(s, Pow2(t - 1));
    }
  }

  /** Halving and then dividing by `d` divides by `2 * d`. */
  lemma HalveThenDivide(a: int, d: int)
    requires 0 <= a && 0 < d
    ensures (a / 2) / d == a / (2 * d)
  {
    var q := a / 2;
    var r := a % 2;
    var q2 := q / d;
    var r2 := q % d;
    assert a == 2 * q + r;
    assert q == d * q2 + r2;
    assert 2 * q == (2 * d) * q2 + 2 * r2;
    assert 0 <= 2 * r2 + r < 2 * d;
    DivModUnique(a, 2 * d, q2, 2 * r2 + r);
  }
}
