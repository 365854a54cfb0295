/** The 64x32 monochrome framebuffer. Pixel state lives in a Java `boolean[32][64]`:
    an array of row arrays, indexed `pixels[y][x]`. */
module Screens {
  import opened JavaInt
  import opened Wrappers

  const Width: int := 64
  const Height: int := 32

  /** A frame value: `Height` rows of `Width` pixels, read as `f[y][x]`. */
  ghost predicate IsFrame(f: seq<seq<bool>>) {
    |f| == Height && forall y :: 0 <= y < Height ==> |f[y]| == Width
  }

  predicate InBounds(x: int, y: int) {
    0 <= x < Width && 0 <= y < Height
  }

  /** The frame with every pixel off. */
  function Blank(): (f: seq<seq<bool>>)
    ensures IsFrame(f)
    ensures forall y, x :: InBounds(x, y) ==> !f[y][x]
  {
    seq(Height, _ => seq(Width, _ => false))
  }

  /** The frame `f` with pixel `(x, y)` set to `on`. */
  function Plot(f: seq<seq<bool>>, x: int, y: int, on: bool): (g: seq<seq<bool>>)
    requires IsFrame(f) && InBounds(x, y)
    ensures IsFrame(g)
    ensures g[y][x] == on
  {
    f[y := f[y][x := on]]
  }

  /** Reading a pixel after `Plot`: the plotted pixel reads `on`, every other pixel reads
      what it did before (rows are indexed by `y`, columns by `x`). */
  lemma PlotThenGet(f: seq<seq<bool>>, x: int, y: int, on: bool, x': int, y': int)
    requires IsFrame(f) && InBounds(x, y) && InBounds(x', y')
    ensures Plot(f, x, y, on)[y'][x'] == if x' == x && y' == y then on else f[y'][x']
  {
  }

  /** `Arrays.hashCode(boolean[])`: start at 1, then `31 * h + (b ? 1231 : 1237)` per element, in `int`. */
  function RowHash(row: seq<bool>): int32
    decreases |row|
  {
    if row == [] then 1
    else Wrap32(31 * RowHash(row[..|row| - 1]) + (if row[|row| - 1] then 1231 else 1237))
  }

  /** `Arrays.deepHashCode(boolean[][])`: start at 1, then `31 * h + Arrays.hashCode(row)` per row, in `int`. */
  function FrameHash(f: seq<seq<bool>>): int32
    decreases |f|
  {
    if f == [] then 1 else Wrap32(31 * FrameHash(f[..|f| - 1]) + RowHash(f[|f| - 1]))
  }

  /** `Arrays.deepHashCode` sees each row only through `Arrays.hashCode`: frames with the same
      number of rows and pairwise equal row hashes hash alike. */
  lemma {:induction false} FrameHashByRows(f: seq<seq<bool>>, g: seq<seq<bool>>)
    requires |f| == |g| && forall y :: 0 <= y < |f| ==> RowHash(f[y]) == RowHash(g[y])
    ensures FrameHash(f) == FrameHash(g)
    decreases |f|
  {
    if f != [] {
      var k := |f| - 1;
      FrameHashByRows(f[..k], g[..k]);
    }
  }

  /** A fresh `new boolean[32][64]`: fresh, pairwise distinct rows, every pixel off. */
  method NewPixels() returns (p: array<array<bool>>)
    ensures fresh(p) && p.Length == Height
    ensures forall y :: 0 <= y < Height ==> fresh(p[y]) && p[y].Length == Width
    ensures forall y, x :: 0 <= y < Height && 0 <= x < Width ==> !p[y][x]
    ensures forall y, y' :: 0 <= y < Height && 0 <= y' < Height && y != y' ==> p[y] != p[y']
  {
    var placeholder := new bool[Width](_ => false);
    p := new array<bool>[Height](_ => placeholder);
    for y := 0 to Height
      invariant forall k :: 0 <= k < y ==> fresh(p[k]) && p[k].Length == Width
      invariant forall k, x :: 0 <= k < y && 0 <= x < Width ==> !p[k][x]
      invariant forall k, k' :: 0 <= k < y && 0 <= k' < y && k != k' ==> p[k] != p[k']
    {
      var row := new bool[Width](_ => false);
      p[y] := row;
    }
  }

  class Screen {
    var pixels: array<array<bool>>
    /** The pixel contents, as a frame value. */
    ghost var grid: seq<seq<bool>>
    /** The objects this screen is made of: itself, the row table and the rows. */
    ghost var Repr: set<object>

    ghost predicate Valid()
      reads this, Repr
    {
      && this in Repr && pixels in Repr
      && pixels.Length == Height
      && (forall y :: 0 <= y < Height ==> pixels[y] in Repr && pixels[y].Length == Width)
      && Repr == {this, pixels} + RowSet()
      && (forall y, y' :: 0 <= y < Height && 0 <= y' < Height && y != y' ==> pixels[y] != pixels[y'])
      && IsFrame(grid)
      && (forall y, x :: 0 <= y < Height && 0 <= x < Width ==> pixels[y][x] == grid[y][x])
    }

    ghost function RowSet(): set<object>
      reads this, pixels
    {
      set y | 0 <= y < pixels.Length :: pixels[y]
    }

    constructor ()
      ensures Valid() && fresh(Repr)
      ensures grid == Blank()
    {
      var p := NewPixels();
      pixels := p;
      grid := Blank();
      new;
      Repr := {this, pixels} + RowSet();
    }

    /** `getWidth()`: the length of row 0. */
    function GetWidth(): (w: int)
      reads this, Repr
      requires Valid()
      ensures w == Width
    {
      pixels[0].Length
    }

    /** `getHeight()`: the number of rows. */
    function GetHeight(): (h: int)
      reads this, Repr
      requires Valid()
      ensures h == Height
    {
      pixels.Length
    }

    /** `getPixel(x, y)`: `pixels[y][x]`; `None` stands for the index exception Java throws
        when `(x, y)` is off the screen. */
    function GetPixel(x: int, y: int): (r: Option<bool>)
      reads this, Repr
      requires Valid()
      ensures r.Some? <==> InBounds(x, y)
      ensures r.Some? ==> r.value == grid[y][x]
    {
      if 0 <= y < pixels.Length && 0 <= x < pixels[y].Length then Some(pixels[y][x]) else None
    }

    /** `setPixel(x, y, on)`: writes `pixels[y][x]`; `ok` is false where Java throws, and then
        nothing changes. */
    method SetPixel(x: int, y: int, on: bool) returns (ok: bool)
      requires Valid()
      modifies Repr
      ensures Valid() && Repr == old(Repr) && pixels == old(pixels) && unchanged(pixels)
      ensures ok <==> InBounds(x, y)
      ensures grid == if ok then Plot(old(grid), x, y, on) else old(grid)
    {
      if 0 <= y < pixels.Length && 0 <= x < pixels[y].Length {
        pixels[y][x] := on;
        grid := Plot(grid, x, y, on);
        ok := true;
      } else {
        ok := false;
      }
    }

    /** `clear()`: replaces the pixel table with a fresh, all-off one. */
    method Clear()
      requires Valid()
      modifies this
      ensures Valid() && fresh(Repr - {this})
      ensures grid == Blank()
    {
      pixels := NewPixels();
      grid := Blank();
      Repr := {this, pixels} + RowSet();
    }

    /** The contents of every row, read from the pixel table. */
    function Contents(): (f: seq<seq<bool>>)
      reads this, Repr
      requires Valid()
      ensures f == grid
    {
      var f := seq(Height, (y: int)
        requires 0 <= y < pixels.Length
        reads this, pixels, if 0 <= y < pixels.Length then {pixels[y]} else {}
        => pixels[y][..]);
      assert forall y :: 0 <= y < Height ==> f[y] == grid[y];
      f
    }

    /** `hashCode()`: `Arrays.deepHashCode(pixels)`, a function of the pixel contents alone. */
    function HashCode(): (h: int32)
      reads this, Repr
      requires Valid()
      ensures h == FrameHash(grid)
    {
      FrameHash(Contents())
    }

    /** `equals(o)` for a screen `o` (or null): true for the same object; otherwise the row
        tables are compared with `Arrays.equals`, which compares the rows by reference. */
    function Equals(other: Screen?): (r: bool)
      reads this, Repr, other
      reads if other != null then other.Repr else {}
      requires Valid() && (other != null ==> other.Valid())
      ensures other == this ==> r
      ensures r ==> other != null && other.grid == grid
      ensures r <==> other == this || (other != null && SameRows(pixels, other.pixels))
    {
      if this == other then true
      else if other == null then false
      else if SameRows(pixels, other.pixels) then SharedRowsSameGrid(this, other); true
      else false
    }
  }

  /** `Arrays.equals(Object[], Object[])` on two row tables: the same table, or tables of the
      same length whose rows are the same objects. */
  predicate SameRows(a: array<array<bool>>, b: array<array<bool>>)
    reads a, b
    ensures SameRows(a, b) ==> a.Length == b.Length && forall y :: 0 <= y < a.Length ==> a[y] == b[y]
  {
    a == b || (a.Length == b.Length && forall y :: 0 <= y < a.Length ==> a[y] == b[y])
  }

  /** Screens whose row tables hold the same row objects show the same contents. */
  lemma SharedRowsSameGrid(a: Screen, b: Screen)
    requires a.Valid() && b.Valid() && SameRows(a.pixels, b.pixels)
    ensures a.grid == b.grid
  {
    forall y | 0 <= y < Height
      ensures a.grid[y] == b.grid[y]
    {
      assert a.pixels[y] == b.pixels[y];
    }
  }

  /** The contract of `hashCode` against `equals`: equal screens have equal hashes. */
  lemma EqualScreensHashAlike(a: Screen, b: Screen)
    requires a.Valid() && b.Valid() && a.Equals(b)
    ensures a.HashCode() == b.HashCode()
  {
  }

  /** `hashCode` is a deep hash: screens with the same pixel contents hash alike, whether or
      not `equals` holds between them. */
  lemma SameContentsHashAlike(a: Screen, b: Screen)
    requires a.Valid() && b.Valid() && a.grid == b.grid
    ensures a.HashCode() == b.HashCode()
  {
  }

  /** Two new screens hold the same (blank) contents, yet `equals` says they differ: their rows
      are distinct arrays, and the shallow comparison looks at row identity only. */
  method FreshScreensDiffer() returns (a: Screen, b: Screen)
    ensures a.Valid() && b.Valid() && a.grid == b.grid
    ensures !a.Equals(b)
  {
    a := new Screen();
    b := new Screen();
    assert a.pixels[0] != b.pixels[0];
  }
}
