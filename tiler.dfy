/** Slicing a rendered page into a row-major grid of square tiles (tiler.py).
    The image is represented only by its width and height; a tile by its offset
    on the page and the exclusive end of its crop rectangle. */
module Tiler {

  /** Size of each square tile in pixels (constants.py). */
  const TilePx: nat := 1200

  /** The stride the default configuration produces: int(1200 * (1 - 0.15)).
      The float product itself is not part of this model. */
  const DefaultStride: nat := 1020

  /** A tile: crop rectangle [xOff, xEnd) x [yOff, yEnd) of the page. */
  datatype Tile = Tile(xOff: nat, yOff: nat, xEnd: nat, yEnd: nat)

  function Min(a: nat, b: nat): (r: nat)
  {
    if a <= b then a else b
  }

  /** len(range(0, n, s)): how many of 0, s, 2s, ... lie below n. */
  function Steps(n: nat, s: nat): (r: nat)
    requires s >= 1
  {
    (n + s - 1) / s
  }

  /** True iff pixel (px, py) lies inside the crop rectangle of t. */
  predicate Covers(t: Tile, px: nat, py: nat)
  {
    t.xOff <= px < t.xEnd && t.yOff <= py < t.yEnd
  }

  /** The tile slice_image emits at grid position (row, col). */
  function CellTile(width: nat, height: nat, tile: nat, stride: nat, row: nat, col: nat): (r: Tile)
  {
    var x := col * stride;
    var y := row * stride;
    Tile(x, y, Min(x + tile, width), Min(y + tile, height))
  }

  /** The k-th tile in row-major order of a grid with Steps(width, stride) columns. */
  function TileAt(width: nat, height: nat, tile: nat, stride: nat, k: nat): (r: Tile)
    requires stride >= 1 && Steps(width, stride) >= 1
  {
    var cols := Steps(width, stride);
    CellTile(width, height, tile, stride, k / cols, k % cols)
  }

  /** The whole grid: Steps(height) rows of Steps(width) tiles, row after row. */
  function Grid(width: nat, height: nat, tile: nat, stride: nat): (r: seq<Tile>)
    requires stride >= 1
  {
    var rows, cols := Steps(height, stride), Steps(width, stride);
    if cols == 0 then []
    else seq(rows * cols, k requires 0 <= k < rows * cols => TileAt(width, height, tile, stride, k))
  }

  /** slice_image: y over range(0, height, stride), x over range(0, width, stride),
      one tile per (x, y) with its crop clamped to the image. */
  method SliceImage(width: nat, height: nat, tile: nat, stride: nat) returns (tiles: seq<Tile>)
    requires stride >= 1
    ensures tiles == Grid(width, height, tile, stride)
  {
    ghost var rows, cols := Steps(height, stride), Steps(width, stride);
    tiles := [];
    var y := 0;
    ghost var row := 0;
    while y < height
      invariant y == row * stride && row <= rows
      invariant |tiles| == row * cols
      invariant cols >= 1 ==> forall k :: 0 <= k < |tiles| ==> tiles[k] == TileAt(width, height, tile, stride, k)
    {
      StepsBound(height, stride, row);
      var x := 0;
      ghost var col := 0;
      while x < width
        invariant x == col * stride && col <= cols
        invariant |tiles| == row * cols + col
        invariant cols >= 1 ==> forall k :: 0 <= k < |tiles| ==> tiles[k] == TileAt(width, height, tile, stride, k)
      {
        StepsBound(width, stride, col);
        NextTile(width, height, tile, stride, row, col);
        tiles := tiles + [Tile(x, y, Min(x + tile, width), Min(y + tile, height))];
        x, col := x + stride, col + 1;
        assert x == col * stride by { Distribute(col - 1, stride); }
      }
      StepsBound(width, stride, col);
      y, row := y + stride, row + 1;
      assert y == row * stride by { Distribute(row - 1, stride); }
      assert |tiles| == row * cols by { Distribute(row - 1, cols); }
    }
    StepsBound(height, stride, row);
  }

  /** The tile appended at grid position (row, col) is TileAt its row-major index. */
  lemma NextTile(width: nat, height: nat, tile: nat, stride: nat, row: nat, col: nat)
    requires stride >= 1 && col < Steps(width, stride)
    ensures TileAt(width, height, tile, stride, row * Steps(width, stride) + col)
         == Tile(col * stride, row * stride, Min(col * stride + tile, width), Min(row * stride + tile, height))
  {
    CellIndex(row, col, Steps(width, stride));
  }

  lemma Distribute(a: nat, b: nat)
    ensures (a + 1) * b == a * b + b
  {
  }

  // ---------------------------------------------------------------------------
  // Arithmetic helpers

  lemma MulLe(a: nat, b: nat, s: nat)
    requires a <= b
    ensures a * s <= b * s
  {
    var d := b - a;
    assert b * s == a * s + d * s;
  }

  /** Index row * cols + col of a row-major grid decodes back to (row, col). */
  lemma CellIndex(row: nat, col: nat, cols: nat)
    requires col < cols
    ensures (row * cols + col) / cols == row && (row * cols + col) % cols == col
  {
    var n := row * cols + col;
    var q, m := n / cols, n % cols;
    assert n == q * cols + m;
    if q > row {
      MulLe(row + 1, q, cols);
      assert false;
    } else if q < row {
      MulLe(q + 1, row, cols);
      assert false;
    }
  }

  /** r is below the number of steps exactly when r * s is below n. */
  lemma StepsBound(n: nat, s: nat, r: nat)
    requires s >= 1
    ensures r < Steps(n, s) <==> r * s < n
  {
    var c := Steps(n, s);
    assert c * s <= n + s - 1 < c * s + s;
    if r < c {
      MulLe(r, c - 1, s);
    } else {
      MulLe(c, r, s);
    }
  }

  lemma DivMono(i: nat, j: nat, d: nat)
    requires i <= j && d >= 1
    ensures i / d <= j / d
  {
    if i / d > j / d {
      MulLe(j / d + 1, i / d, d);
      assert false;
    }
  }

  // ---------------------------------------------------------------------------
  // Properties of the grid

  /** The grid has Steps(height) * Steps(width) tiles; it is empty exactly when
      the image has no pixels. */
  lemma TileCount(width: nat, height: nat, tile: nat, stride: nat)
    requires stride >= 1
    ensures |Grid(width, height, tile, stride)| == Steps(height, stride) * Steps(width, stride)
    ensures |Grid(width, height, tile, stride)| == 0 <==> width == 0 || height == 0
  {
    StepsBound(width, stride, 0);
    StepsBound(height, stride, 0);
  }

  /** The tile at grid position (row, col) sits at index row * cols + col and has
      offset (col * stride, row * stride): y is the outer loop, x the inner one. */
  lemma GridCell(width: nat, height: nat, tile: nat, stride: nat, row: nat, col: nat)
    requires stride >= 1
    requires row < Steps(height, stride) && col < Steps(width, stride)
    ensures row * Steps(width, stride) + col < |Grid(width, height, tile, stride)|
    ensures Grid(width, height, tile, stride)[row * Steps(width, stride) + col]
         == CellTile(width, height, tile, stride, row, col)
  {
    var rows, cols := Steps(height, stride), Steps(width, stride);
    MulLe(row + 1, rows, cols);
    CellIndex(row, col, cols);
  }

  /** Every offset is a multiple of the stride inside the image, and every crop is
      non-empty, inside the image, and shorter than a full tile only where it meets
      the right or bottom edge. */
  lemma TileInside(width: nat, height: nat, tile: nat, stride: nat, k: nat)
    requires stride >= 1 && tile >= 1
    requires k < |Grid(width, height, tile, stride)|
    ensures var t := Grid(width, height, tile, stride)[k];
      && t.xOff % stride == 0 && t.yOff % stride == 0
      && t.xOff < t.xEnd <= width && t.yOff < t.yEnd <= height
      && t.xEnd == Min(t.xOff + tile, width) && t.yEnd == Min(t.yOff + tile, height)
      && (t.xEnd < t.xOff + tile ==> t.xEnd == width)
      && (t.yEnd < t.yOff + tile ==> t.yEnd == height)
  {
    var rows, cols := Steps(height, stride), Steps(width, stride);
    var row, col := k / cols, k % cols;
    assert k == row * cols + col;
    if row >= rows {
      MulLe(rows, row, cols);
      assert false;
    }
    StepsBound(width, stride, col);
    StepsBound(height, stride, row);
    CellIndex(col, 0, stride);
    CellIndex(row, 0, stride);
  }

  /** The k-th tile of the grid is the one at row k / cols, column k % cols. */
  lemma GridIndex(width: nat, height: nat, tile: nat, stride: nat, k: nat)
    requires stride >= 1
    requires k < |Grid(width, height, tile, stride)|
    ensures Steps(width, stride) >= 1
    ensures Grid(width, height, tile, stride)[k]
         == CellTile(width, height, tile, stride, k / Steps(width, stride), k % Steps(width, stride))
  {
  }

  /** Tiles come out in row-major order: by y first, then by x. */
  lemma RowMajor(width: nat, height: nat, tile: nat, stride: nat, i: nat, j: nat)
    requires stride >= 1
    requires i < j < |Grid(width, height, tile, stride)|
    ensures var g := Grid(width, height, tile, stride);
      g[i].yOff < g[j].yOff || (g[i].yOff == g[j].yOff && g[i].xOff < g[j].xOff)
  {
    GridIndex(width, height, tile, stride, i);
    GridIndex(width, height, tile, stride, j);
    var cols := Steps(width, stride);
    RowMajorCells(i, j, cols, stride);
  }

  lemma RowMajorCells(i: nat, j: nat, cols: nat, stride: nat)
    requires i < j && cols >= 1 && stride >= 1
    ensures var ri, rj, ci, cj := i / cols, j / cols, i % cols, j % cols;
      ri * stride < rj * stride || (ri == rj && ci * stride < cj * stride)
  {
    DivMono(i, j, cols);
    var ri, rj, ci, cj := i / cols, j / cols, i % cols, j % cols;
    if ri < rj {
      MulLe(ri + 1, rj, stride);
    } else {
      assert i == ri * cols + ci && j == ri * cols + cj;
      MulLe(ci + 1, cj, stride);
    }
  }

  /** Coverage: with stride <= tile every pixel of the image lies in some tile, so
      pasting the crops back at their offsets rebuilds the whole image. */
  lemma Coverage(width: nat, height: nat, tile: nat, stride: nat, px: nat, py: nat)
    requires 1 <= stride <= tile
    requires px < width && py < height
    ensures exists k :: 0 <= k < |Grid(width, height, tile, stride)|
                     && Covers(Grid(width, height, tile, stride)[k], px, py)
  {
    var row, col := py / stride, px / stride;
    assert py == row * stride + py % stride;
    assert px == col * stride + px % stride;
    StepsBound(height, stride, row);
    StepsBound(width, stride, col);
    GridCell(width, height, tile, stride, row, col);
    var k := row * Steps(width, stride) + col;
    var t := CellTile(width, height, tile, stride, row, col);
    assert t.xOff == col * stride && t.yOff == row * stride;
    assert Covers(t, px, py);
  }

  /** A smaller stride never gives fewer steps along one axis. */
  lemma StepsAntitone(n: nat, s1: nat, s2: nat)
    requires 1 <= s1 <= s2
    ensures Steps(n, s1) >= Steps(n, s2)
  {
    var c1, c2 := Steps(n, s1), Steps(n, s2);
    if c1 < c2 {
      StepsBound(n, s2, c1);
      StepsBound(n, s1, c1);
      MulLe(s1, s2, c1);
      assert false;
    }
  }

  /** A smaller stride never yields fewer tiles, whatever the tile size. */
  lemma CountAntitone(width: nat, height: nat, tile1: nat, tile2: nat, s1: nat, s2: nat)
    requires 1 <= s1 <= s2
    ensures |Grid(width, height, tile1, s1)| >= |Grid(width, height, tile2, s2)|
  {
    TileCount(width, height, tile1, s1);
    TileCount(width, height, tile2, s2);
    var r1, c1, r2, c2 := Steps(height, s1), Steps(width, s1), Steps(height, s2), Steps(width, s2);
    StepsAntitone(width, s1, s2);
    StepsAntitone(height, s1, s2);
    MulLe2(r2, r1, c2, c1);
  }

  lemma MulLe2(a: nat, b: nat, c: nat, d: nat)
    requires a <= b && c <= d
    ensures a * c <= b * d
  {
    MulLe(a, b, c);
    MulLe(c, d, b);
  }

  /** A 1000 x 800 page at tile 500 without overlap (stride 500) gives exactly the
      four tiles at (0,0), (500,0), (0,500), (500,500). */
  lemma NoOverlapGrid()
    ensures Grid(1000, 800, 500, 500)
         == [Tile(0, 0, 500, 500), Tile(500, 0, 1000, 500), Tile(0, 500, 500, 800), Tile(500, 500, 1000, 800)]
  {
    var g := Grid(1000, 800, 500, 500);
    assert Steps(1000, 500) == 2 && Steps(800, 500) == 2;
    assert |g| == 4;
    assert g[0] == CellTile(1000, 800, 500, 500, 0, 0);
    assert g[1] == CellTile(1000, 800, 500, 500, 0, 1);
    assert g[2] == CellTile(1000, 800, 500, 500, 1, 0);
    assert g[3] == CellTile(1000, 800, 500, 500, 1, 1);
  }

  /** On a 1000 x 800 page: tile 500 vs 200 at overlap 0.1 (strides 450, 180), and
      overlap 0.05 vs 0.3 at tile 300 (strides 285, 210) give strictly more tiles
      for the smaller tile and for the larger overlap. */
  lemma OverlapCounts()
    ensures |Grid(1000, 800, 500, 450)| == 6 && |Grid(1000, 800, 200, 180)| == 30
    ensures |Grid(1000, 800, 300, 285)| == 12 && |Grid(1000, 800, 300, 210)| == 20
  {
    TileCount(1000, 800, 500, 450);
    TileCount(1000, 800, 200, 180);
    TileCount(1000, 800, 300, 285);
    TileCount(1000, 800, 300, 210);
  }
}
