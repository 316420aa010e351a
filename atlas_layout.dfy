/**
 * The sprite-sheet layout of one capture: how many frames a clip yields, the
 * side of the square grid of cells, the size of the two atlases, and where the
 * cell of each frame lies.  Texture coordinates have their origin at the
 * bottom-left corner, so the first frame goes to the top-left cell and the grid
 * is filled left to right, one row after the other, downwards.
 */
module AtlasLayout {
  import opened Engine
  import opened Arithmetic

  /** Largest atlas side, in pixels, that a capture produces without an error being logged. */
  const MaxAtlasSide: int := 4096

  /** `(int)(length * framesPerSecond)`: the product truncated toward zero. */
  function FrameCount(length: real, framesPerSecond: int): (n: int)
    ensures length * framesPerSecond as real >= 0.0 ==>
      0 <= n && n as real <= length * framesPerSecond as real < n as real + 1.0
    ensures length * framesPerSecond as real < 0.0 ==>
      n <= 0 && n as real - 1.0 < length * framesPerSecond as real <= n as real
  {
    var p := length * framesPerSecond as real;
    if p >= 0.0 then p.Floor else -((-p).Floor)
  }

  /** `Mathf.CeilToInt(Mathf.Sqrt(input))`, on exact integers: the least g whose square reaches `input`
      (see SqrtCeilIsLeast). */
  function SqrtCeil(input: nat): (g: nat)
    ensures input <= g * g
    ensures g == 0 || (g - 1) * (g - 1) < input
    ensures 1 <= input ==> 1 <= g
  {
    SqrtCeilFrom(input, 0)
  }

  /** The search behind SqrtCeil: the least g >= k whose square reaches `input`. */
  function SqrtCeilFrom(input: nat, k: nat): (g: nat)
    requires k == 0 || (k - 1) * (k - 1) < input
    ensures input <= g * g
    ensures g == 0 || (g - 1) * (g - 1) < input
    decreases input - k
  {
    if input <= k * k then k
    else
      assert k <= k * k by {
        if k >= 1 { MulMonotone(1, k, k); }
      }
      SqrtCeilFrom(input, k + 1)
  }

  /** No natural number smaller than SqrtCeil(input) has a square that reaches `input`. */
  lemma SqrtCeilIsLeast(input: nat, k: nat)
    requires input <= k * k
    ensures SqrtCeil(input) <= k
  {
    var g := SqrtCeil(input);
    if k < g {
      MulMonotone(k, g - 1, k);
      MulMonotone(k, g - 1, g - 1);
      assert false;
    }
  }

  /** The grid of one capture: the size of a cell in pixels and the number of cells per side. */
  datatype Layout = Layout(cell: Vec2, grid: nat)

  /** Cells of at least one pixel, and at least one cell. */
  predicate ValidLayout(l: Layout)
  {
    l.cell.x >= 1 && l.cell.y >= 1 && l.grid >= 1
  }

  /** The layout chosen for `numFrames` frames of size `cell`: a square grid with room for every
      frame, and at least one cell once there is a frame (PlanFits shows it is the smallest). */
  function Plan(numFrames: nat, cell: Vec2): (l: Layout)
    ensures l.cell == cell
    ensures numFrames <= l.grid * l.grid
    ensures numFrames >= 1 ==> l.grid >= 1
  {
    Layout(cell, SqrtCeil(numFrames))
  }

  /** The size of both atlases: exactly `grid` whole cells along each side. */
  function AtlasSize(l: Layout): (size: Vec2)
    ensures l.cell.x >= 1 ==> size.x / l.cell.x == l.grid && size.x % l.cell.x == 0
    ensures l.cell.y >= 1 ==> size.y / l.cell.y == l.grid && size.y % l.cell.y == 0
  {
    assert l.cell.x >= 1 ==> (l.cell.x * l.grid) / l.cell.x == l.grid && (l.cell.x * l.grid) % l.cell.x == 0 by {
      if l.cell.x >= 1 { DivModOfSum(l.grid, l.cell.x, 0); }
    }
    assert l.cell.y >= 1 ==> (l.cell.y * l.grid) / l.cell.y == l.grid && (l.cell.y * l.grid) % l.cell.y == 0 by {
      if l.cell.y >= 1 { DivModOfSum(l.grid, l.cell.y, 0); }
    }
    Vec2(l.cell.x * l.grid, l.cell.y * l.grid)
  }

  /** Whether an atlas of this size makes the capture log an error. */
  predicate Oversize(size: Vec2)
  {
    size.x > MaxAtlasSide || size.y > MaxAtlasSide
  }

  /** The atlas of a layout is oversize exactly when the grid has more cells per side than fit into
      MaxAtlasSide along the width or along the height. */
  lemma OversizeGrid(l: Layout)
    requires ValidLayout(l)
    ensures Oversize(AtlasSize(l)) <==> l.grid > MaxAtlasSide / l.cell.x || l.grid > MaxAtlasSide / l.cell.y
  {
    FitsSide(l.cell.x, l.grid);
    FitsSide(l.cell.y, l.grid);
  }

  /** `g` cells of `c` pixels fit into MaxAtlasSide pixels exactly when g is at most MaxAtlasSide / c. */
  lemma FitsSide(c: int, g: int)
    requires 1 <= c && 0 <= g
    ensures c * g <= MaxAtlasSide <==> g <= MaxAtlasSide / c
  {
    var q := MaxAtlasSide / c;
    if g <= q {
      MulMonotone(g, q, c);
    } else {
      MulMonotone(q + 1, g, c);
    }
  }

  /** The grid that Plan chooses has room for every frame, is the smallest square grid that has, and
      is a valid layout once there is a frame and cells are non-empty. */
  lemma PlanFits(numFrames: nat, cell: Vec2, k: nat)
    requires numFrames <= k * k
    ensures var l := Plan(numFrames, cell);
      && numFrames <= l.grid * l.grid && l.grid <= k
      && (numFrames >= 1 && cell.x >= 1 && cell.y >= 1 ==> ValidLayout(l))
  {
    SqrtCeilIsLeast(numFrames, k);
  }

  /** Where the first frame goes: the left end of the top row of cells, whose top edge is the top
      edge of the atlas. */
  function StartPos(l: Layout): (p: Vec2)
    ensures p.x == 0 && p.y + l.cell.y == AtlasSize(l).y
    ensures ValidLayout(l) ==> 0 <= p.y
  {
    assert ValidLayout(l) ==> l.cell.y <= l.grid * l.cell.y by {
      if ValidLayout(l) { MulMonotone(1, l.grid, l.cell.y); }
    }
    Vec2(0, AtlasSize(l).y - l.cell.y)
  }

  /** The position of the cell after the one at `pos`, which holds frame `frame`: one cell to the right,
      or, after the last cell of a row, the left end of the row below. */
  function NextPos(l: Layout, pos: Vec2, frame: int): Vec2
    requires l.grid >= 1
  {
    var stepped := pos.(x := pos.x + l.cell.x);
    if (frame + 1) % l.grid == 0 then Vec2(0, stepped.y - l.cell.y) else stepped
  }

  /** The bottom-left corner of the cell of frame i, in closed form: column i % grid, row i / grid
      counted down from the top. */
  function CellPos(l: Layout, i: nat): Vec2
    requires l.grid >= 1
  {
    Vec2((i % l.grid) * l.cell.x, AtlasSize(l).y - l.cell.y - (i / l.grid) * l.cell.y)
  }

  /** Whether pixel (x, y) is covered by the cell of frame i. */
  predicate InCell(l: Layout, i: nat, x: int, y: int)
    requires l.grid >= 1
  {
    var p := CellPos(l, i);
    p.x <= x < p.x + l.cell.x && p.y <= y < p.y + l.cell.y
  }

  /** Whether pixel (x, y) is a pixel of the atlas. */
  predicate InAtlas(l: Layout, x: int, y: int)
  {
    0 <= x < AtlasSize(l).x && 0 <= y < AtlasSize(l).y
  }

  /** The frame whose cell covers pixel (x, y) of the atlas (see CellMembership). */
  function FrameAt(l: Layout, x: int, y: int): int
    requires ValidLayout(l)
  {
    (l.grid - 1 - y / l.cell.y) * l.grid + x / l.cell.x
  }

  /** Stepping the position the way the capture loop does visits exactly the closed-form cells:
      it starts at the cell of frame 0 and moves from the cell of frame i to that of frame i + 1. */
  lemma PositionStepping(l: Layout, i: nat)
    requires l.grid >= 1
    ensures StartPos(l) == CellPos(l, 0)
    ensures NextPos(l, CellPos(l, i), i) == CellPos(l, i + 1)
  {
    var g := l.grid;
    var q, r := i / g, i % g;
    assert i == q * g + r;
    if r == g - 1 {
      DivModOfSum(q + 1, g, 0);
      assert i + 1 == (q + 1) * g + 0;
      assert (i + 1) / g == q + 1 && (i + 1) % g == 0;
    } else {
      DivModOfSum(q, g, r + 1);
      assert (i + 1) / g == q && (i + 1) % g == r + 1;
    }
  }

  /** Four frames of 10 by 10 pixels: a 2 by 2 grid in a 20 by 20 atlas, filled top row first, left to
      right, at (0, 10), (10, 10), (0, 0), (10, 0). */
  lemma FourFrameLayout()
    ensures var l := Plan(4, Vec2(10, 10));
      && l.grid == 2 && AtlasSize(l) == Vec2(20, 20) && StartPos(l) == Vec2(0, 10)
      && CellPos(l, 0) == Vec2(0, 10) && CellPos(l, 1) == Vec2(10, 10)
      && CellPos(l, 2) == Vec2(0, 0) && CellPos(l, 3) == Vec2(10, 0)
  {
    SqrtCeilIsLeast(4, 2);
  }

  /** The cell of every frame that fits the grid lies inside the atlas. */
  lemma CellInsideAtlas(l: Layout, i: nat)
    requires ValidLayout(l) && i < l.grid * l.grid
    ensures var p := CellPos(l, i);
      0 <= p.x && p.x + l.cell.x <= AtlasSize(l).x && 0 <= p.y && p.y + l.cell.y <= AtlasSize(l).y
  {
    var g, w, h := l.grid, l.cell.x, l.cell.y;
    var q, r := i / g, i % g;
    DivBelow(i, g, g);
    MulMonotone(r + 1, g, w);
    MulMonotone(q + 1, g, h);
    assert CellPos(l, i).y == (g - 1 - q) * h;
    MulMonotone(0, g - 1 - q, h);
  }

  /** Pixel (x, y) of the atlas lies in the cell of frame i exactly when FrameAt names i. */
  lemma CellMembership(l: Layout, i: nat, x: int, y: int)
    requires ValidLayout(l) && i < l.grid * l.grid && InAtlas(l, x, y)
    ensures InCell(l, i, x, y) <==> FrameAt(l, x, y) == i
  {
    var g, w, h := l.grid, l.cell.x, l.cell.y;
    var q, r := i / g, i % g;
    assert i == q * g + r;
    DivBelow(i, g, g);
    var col, row := x / w, y / h;
    DivBelow(x, w, g);
    DivBelow(y, h, g);
    assert CellPos(l, i) == Vec2(r * w, (g - 1 - q) * h);
    DivIff(x, w, r);
    DivIff(y, h, g - 1 - q);
    assert InCell(l, i, x, y) <==> col == r && row == g - 1 - q;
    DivModOfSum(g - 1 - row, g, col);
    assert FrameAt(l, x, y) == (g - 1 - row) * g + col;
  }

  /** Every pixel of the atlas belongs to the cell of exactly one frame that fits the grid, the one FrameAt names. */
  lemma FrameAtInGrid(l: Layout, x: int, y: int)
    requires ValidLayout(l) && InAtlas(l, x, y)
    ensures 0 <= FrameAt(l, x, y) < l.grid * l.grid
    ensures InCell(l, FrameAt(l, x, y), x, y)
    ensures forall i: nat :: i < l.grid * l.grid && InCell(l, i, x, y) ==> i == FrameAt(l, x, y)
  {
    var g := l.grid;
    DivBelow(x, l.cell.x, g);
    DivBelow(y, l.cell.y, g);
    var row, col := g - 1 - y / l.cell.y, x / l.cell.x;
    var f := FrameAt(l, x, y);
    assert f == row * g + col;
    GridIndexBound(row, col, g);
    CellMembership(l, f, x, y);
    forall i: nat | i < g * g && InCell(l, i, x, y)
      ensures i == f
    {
      CellMembership(l, i, x, y);
    }
  }

  /** The cells of two different frames share no pixel. */
  lemma CellsDisjoint(l: Layout, i: nat, j: nat, x: int, y: int)
    requires ValidLayout(l) && i < l.grid * l.grid && j < l.grid * l.grid && i != j
    ensures !(InCell(l, i, x, y) && InCell(l, j, x, y))
  {
    if InCell(l, i, x, y) {
      CellInsideAtlas(l, i);
      CellMembership(l, i, x, y);
      CellMembership(l, j, x, y);
    }
  }
}
