// The running sandbox: the material vector, the frame counter and the selected
// material, updated in place once per frame by the step, the brush and the wheel.

module Sandbox {
  import opened Grid
  import opened Rules
  import Scan
  import Brush
  import opened Selection

  /**
   * The search over the two directions of a rule, stopping at the first on-grid
   * neighbour (offset dx from dirs, dy) that is free.
   */
  method FindFree(a: array<int>, x: int, y: int, dirs: seq<int>, dy: int, waterOk: bool) returns (t: Option<nat>)
    requires a.Length == Size
    ensures t == FirstFree(a[..], x, y, dirs, dy, waterOk)
  {
    t := None;
    for i := 0 to |dirs|
      invariant t == None
      invariant FirstFree(a[..], x, y, dirs[i..], dy, waterOk) == FirstFree(a[..], x, y, dirs, dy, waterOk)
    {
      assert dirs[i..][1..] == dirs[i + 1..];
      var c := TryMove(x, y, dirs[i], dy);
      if c.Some? && IsFree(a[c.value], waterOk) {
        t := c;
        break;
      }
    }
  }

  /** The Sand rule at (x, y), rewriting a in place. */
  method SandCell(a: array<int>, x: int, y: int, coin: bool)
    requires a.Length == Size && InGrid(x, y) && y < H - 1 && a[Index(x, y)] == Sand
    modifies a
    ensures a[..] == SandRule(old(a[..]), x, y, coin)
  {
    var idx := x + y * W;
    var below := x + (y + 1) * W;
    if a[below] == Empty || a[below] == Water {
      a[idx] := if a[below] != Water then Empty else Water;
      a[below] := Sand;
    } else {
      var target := FindFree(a, x, y, SandDirections(coin), 1, true);
      if target.Some? {
        a[idx] := if a[target.value] != Water then Empty else Water;
        a[target.value] := Sand;
      }
    }
  }

  /** The Water rule at (x, y), rewriting a in place. */
  method WaterCell(a: array<int>, x: int, y: int, frame: nat)
    requires a.Length == Size && InGrid(x, y) && y < H - 1 && a[Index(x, y)] == Water
    modifies a
    ensures a[..] == WaterRule(old(a[..]), x, y, frame)
  {
    var idx := x + y * W;
    var below := idx + W;
    if a[below] == Empty {
      a[idx] := Empty;
      a[below] := Water;
    } else {
      var dirs := WaterDirections(frame);
      var diag := FindFree(a, x, y, dirs, 1, false);
      if diag.Some? {
        a[idx] := Empty;
        a[diag.value] := Water;
      } else {
        var side := FindFree(a, x, y, dirs, 0, false);
        if side.Some? {
          a[idx] := Empty;
          a[side.value] := Water;
        }
      }
    }
  }

  /** The Stone rule at (x, y), rewriting a in place, with the program's order of writes and test. */
  method StoneCell(a: array<int>, x: int, y: int)
    requires a.Length == Size && InGrid(x, y) && y < H - 1 && a[Index(x, y)] == Stone
    modifies a
    ensures a[..] == StoneRule(old(a[..]), x, y)
  {
    var idx := x + y * W;
    var below := idx + W;
    if a[below] == Empty || a[below] == Water {
      a[below] := Stone;
      a[idx] := if a[below] == Water then Water else Empty;
    }
  }

  /** One visit of the scan: the rule for the material at (x, y), rewriting a in place. */
  method VisitCell(a: array<int>, x: int, y: int, frame: nat, coin: bool)
    requires a.Length == Size && InGrid(x, y)
    modifies a
    ensures a[..] == Visit(old(a[..]), x, y, frame, coin)
  {
    var idx := x + y * W;
    if a[idx] == Sand && y < H - 1 {
      SandCell(a, x, y, coin);
    } else if a[idx] == Water && y < H - 1 {
      WaterCell(a, x, y, frame);
    } else if a[idx] == Stone && y < H - 1 {
      StoneCell(a, x, y);
    }
  }

  /** Column x of the scan: rows from y = H-1 down to 0, each cell rewritten in place by its rule. */
  method ScanColumn(a: array<int>, x: int, frame: nat, coins: seq<bool>)
    requires a.Length == Size && 0 <= x < W && |coins| == Cells
    modifies a
    ensures a[..] == Scan.ColumnFrom(old(a[..]), x, H, frame, coins)
  {
    ghost var start := a[..];
    var y := H;
    while y > 0
      invariant 0 <= y <= H
      invariant Scan.ColumnFrom(a[..], x, y, frame, coins) == Scan.ColumnFrom(start, x, H, frame, coins)
    {
      y := y - 1;
      ghost var before := a[..];
      VisitCell(a, x, y, frame, coins[x + y * W]);
      assert Scan.ColumnFrom(a[..], x, y, frame, coins) == Scan.ColumnFrom(before, x, y + 1, frame, coins) by {
        Scan.ColumnFromVisit(before, x, y, frame, coins);
      }
    }
  }

  /** A frame keeps every cell a material code: the step moves codes, the brush writes one. */
  lemma FrameKeepsCodes(g: seq<int>, frame: nat, coins: seq<bool>, mx: int, my: int, left: bool, right: bool, selected: int)
    requires |g| == Size && |coins| == Cells && AllCodes(g) && 0 <= selected < 3
    ensures AllCodes(Brush.Paint(Scan.Step(g, frame, coins), mx, my, left, right, selected))
  {
    Scan.StepWritesOnlyCodes(g, frame, coins);
    Brush.PaintKeepsCodes(Scan.Step(g, frame, coins), mx, my, left, right, selected);
  }

  class Sandbox {
    /** The material vector: W * H cells in row-major order, then one padding cell. */
    var cells: array<int>
    /** Frames completed so far; its parity orders the Water rule's directions. */
    var frameCount: nat
    /** The material a left press places: 0 Sand, 1 Water, 2 Stone. */
    var selected: int

    ghost predicate Valid()
      reads this, cells
    {
      cells.Length == Size && 0 <= selected < 3 && AllCodes(cells[..])
    }

    /** The session start: every cell, padding included, Empty; Sand selected. */
    constructor ()
      ensures Valid() && fresh(cells)
      ensures cells[..] == seq(Size, _ => Empty)
      ensures frameCount == 0 && selected == 0
    {
      cells := new int[Size](_ => Empty);
      frameCount := 0;
      selected := 0;
    }

    /**
     * One step of the automaton: columns from x = W-1 down to 0, and in each column
     * rows from y = H-1 down to 0, each cell rewritten in place by its rule.
     */
    method Step(coins: seq<bool>)
      requires Valid() && |coins| == Cells
      modifies cells
      ensures Valid()
      ensures cells[..] == Scan.Step(old(cells[..]), frameCount, coins)
    {
      ghost var start := cells[..];
      var x := W;
      while x > 0
        invariant 0 <= x <= W
        invariant Scan.ColumnsFrom(cells[..], x, frameCount, coins) == Scan.Step(start, frameCount, coins)
      {
        x := x - 1;
        ghost var before := cells[..];
        ScanColumn(cells, x, frameCount, coins);
        assert Scan.ColumnsFrom(cells[..], x, frameCount, coins) == Scan.ColumnsFrom(before, x + 1, frameCount, coins) by {
          Scan.ColumnsFromColumn(before, x, frameCount, coins);
        }
      }
      Scan.StepWritesOnlyCodes(start, frameCount, coins);
    }

    /**
     * The brush: the mouse pixel is mapped to its cell and clamped onto the grid; a left
     * press writes the selected material's code there, then a right press writes Empty.
     */
    method Paint(mx: int, my: int, left: bool, right: bool)
      requires Valid()
      modifies cells
      ensures Valid()
      ensures cells[..] == Brush.Paint(old(cells[..]), mx, my, left, right, selected)
    {
      var x := Brush.PixelToCell(mx);
      var y := Brush.PixelToCell(my);
      x := Brush.Clamp(x, W - 1);
      y := Brush.Clamp(y, H - 1);
      if left {
        cells[x + y * W] := Brush.BrushCode(selected);
      }
      if right {
        cells[x + y * W] := Empty;
      }
      Brush.PaintKeepsCodes(old(cells[..]), mx, my, left, right, selected);
    }

    /** A wheel event: the selection moves delta places around the three materials. */
    method Scroll(delta: int)
      requires Valid()
      modifies this
      ensures Valid()
      ensures selected == Wheel(old(selected), delta)
      ensures cells == old(cells) && frameCount == old(frameCount)
    {
      selected := Wheel(selected, delta);
    }

    /**
     * One pass of the main loop: the step, the brush at the current mouse state, the
     * wheel events in order, and the frame counter advanced.
     */
    method Frame(coins: seq<bool>, mx: int, my: int, left: bool, right: bool, wheel: seq<int>)
      requires Valid() && |coins| == Cells
      modifies this, cells
      ensures Valid() && cells == old(cells)
      ensures cells[..] == Brush.Paint(Scan.Step(old(cells[..]), old(frameCount), coins), mx, my, left, right, old(selected))
      ensures selected == WheelAll(old(selected), wheel)
      ensures frameCount == old(frameCount) + 1
    {
      Step(coins);
      Paint(mx, my, left, right);
      ghost var painted := cells[..];
      for i := 0 to |wheel|
        invariant Valid() && cells == old(cells) && cells[..] == painted
        invariant frameCount == old(frameCount)
        invariant WheelAll(selected, wheel[i..]) == WheelAll(old(selected), wheel)
      {
        assert wheel[i..][1..] == wheel[i + 1..];
        Scroll(wheel[i]);
      }
      frameCount := frameCount + 1;
    }
  }
}
