// The mouse brush applied once per frame, after the step: the cursor is mapped to a
// grid cell and clamped onto the grid, a left press places the selected material
// there and a right press erases it.

module Brush {
  import opened Grid
  import opened Selection

  /** Rust's `/` on a pixel coordinate: the quotient by the square size truncated toward zero. */
  function PixelToCell(p: int): (c: int)
    ensures p >= 0 ==> SquareSize * c <= p < SquareSize * c + SquareSize
    ensures p < 0 ==> c <= 0 && SquareSize * c - SquareSize < p <= SquareSize * c
  {
    if p >= 0 then p / SquareSize else -((-p) / SquareSize)
  }

  /** `v.min(hi).max(0)`: v forced into [0, hi]. */
  function Clamp(v: int, hi: int): (r: int)
    requires 0 <= hi
    ensures 0 <= r <= hi
    ensures 0 <= v <= hi ==> r == v
    ensures v < 0 ==> r == 0
    ensures v > hi ==> r == hi
  {
    var m := if v < hi then v else hi;
    if m > 0 then m else 0
  }

  /**
   * The cell under the mouse at pixel (mx, my), clamped onto the grid: inside the
   * window it is the square containing the pixel, outside it the nearest edge cell.
   */
  function Cursor(mx: int, my: int): (c: (int, int))
    ensures InGrid(c.0, c.1)
    ensures 0 <= mx < WinW ==> SquareSize * c.0 <= mx < SquareSize * c.0 + SquareSize
    ensures 0 <= my < WinH ==> SquareSize * c.1 <= my < SquareSize * c.1 + SquareSize
    ensures mx < 0 ==> c.0 == 0
    ensures my < 0 ==> c.1 == 0
    ensures mx >= WinW ==> c.0 == W - 1
    ensures my >= WinH ==> c.1 == H - 1
  {
    (Clamp(PixelToCell(mx), W - 1), Clamp(PixelToCell(my), H - 1))
  }

  /** `selected as u8 + 1`: the code placed by a left press, in 8-bit arithmetic. */
  function BrushCode(selected: int): (c: int)
    ensures 0 <= c < 256
    ensures 0 <= selected < 3 ==> c == selected + 1
  {
    (selected % 256 + 1) % 256
  }

  /**
   * The vector after the brush: a left press writes the selected material's code into
   * the cursor cell, and a right press, applied after it, writes Empty there.
   */
  function Paint(g: seq<int>, mx: int, my: int, left: bool, right: bool, selected: int): (r: seq<int>)
    requires |g| == Size
    ensures |r| == Size
    ensures forall i :: 0 <= i < Size && i != Index(Cursor(mx, my).0, Cursor(mx, my).1) ==> r[i] == g[i]
  {
    var c := Cursor(mx, my);
    var idx := Index(c.0, c.1);
    var g1 := if left then g[idx := BrushCode(selected)] else g;
    if right then g1[idx := Empty] else g1
  }

  /**
   * The brush writes into the cursor cell: Empty on a right press, the selected
   * material (Sand, Water or Stone) on a left press alone; the padding cell is never touched.
   */
  lemma PaintCursorCell(g: seq<int>, mx: int, my: int, left: bool, right: bool, selected: int)
    requires |g| == Size && 0 <= selected < 3
    ensures var c := Cursor(mx, my);
            var r := Paint(g, mx, my, left, right, selected);
            r[Index(c.0, c.1)] == (if right then Empty else if left then selected + 1 else g[Index(c.0, c.1)]) &&
            r[Cells] == g[Cells]
  {
    var c := Cursor(mx, my);
    IndexInGrid(c.0, c.1);
  }

  /** With a selection in range, the brush writes only material codes. */
  lemma PaintKeepsCodes(g: seq<int>, mx: int, my: int, left: bool, right: bool, selected: int)
    requires |g| == Size && AllCodes(g) && 0 <= selected < 3
    ensures AllCodes(Paint(g, mx, my, left, right, selected))
  {
    var c := Cursor(mx, my);
    IndexInGrid(c.0, c.1);
  }

  /**
   * With the selection the wheel update as written can reach, -2, a left press writes
   * code 255, which names no material.
   */
  lemma BrushAfterWheelAsWritten()
    ensures BrushCode(WheelAsWritten(0, -2)) == 255
  {
    WheelAsWrittenLeavesRange();
  }
}
