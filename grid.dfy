// The simulation grid of SandSim: a flat, row-major vector of material codes,
// one code per 10x10-pixel square of an 800x600 window, plus one padding cell.

module Grid {
  // Window and square sizes in pixels.
  const WinW: int := 800
  const WinH: int := 600
  const SquareSize: int := 10

  /** Number of columns and rows of the grid: WinW / SquareSize and WinH / SquareSize. */
  const W: int := 80
  const H: int := 60

  lemma GridFitsWindow()
    ensures W == WinW / SquareSize && H == WinH / SquareSize
  {
  }

  /** The cells of the grid proper, and the length of the vector: one padding cell follows them. */
  const Cells: int := W * H
  const Size: int := Cells + 1

  // Material codes stored in the vector.
  const Empty: int := 0
  const Sand: int := 1
  const Water: int := 2
  const Stone: int := 3

  datatype Option<T> = None | Some(value: T)

  /** The position (x, y) lies on the grid. */
  predicate InGrid(x: int, y: int) {
    0 <= x < W && 0 <= y < H
  }

  /** Row-major index of (x, y). */
  function Index(x: int, y: int): int {
    x + y * W
  }

  /** Every code is one of the four materials. */
  predicate AllCodes(g: seq<int>) {
    forall i :: 0 <= i < |g| ==> Empty <= g[i] <= Stone
  }

  /** Indices of the grid proper are exactly the indices of on-grid positions, and they never reach the padding cell. */
  lemma IndexInGrid(x: int, y: int)
    requires InGrid(x, y)
    ensures 0 <= Index(x, y) < Cells
    ensures Index(x, y) % W == x && Index(x, y) / W == y
  {
    assert W == 80;
    var n := x + y * 80;
    assert n == 80 * y + x;
  }

  /**
   * The bounds-checked neighbour of (x, y) at offset (dx, dy): an index only when the
   * neighbour is on the grid, and then the index decodes back to that neighbour.
   */
  function TryMove(x: int, y: int, dx: int, dy: int): (r: Option<nat>)
    ensures r.Some? <==> InGrid(x + dx, y + dy)
    ensures r.Some? ==> r.value < Cells && r.value % W == x + dx && r.value / W == y + dy
  {
    var nx := x + dx;
    var ny := y + dy;
    if nx >= 0 && nx < W && ny >= 0 && ny < H then
      IndexInGrid(nx, ny);
      Some(nx + ny * W)
    else
      None
  }
}
