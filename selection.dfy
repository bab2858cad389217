// Cycling the selected material with the mouse wheel. The selection is an index into
// the placeable materials: 0 Sand, 1 Water, 2 Stone.

module Selection {
  /** Rust's `a % 3` on a signed integer: the remainder truncated toward zero, with the sign of a. */
  function TruncRem3(a: int): (r: int)
    ensures -3 < r < 3
    ensures a >= 0 ==> r >= 0
    ensures a < 0 ==> r <= 0
    ensures (a - r) % 3 == 0
  {
    if a >= 0 then a % 3 else -((-a) % 3)
  }

  /**
   * The wheel update as the program writes it: add the delta, take the truncated
   * remainder by 3, and turn -1 into 2. A remainder of -2 is left as it is.
   */
  function WheelAsWritten(selected: int, delta: int): (r: int)
    ensures -2 <= r <= 2 && r != -1
  {
    var s := TruncRem3(selected + delta);
    if s == -1 then 2 else s
  }

  /** The wheel update: the selection moves delta places around the cycle of three materials. */
  function Wheel(selected: int, delta: int): (r: int)
    ensures 0 <= r < 3
    ensures (selected + delta - r) % 3 == 0
  {
    (selected + delta) % 3
  }

  /** The selection after the wheel events of one frame, applied in order. */
  function WheelAll(selected: int, deltas: seq<int>): (r: int)
    ensures deltas == [] ==> r == selected
    ensures deltas != [] ==> 0 <= r < 3
    decreases |deltas|
  {
    if deltas == [] then selected else WheelAll(Wheel(selected, deltas[0]), deltas[1..])
  }

  /** Scrolling back by the same amount restores the selection. */
  lemma WheelUndo(selected: int, delta: int)
    requires 0 <= selected < 3
    ensures Wheel(Wheel(selected, delta), -delta) == selected
  {
  }

  /**
   * The update as written agrees with the cyclic one whenever the sum it takes the
   * remainder of is at least -1; in particular for single notches of the wheel.
   */
  lemma WheelAsWrittenAgrees(selected: int, delta: int)
    requires 0 <= selected < 3 && selected + delta >= -1
    ensures WheelAsWritten(selected, delta) == Wheel(selected, delta)
    ensures 0 <= WheelAsWritten(selected, delta) < 3
  {
  }

  /**
   * A wheel event of -2 on the first material leaves the selection at -2, outside the
   * three materials.
   */
  lemma WheelAsWrittenLeavesRange()
    ensures WheelAsWritten(0, -2) == -2
    ensures Wheel(0, -2) == 1
  {
  }
}
