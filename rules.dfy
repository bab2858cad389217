// The per-material rules applied to one visited cell during a step of the automaton.
// Each rule is a function of the whole vector as it stands when the cell is visited,
// because earlier visits of the same step have already rewritten it in place.

module Rules {
  import opened Grid

  /** A cell a mover may enter: Empty, and also Water when the mover displaces Water. */
  predicate IsFree(v: int, waterOk: bool) {
    v == Empty || (waterOk && v == Water)
  }

  /** The candidate neighbour t exists and may be entered. */
  predicate Admits(g: seq<int>, t: Option<nat>, waterOk: bool) {
    t.Some? && t.value < |g| && IsFree(g[t.value], waterOk)
  }

  /** The vector with the contents of cells i and j exchanged. */
  function Swap(g: seq<int>, i: int, j: int): (r: seq<int>)
    requires 0 <= i < |g| && 0 <= j < |g|
    ensures |r| == |g| && multiset(r) == multiset(g)
    ensures r[i] == g[j] && r[j] == g[i]
    ensures forall k :: 0 <= k < |g| && k != i && k != j ==> r[k] == g[k]
  {
    g[i := g[j]][j := g[i]]
  }

  /**
   * The first direction in dirs whose neighbour (dx from dirs, dy fixed) is on the grid
   * and free, scanning dirs in order; None when no direction is.
   */
  function FirstFree(g: seq<int>, x: int, y: int, dirs: seq<int>, dy: int, waterOk: bool): (r: Option<nat>)
    ensures r.Some? ==> Admits(g, r, waterOk) && r.value < Cells
    decreases |dirs|
  {
    if dirs == [] then
      None
    else
      var t := TryMove(x, y, dirs[0], dy);
      if Admits(g, t, waterOk) then t else FirstFree(g, x, y, dirs[1..], dy, waterOk)
  }

  /**
   * The search answers with the neighbour of the first admitting direction, every
   * earlier direction being refused, and answers None exactly when all are refused.
   */
  lemma {:induction false} FirstFreeIsFirst(g: seq<int>, x: int, y: int, dirs: seq<int>, dy: int, waterOk: bool)
    ensures var r := FirstFree(g, x, y, dirs, dy, waterOk);
            r.Some? ==> exists k :: 0 <= k < |dirs| && TryMove(x, y, dirs[k], dy) == r &&
                                    forall j :: 0 <= j < k ==> !Admits(g, TryMove(x, y, dirs[j], dy), waterOk)
    ensures FirstFree(g, x, y, dirs, dy, waterOk).None? <==>
            forall k :: 0 <= k < |dirs| ==> !Admits(g, TryMove(x, y, dirs[k], dy), waterOk)
    decreases |dirs|
  {
    if dirs != [] && !Admits(g, TryMove(x, y, dirs[0], dy), waterOk) {
      FirstFreeIsFirst(g, x, y, dirs[1..], dy, waterOk);
      assert forall k :: 0 <= k < |dirs| - 1 ==> dirs[1..][k] == dirs[k + 1];
      var r := FirstFree(g, x, y, dirs, dy, waterOk);
      if r.Some? {
        var k :| 0 <= k < |dirs| - 1 && TryMove(x, y, dirs[1..][k], dy) == r &&
                 forall j :: 0 <= j < k ==> !Admits(g, TryMove(x, y, dirs[1..][j], dy), waterOk);
        assert TryMove(x, y, dirs[k + 1], dy) == r;
      }
    }
  }

  /** The search over two directions a, b: a's neighbour if it admits, else b's, else None. */
  lemma FirstFreeOfTwo(g: seq<int>, x: int, y: int, a: int, b: int, dy: int, waterOk: bool)
    ensures FirstFree(g, x, y, [a, b], dy, waterOk) ==
              if Admits(g, TryMove(x, y, a, dy), waterOk) then TryMove(x, y, a, dy)
              else if Admits(g, TryMove(x, y, b, dy), waterOk) then TryMove(x, y, b, dy)
              else None
  {
    assert [a, b][1..] == [b] && [b][1..] == [];
    assert FirstFree(g, x, y, [], dy, waterOk) == None;
  }

  /** Sand tries down-right first when the coin is true, down-left first otherwise. */
  function SandDirections(coin: bool): seq<int> {
    if coin then [1, -1] else [-1, 1]
  }

  /** Water tries left first on even frames and right first on odd frames. */
  function WaterDirections(frame: nat): seq<int> {
    if frame % 2 == 0 then [-1, 1] else [1, -1]
  }

  /** Sand at idx enters t: t becomes Sand, idx becomes Water if t held Water, else Empty. */
  function SandInto(g: seq<int>, idx: int, t: int): seq<int>
    requires 0 <= idx < |g| && 0 <= t < |g|
  {
    g[idx := if g[t] != Water then Empty else Water][t := Sand]
  }

  /**
   * The Sand rule for the Sand cell at (x, y) above the bottom row: it only rearranges
   * the cells, never touches the padding cell, and when anything changes the cell it
   * leaves holds Empty or the Water it displaced.
   */
  function SandRule(g: seq<int>, x: int, y: int, coin: bool): (r: seq<int>)
    requires |g| == Size && InGrid(x, y) && y < H - 1 && g[Index(x, y)] == Sand
    ensures |r| == Size && multiset(r) == multiset(g) && r[Cells] == g[Cells]
    ensures r == g || IsFree(r[Index(x, y)], true)
  {
    var idx := Index(x, y);
    var below := Index(x, y + 1);
    IndexInGrid(x, y + 1);
    if g[below] == Empty || g[below] == Water then
      assert SandInto(g, idx, below) == Swap(g, idx, below);
      SandInto(g, idx, below)
    else
      match FirstFree(g, x, y, SandDirections(coin), 1, true)
      case Some(t) =>
        assert SandInto(g, idx, t) == Swap(g, idx, t);
        SandInto(g, idx, t)
      case None => g
  }

  /**
   * The Water rule for the Water cell at (x, y) above the bottom row: it only rearranges
   * the cells, never touches the padding cell, and when anything changes the cell it
   * leaves becomes Empty.
   */
  function WaterRule(g: seq<int>, x: int, y: int, frame: nat): (r: seq<int>)
    requires |g| == Size && InGrid(x, y) && y < H - 1 && g[Index(x, y)] == Water
    ensures |r| == Size && multiset(r) == multiset(g) && r[Cells] == g[Cells]
    ensures r == g || r[Index(x, y)] == Empty
  {
    var idx := Index(x, y);
    var below := idx + W;
    IndexInGrid(x, y + 1);
    if g[below] == Empty then
      assert g[idx := Empty][below := Water] == Swap(g, idx, below);
      g[idx := Empty][below := Water]
    else
      var dirs := WaterDirections(frame);
      match FirstFree(g, x, y, dirs, 1, false)
      case Some(diag) =>
        assert g[idx := Empty][diag := Water] == Swap(g, idx, diag);
        g[idx := Empty][diag := Water]
      case None =>
        match FirstFree(g, x, y, dirs, 0, false)
        case Some(side) =>
          assert g[idx := Empty][side := Water] == Swap(g, idx, side);
          g[idx := Empty][side := Water]
        case None => g
  }

  /**
   * The Stone rule for the Stone cell at (x, y) above the bottom row. The cell below is
   * overwritten with Stone before it is tested for Water, so the test reads Stone: over
   * Empty or Water the Stone moves down and the cell it leaves is always Empty.
   */
  function StoneRule(g: seq<int>, x: int, y: int): (r: seq<int>)
    requires |g| == Size && InGrid(x, y) && y < H - 1 && g[Index(x, y)] == Stone
    ensures |r| == Size && r[Cells] == g[Cells]
    ensures r[Index(x, y)] == if IsFree(g[Index(x, y + 1)], true) then Empty else Stone
    ensures r[Index(x, y + 1)] == if IsFree(g[Index(x, y + 1)], true) then Stone else g[Index(x, y + 1)]
  {
    var idx := Index(x, y);
    var below := idx + W;
    IndexInGrid(x, y + 1);
    if g[below] == Empty || g[below] == Water then
      var g1 := g[below := Stone];
      g1[idx := if g1[below] == Water then Water else Empty]
    else
      g
  }

  /**
   * One visit of the scan: the rule for the material at (x, y), if any applies. The
   * padding cell is never written.
   */
  function Visit(g: seq<int>, x: int, y: int, frame: nat, coin: bool): (r: seq<int>)
    requires |g| == Size && InGrid(x, y)
    ensures |r| == Size && r[Cells] == g[Cells]
  {
    var m := g[Index(x, y)];
    if m == Sand && y < H - 1 then
      SandRule(g, x, y, coin)
    else if m == Water && y < H - 1 then
      WaterRule(g, x, y, frame)
    else if m == Stone && y < H - 1 then
      StoneRule(g, x, y)
    else
      g
  }

  /** Sand over Empty or Water falls: it swaps with the cell below. */
  lemma SandFallsStraight(g: seq<int>, x: int, y: int, frame: nat, coin: bool)
    requires |g| == Size && InGrid(x, y) && y < H - 1
    requires g[Index(x, y)] == Sand && IsFree(g[Index(x, y + 1)], true)
    ensures Visit(g, x, y, frame, coin) == Swap(g, Index(x, y), Index(x, y + 1))
    ensures Visit(g, x, y, frame, coin)[Index(x, y + 1)] == Sand
    ensures Visit(g, x, y, frame, coin)[Index(x, y)] == if g[Index(x, y + 1)] == Water then Water else Empty
  {
  }

  /**
   * Blocked Sand tries the two diagonals below it, down-right first when the coin is
   * true and down-left first otherwise, and swaps with the first that is on the grid
   * and Empty or Water; it stays put when neither is.
   */
  lemma SandSlidesDiagonally(g: seq<int>, x: int, y: int, frame: nat, coin: bool)
    requires |g| == Size && InGrid(x, y) && y < H - 1
    requires g[Index(x, y)] == Sand && !IsFree(g[Index(x, y + 1)], true)
    ensures var first := TryMove(x, y, if coin then 1 else -1, 1);
            var second := TryMove(x, y, if coin then -1 else 1, 1);
            Visit(g, x, y, frame, coin) ==
              if Admits(g, first, true) then Swap(g, Index(x, y), first.value)
              else if Admits(g, second, true) then Swap(g, Index(x, y), second.value)
              else g
  {
    FirstFreeOfTwo(g, x, y, if coin then 1 else -1, if coin then -1 else 1, 1, true);
  }

  /**
   * Water above the bottom row falls into Empty below; otherwise it tries the diagonals
   * below and then the sides, left first on even frames and right first on odd ones,
   * and swaps with the first Empty cell found. It never enters anything but Empty.
   */
  lemma WaterFlows(g: seq<int>, x: int, y: int, frame: nat, coin: bool)
    requires |g| == Size && InGrid(x, y) && y < H - 1
    requires g[Index(x, y)] == Water
    ensures var idx := Index(x, y);
            var d := if frame % 2 == 0 then -1 else 1;
            Visit(g, x, y, frame, coin) ==
              if g[Index(x, y + 1)] == Empty then Swap(g, idx, Index(x, y + 1))
              else if Admits(g, TryMove(x, y, d, 1), false) then Swap(g, idx, TryMove(x, y, d, 1).value)
              else if Admits(g, TryMove(x, y, -d, 1), false) then Swap(g, idx, TryMove(x, y, -d, 1).value)
              else if Admits(g, TryMove(x, y, d, 0), false) then Swap(g, idx, TryMove(x, y, d, 0).value)
              else if Admits(g, TryMove(x, y, -d, 0), false) then Swap(g, idx, TryMove(x, y, -d, 0).value)
              else g
  {
    var d := if frame % 2 == 0 then -1 else 1;
    FirstFreeOfTwo(g, x, y, d, -d, 1, false);
    FirstFreeOfTwo(g, x, y, d, -d, 0, false);
  }

  /**
   * Stone above the bottom row sinks straight down into Empty or Water and never moves
   * sideways; the cell it leaves is always Empty, so Water under Stone is destroyed.
   */
  lemma StoneSinksStraight(g: seq<int>, x: int, y: int, frame: nat, coin: bool)
    requires |g| == Size && InGrid(x, y) && y < H - 1
    requires g[Index(x, y)] == Stone
    ensures Visit(g, x, y, frame, coin) ==
              if IsFree(g[Index(x, y + 1)], true) then g[Index(x, y) := Empty][Index(x, y + 1) := Stone]
              else g
  {
  }

  /** Nothing on the bottom row acts, whatever its material. */
  lemma BottomRowStays(g: seq<int>, x: int, frame: nat, coin: bool)
    requires |g| == Size && InGrid(x, H - 1)
    ensures Visit(g, x, H - 1, frame, coin) == g
  {
  }

  /** Empty cells, and codes that name no material, are left alone. */
  lemma OtherCodesStay(g: seq<int>, x: int, y: int, frame: nat, coin: bool)
    requires |g| == Size && InGrid(x, y)
    requires g[Index(x, y)] != Sand && g[Index(x, y)] != Water && g[Index(x, y)] != Stone
    ensures Visit(g, x, y, frame, coin) == g
  {
  }

  /** Index i is on the grid, in row y or y + 1, and at most one column away from x. */
  predicate Neighbour(x: int, y: int, i: int) {
    0 <= i < Cells && x - 1 <= i % W <= x + 1 && y <= i / W <= y + 1
  }

  /** Sand is local: besides its own cell it changes at most one Empty or Water neighbour. */
  lemma SandIsLocal(g: seq<int>, x: int, y: int, frame: nat, coin: bool, i: int)
    requires |g| == Size && InGrid(x, y) && y < H - 1 && g[Index(x, y)] == Sand
    requires 0 <= i < Size && i != Index(x, y)
    ensures Visit(g, x, y, frame, coin)[i] == g[i] || (IsFree(g[i], true) && Neighbour(x, y, i))
  {
    IndexInGrid(x, y + 1);
    if IsFree(g[Index(x, y + 1)], true) {
      SandFallsStraight(g, x, y, frame, coin);
    } else {
      SandSlidesDiagonally(g, x, y, frame, coin);
    }
  }

  /** Water is local: besides its own cell it changes at most one Empty neighbour. */
  lemma WaterIsLocal(g: seq<int>, x: int, y: int, frame: nat, coin: bool, i: int)
    requires |g| == Size && InGrid(x, y) && y < H - 1 && g[Index(x, y)] == Water
    requires 0 <= i < Size && i != Index(x, y)
    ensures Visit(g, x, y, frame, coin)[i] == g[i] || (IsFree(g[i], true) && Neighbour(x, y, i))
  {
    IndexInGrid(x, y + 1);
    WaterFlows(g, x, y, frame, coin);
  }

  /**
   * A visit is local: besides the visited cell it changes at most cells that held Empty
   * or Water and lie beside it or in the row below, one column either way at most.
   */
  lemma VisitIsLocal(g: seq<int>, x: int, y: int, frame: nat, coin: bool, i: int)
    requires |g| == Size && InGrid(x, y) && 0 <= i < Size && i != Index(x, y)
    ensures Visit(g, x, y, frame, coin)[i] == g[i] || (IsFree(g[i], true) && Neighbour(x, y, i))
  {
    var m := g[Index(x, y)];
    if y == H - 1 {
      BottomRowStays(g, x, frame, coin);
    } else if m == Sand {
      SandIsLocal(g, x, y, frame, coin, i);
    } else if m == Water {
      WaterIsLocal(g, x, y, frame, coin, i);
    } else if m == Stone {
      IndexInGrid(x, y + 1);
      StoneSinksStraight(g, x, y, frame, coin);
    } else {
      OtherCodesStay(g, x, y, frame, coin);
    }
  }

  /** The free-neighbour search reads only cells of the grid proper, never the padding cell. */
  lemma {:induction false} FirstFreeIgnoresPadding(g: seq<int>, v: int, x: int, y: int, dirs: seq<int>, dy: int, waterOk: bool)
    requires |g| == Size
    ensures FirstFree(g[Cells := v], x, y, dirs, dy, waterOk) == FirstFree(g, x, y, dirs, dy, waterOk)
    decreases |dirs|
  {
    if dirs != [] {
      FirstFreeIgnoresPadding(g, v, x, y, dirs[1..], dy, waterOk);
    }
  }

  /** Two writes inside the grid proper commute with a write to the padding cell. */
  lemma WritesCommuteWithPadding(g: seq<int>, v: int, i: int, a: int, j: int, b: int)
    requires |g| == Size && 0 <= i < Cells && 0 <= j < Cells
    ensures g[Cells := v][i := a][j := b] == g[i := a][j := b][Cells := v]
  {
  }

  /** The Sand rule neither reads nor writes the padding cell. */
  lemma SandRuleIgnoresPadding(g: seq<int>, v: int, x: int, y: int, coin: bool)
    requires |g| == Size && InGrid(x, y) && y < H - 1 && g[Index(x, y)] == Sand
    ensures SandRule(g[Cells := v], x, y, coin) == SandRule(g, x, y, coin)[Cells := v]
  {
    var gv := g[Cells := v];
    var idx := Index(x, y);
    var below := Index(x, y + 1);
    assert gv[idx] == g[idx] && gv[below] == g[below];
    var t := FirstFree(g, x, y, SandDirections(coin), 1, true);
    assert FirstFree(gv, x, y, SandDirections(coin), 1, true) == t by {
      FirstFreeIgnoresPadding(g, v, x, y, SandDirections(coin), 1, true);
    }
    if IsFree(g[below], true) {
      WritesCommuteWithPadding(g, v, idx, if g[below] != Water then Empty else Water, below, Sand);
    } else if t.Some? {
      assert gv[t.value] == g[t.value];
      WritesCommuteWithPadding(g, v, idx, if g[t.value] != Water then Empty else Water, t.value, Sand);
    }
  }

  /** The Water rule neither reads nor writes the padding cell. */
  lemma WaterRuleIgnoresPadding(g: seq<int>, v: int, x: int, y: int, frame: nat)
    requires |g| == Size && InGrid(x, y) && y < H - 1 && g[Index(x, y)] == Water
    ensures WaterRule(g[Cells := v], x, y, frame) == WaterRule(g, x, y, frame)[Cells := v]
  {
    var gv := g[Cells := v];
    var idx := Index(x, y);
    var below := idx + W;
    assert gv[below] == g[below];
    if g[below] == Empty {
      WritesCommuteWithPadding(g, v, idx, Empty, below, Water);
    } else {
      var dirs := WaterDirections(frame);
      var diag := FirstFree(g, x, y, dirs, 1, false);
      assert FirstFree(gv, x, y, dirs, 1, false) == diag by {
        FirstFreeIgnoresPadding(g, v, x, y, dirs, 1, false);
      }
      if diag.Some? {
        assert WaterRule(g, x, y, frame) == g[idx := Empty][diag.value := Water];
        WritesCommuteWithPadding(g, v, idx, Empty, diag.value, Water);
      } else {
        var side := FirstFree(g, x, y, dirs, 0, false);
        assert FirstFree(gv, x, y, dirs, 0, false) == side by {
          FirstFreeIgnoresPadding(g, v, x, y, dirs, 0, false);
        }
        if side.Some? {
          assert WaterRule(g, x, y, frame) == g[idx := Empty][side.value := Water];
          WritesCommuteWithPadding(g, v, idx, Empty, side.value, Water);
        } else {
          assert WaterRule(g, x, y, frame) == g;
        }
      }
    }
  }

  /** The Stone rule neither reads nor writes the padding cell. */
  lemma StoneRuleIgnoresPadding(g: seq<int>, v: int, x: int, y: int)
    requires |g| == Size && InGrid(x, y) && y < H - 1 && g[Index(x, y)] == Stone
    ensures StoneRule(g[Cells := v], x, y) == StoneRule(g, x, y)[Cells := v]
  {
    var idx := Index(x, y);
    var below := idx + W;
    if IsFree(g[below], true) {
      WritesCommuteWithPadding(g, v, below, Stone, idx, Empty);
    }
  }

  /** A visit neither reads nor writes the padding cell: whatever it holds is carried through. */
  lemma VisitIgnoresPadding(g: seq<int>, v: int, x: int, y: int, frame: nat, coin: bool)
    requires |g| == Size && InGrid(x, y)
    ensures Visit(g[Cells := v], x, y, frame, coin) == Visit(g, x, y, frame, coin)[Cells := v]
  {
    var idx := Index(x, y);
    assert g[Cells := v][idx] == g[idx];
    if y < H - 1 {
      if g[idx] == Sand {
        SandRuleIgnoresPadding(g, v, x, y, coin);
      } else if g[idx] == Water {
        WaterRuleIgnoresPadding(g, v, x, y, frame);
      } else if g[idx] == Stone {
        StoneRuleIgnoresPadding(g, v, x, y);
      }
    }
  }
}
