// One step of the automaton: columns from right to left, and within each column rows
// from bottom to top, each position visited once against the vector as rewritten so far.

module Scan {
  import opened Grid
  import opened Rules

  /**
   * Visits rows k-1, k-2, ..., 0 of column x, in that order. The coin drawn when
   * (x, y) is visited is coins[Index(x, y)].
   */
  function ColumnFrom(g: seq<int>, x: int, k: int, frame: nat, coins: seq<bool>): (r: seq<int>)
    requires |g| == Size && 0 <= x < W && 0 <= k <= H && |coins| == Cells
    ensures |r| == Size && r[Cells] == g[Cells]
    decreases k
  {
    if k == 0 then
      g
    else
      ColumnFrom(Visit(g, x, k - 1, frame, coins[Index(x, k - 1)]), x, k - 1, frame, coins)
  }

  /** Visiting (x, y) and then the rows above it is visiting column x from row y. */
  lemma ColumnFromVisit(g: seq<int>, x: int, y: int, frame: nat, coins: seq<bool>)
    requires |g| == Size && InGrid(x, y) && |coins| == Cells
    ensures ColumnFrom(Visit(g, x, y, frame, coins[Index(x, y)]), x, y, frame, coins) == ColumnFrom(g, x, y + 1, frame, coins)
  {
  }

  /** Visits the whole of columns j-1, j-2, ..., 0, in that order. */
  function ColumnsFrom(g: seq<int>, j: int, frame: nat, coins: seq<bool>): (r: seq<int>)
    requires |g| == Size && 0 <= j <= W && |coins| == Cells
    ensures |r| == Size && r[Cells] == g[Cells]
    decreases j
  {
    if j == 0 then
      g
    else
      ColumnsFrom(ColumnFrom(g, j - 1, H, frame, coins), j - 1, frame, coins)
  }

  /** Visiting column j and then the columns left of it is visiting the columns from j. */
  lemma ColumnsFromColumn(g: seq<int>, j: int, frame: nat, coins: seq<bool>)
    requires |g| == Size && 0 <= j < W && |coins| == Cells
    ensures ColumnsFrom(ColumnFrom(g, j, H, frame, coins), j, frame, coins) == ColumnsFrom(g, j + 1, frame, coins)
  {
  }

  /** One step of the automaton at frame number frame; the padding cell after the grid is never touched. */
  function Step(g: seq<int>, frame: nat, coins: seq<bool>): (r: seq<int>)
    requires |g| == Size && |coins| == Cells
    ensures |r| == Size && r[Cells] == g[Cells]
  {
    ColumnsFrom(g, W, frame, coins)
  }

  /** Index i lies on the bottom row of the grid. */
  predicate OnBottomRow(i: int) {
    Index(0, H - 1) <= i < Cells
  }

  /**
   * What any number of visits keep: the length and the padding cell; the count of
   * every code other than Empty and Water; the count of Empty and Water together,
   * Water never gaining; and every count when there is no Stone.
   */
  ghost predicate Evolves(g: seq<int>, r: seq<int>) {
    |g| == Size && |r| == Size &&
    r[Cells] == g[Cells] &&
    (forall c :: c != Empty && c != Water ==> multiset(r)[c] == multiset(g)[c]) &&
    multiset(r)[Water] <= multiset(g)[Water] &&
    multiset(r)[Empty] + multiset(r)[Water] == multiset(g)[Empty] + multiset(g)[Water] &&
    (multiset(g)[Stone] == 0 ==> multiset(r) == multiset(g))
  }

  /** Evolves composes: what two runs of visits keep, their sequence keeps. */
  lemma EvolvesTrans(a: seq<int>, b: seq<int>, c: seq<int>)
    requires Evolves(a, b) && Evolves(b, c)
    ensures Evolves(a, c)
  {
    if multiset(a)[Stone] == 0 {
      assert multiset(b)[Stone] == 0;
    }
  }

  /** The visit at (x, y) is Stone above Water: the one move that is not an exchange. */
  predicate StoneMeetsWater(g: seq<int>, x: int, y: int)
    requires |g| == Size && InGrid(x, y)
  {
    y < H - 1 && g[Index(x, y)] == Stone && g[Index(x, y + 1)] == Water
  }

  /** Overwriting Water at j with Stone and Stone at i with Empty trades one Water for one Empty. */
  lemma StoneOverWater(g: seq<int>, i: int, j: int)
    requires 0 <= i < |g| && 0 <= j < |g| && i != j
    requires g[i] == Stone && g[j] == Water
    ensures multiset(g[j := Stone][i := Empty]) == multiset(g) - multiset{Water} + multiset{Empty}
  {
    var g1 := g[j := Stone];
    assert multiset(g1) == multiset(g) - multiset{Water} + multiset{Stone};
    assert g1[i] == Stone;
  }

  /** Stone sinks into Empty by an exchange, and into Water by turning it into Empty. */
  lemma StoneVisitCounts(g: seq<int>, x: int, y: int, frame: nat, coin: bool)
    requires |g| == Size && InGrid(x, y) && y < H - 1 && g[Index(x, y)] == Stone
    ensures !StoneMeetsWater(g, x, y) ==> multiset(Visit(g, x, y, frame, coin)) == multiset(g)
    ensures StoneMeetsWater(g, x, y) ==>
              multiset(Visit(g, x, y, frame, coin)) == multiset(g) - multiset{Water} + multiset{Empty}
  {
    var idx := Index(x, y);
    var below := Index(x, y + 1);
    StoneSinksStraight(g, x, y, frame, coin);
    if g[below] == Empty {
      assert g[idx := Empty][below := Stone] == Swap(g, idx, below);
    } else if g[below] == Water {
      var r := g[idx := Empty][below := Stone];
      assert r == g[below := Stone][idx := Empty];
      StoneOverWater(g, idx, below);
    }
  }

  /**
   * Every visit only rearranges the cells, except Stone sinking into Water, which
   * turns exactly one Water cell into Empty.
   */
  lemma VisitCounts(g: seq<int>, x: int, y: int, frame: nat, coin: bool)
    requires |g| == Size && InGrid(x, y)
    ensures !StoneMeetsWater(g, x, y) ==> multiset(Visit(g, x, y, frame, coin)) == multiset(g)
    ensures StoneMeetsWater(g, x, y) ==>
              multiset(Visit(g, x, y, frame, coin)) == multiset(g) - multiset{Water} + multiset{Empty}
  {
    var m := g[Index(x, y)];
    if y < H - 1 && m == Sand {
      if IsFree(g[Index(x, y + 1)], true) {
        SandFallsStraight(g, x, y, frame, coin);
      } else {
        SandSlidesDiagonally(g, x, y, frame, coin);
      }
    } else if y < H - 1 && m == Water {
      WaterFlows(g, x, y, frame, coin);
    } else if y < H - 1 && m == Stone {
      StoneVisitCounts(g, x, y, frame, coin);
    } else {
      assert Visit(g, x, y, frame, coin) == g;
    }
  }

  /** A single visit keeps what Evolves asks for. */
  lemma VisitEvolves(g: seq<int>, x: int, y: int, frame: nat, coin: bool)
    requires |g| == Size && InGrid(x, y)
    ensures Evolves(g, Visit(g, x, y, frame, coin))
  {
    var r := Visit(g, x, y, frame, coin);
    VisitCounts(g, x, y, frame, coin);
    if StoneMeetsWater(g, x, y) {
      assert multiset(g)[Stone] > 0 by {
        assert g[Index(x, y)] == Stone;
      }
    }
  }

  /** Visiting a column keeps what Evolves asks for. */
  lemma {:induction false} ColumnEvolves(g: seq<int>, x: int, k: int, frame: nat, coins: seq<bool>, r: seq<int>)
    requires |g| == Size && 0 <= x < W && 0 <= k <= H && |coins| == Cells
    requires r == ColumnFrom(g, x, k, frame, coins)
    ensures Evolves(g, r)
    decreases k
  {
    hide Visit; // the induction needs only the per-visit lemmas, not the rules themselves
    if k > 0 {
      var g1 := Visit(g, x, k - 1, frame, coins[Index(x, k - 1)]);
      VisitEvolves(g, x, k - 1, frame, coins[Index(x, k - 1)]);
      ColumnEvolves(g1, x, k - 1, frame, coins, r);
      EvolvesTrans(g, g1, r);
    }
  }

  /** Visiting columns j-1 down to 0 keeps what Evolves asks for. */
  lemma {:induction false} ColumnsEvolve(g: seq<int>, j: int, frame: nat, coins: seq<bool>)
    requires |g| == Size && 0 <= j <= W && |coins| == Cells
    ensures Evolves(g, ColumnsFrom(g, j, frame, coins))
    decreases j
  {
    hide Visit;
    if j > 0 {
      var g1 := ColumnFrom(g, j - 1, H, frame, coins);
      assert Evolves(g, g1) by { ColumnEvolves(g, j - 1, H, frame, coins, g1); }
      var g2 := ColumnsFrom(g1, j - 1, frame, coins);
      assert Evolves(g1, g2) by { ColumnsEvolve(g1, j - 1, frame, coins); }
      EvolvesTrans(g, g1, g2);
    }
  }

  /** When every code of g is a material, the counts Evolves keeps leave no room for another code in r. */
  lemma CodesFollowCounts(g: seq<int>, r: seq<int>)
    requires Evolves(g, r) && AllCodes(g)
    ensures AllCodes(r)
  {
    forall i | 0 <= i < |r| ensures Empty <= r[i] <= Stone {
      if r[i] != Empty && r[i] != Water {
        assert r[i] in multiset(r);
        assert r[i] in multiset(g);
        var j :| 0 <= j < |g| && g[j] == r[i];
      }
    }
  }

  /** A visit leaves alone a bottom-row cell that nothing may enter. */
  lemma VisitKeepsBottom(g: seq<int>, x: int, y: int, frame: nat, coin: bool, i: int)
    requires |g| == Size && InGrid(x, y) && 0 <= i < Size && OnBottomRow(i) && !IsFree(g[i], true)
    ensures Visit(g, x, y, frame, coin)[i] == g[i]
  {
    var idx := Index(x, y);
    if y < H - 1 && g[idx] == Sand {
      if !IsFree(g[Index(x, y + 1)], true) {
        SandSlidesDiagonally(g, x, y, frame, coin);
      }
    } else if y < H - 1 && g[idx] == Water {
      WaterFlows(g, x, y, frame, coin);
    }
  }

  /** A column's visits leave alone a bottom-row cell that nothing may enter. */
  lemma {:induction false} ColumnKeepsBottom(g: seq<int>, x: int, k: int, frame: nat, coins: seq<bool>, i: int)
    requires |g| == Size && 0 <= x < W && 0 <= k <= H && |coins| == Cells
    requires 0 <= i < Size && OnBottomRow(i) && !IsFree(g[i], true)
    ensures ColumnFrom(g, x, k, frame, coins)[i] == g[i]
    decreases k
  {
    hide Visit;
    if k > 0 {
      var g1 := Visit(g, x, k - 1, frame, coins[Index(x, k - 1)]);
      assert g1[i] == g[i] by { VisitKeepsBottom(g, x, k - 1, frame, coins[Index(x, k - 1)], i); }
      ColumnKeepsBottom(g1, x, k - 1, frame, coins, i);
    }
  }

  /** The visits of columns j-1 down to 0 leave alone a bottom-row cell that nothing may enter. */
  lemma {:induction false} ColumnsKeepBottom(g: seq<int>, j: int, frame: nat, coins: seq<bool>, i: int)
    requires |g| == Size && 0 <= j <= W && |coins| == Cells
    requires 0 <= i < Size && OnBottomRow(i) && !IsFree(g[i], true)
    ensures ColumnsFrom(g, j, frame, coins)[i] == g[i]
    decreases j
  {
    hide Visit;
    if j > 0 {
      var g1 := ColumnFrom(g, j - 1, H, frame, coins);
      assert g1[i] == g[i] by { ColumnKeepsBottom(g, j - 1, H, frame, coins, i); }
      ColumnsKeepBottom(g1, j - 1, frame, coins, i);
    }
  }

  /** A step keeps the number of Sand cells and the number of Stone cells. */
  lemma StepConservesSandAndStone(g: seq<int>, frame: nat, coins: seq<bool>)
    requires |g| == Size && |coins| == Cells
    ensures multiset(Step(g, frame, coins))[Sand] == multiset(g)[Sand]
    ensures multiset(Step(g, frame, coins))[Stone] == multiset(g)[Stone]
  {
    ColumnsEvolve(g, W, frame, coins);
  }

  /**
   * Water is never created: a step can only turn Water into Empty (when Stone sinks
   * into it), so the number of Water cells never grows and Empty plus Water is kept.
   */
  lemma StepNeverCreatesWater(g: seq<int>, frame: nat, coins: seq<bool>)
    requires |g| == Size && |coins| == Cells
    ensures multiset(Step(g, frame, coins))[Water] <= multiset(g)[Water]
    ensures multiset(Step(g, frame, coins))[Empty] + multiset(Step(g, frame, coins))[Water] ==
            multiset(g)[Empty] + multiset(g)[Water]
  {
    ColumnsEvolve(g, W, frame, coins);
  }

  /** Without Stone, a step only moves cells around: the result is a permutation. */
  lemma StepPermutesWithoutStone(g: seq<int>, frame: nat, coins: seq<bool>)
    requires |g| == Size && |coins| == Cells
    requires forall i :: 0 <= i < |g| ==> g[i] != Stone
    ensures multiset(Step(g, frame, coins)) == multiset(g)
  {
    assert Stone !in multiset(g);
    ColumnsEvolve(g, W, frame, coins);
  }

  /** A step writes only the four material codes. */
  lemma StepWritesOnlyCodes(g: seq<int>, frame: nat, coins: seq<bool>)
    requires |g| == Size && |coins| == Cells
    requires AllCodes(g)
    ensures AllCodes(Step(g, frame, coins))
  {
    ColumnsEvolve(g, W, frame, coins);
    CodesFollowCounts(g, Step(g, frame, coins));
  }

  /**
   * Nothing on the bottom row ever moves: a bottom-row cell holding anything but Empty
   * or Water (which fallers may enter) is the same after the step.
   */
  lemma StepKeepsBottomRow(g: seq<int>, x: int, frame: nat, coins: seq<bool>)
    requires |g| == Size && |coins| == Cells && InGrid(x, H - 1)
    requires g[Index(x, H - 1)] != Empty && g[Index(x, H - 1)] != Water
    ensures Step(g, frame, coins)[Index(x, H - 1)] == g[Index(x, H - 1)]
  {
    ColumnsKeepBottom(g, W, frame, coins, Index(x, H - 1));
  }

  /** A column's visits carry the padding cell through untouched and unread. */
  lemma {:induction false} ColumnIgnoresPadding(g: seq<int>, v: int, x: int, k: int, frame: nat, coins: seq<bool>)
    requires |g| == Size && 0 <= x < W && 0 <= k <= H && |coins| == Cells
    ensures ColumnFrom(g[Cells := v], x, k, frame, coins) == ColumnFrom(g, x, k, frame, coins)[Cells := v]
    decreases k
  {
    hide Visit;
    if k > 0 {
      var coin := coins[Index(x, k - 1)];
      var g1 := Visit(g, x, k - 1, frame, coin);
      var gv1 := Visit(g[Cells := v], x, k - 1, frame, coin);
      assert gv1 == g1[Cells := v] by {
        VisitIgnoresPadding(g, v, x, k - 1, frame, coin);
      }
      assert ColumnFrom(g1[Cells := v], x, k - 1, frame, coins) == ColumnFrom(g1, x, k - 1, frame, coins)[Cells := v] by {
        ColumnIgnoresPadding(g1, v, x, k - 1, frame, coins);
      }
      assert ColumnFrom(g[Cells := v], x, k, frame, coins) == ColumnFrom(gv1, x, k - 1, frame, coins) by {
        ColumnFromVisit(g[Cells := v], x, k - 1, frame, coins);
      }
      assert ColumnFrom(g, x, k, frame, coins) == ColumnFrom(g1, x, k - 1, frame, coins) by {
        ColumnFromVisit(g, x, k - 1, frame, coins);
      }
    }
  }

  /** The visits of columns j-1 down to 0 carry the padding cell through untouched and unread. */
  lemma {:induction false} ColumnsIgnorePadding(g: seq<int>, v: int, j: int, frame: nat, coins: seq<bool>)
    requires |g| == Size && 0 <= j <= W && |coins| == Cells
    ensures ColumnsFrom(g[Cells := v], j, frame, coins) == ColumnsFrom(g, j, frame, coins)[Cells := v]
    decreases j
  {
    hide Visit;
    if j > 0 {
      var g1 := ColumnFrom(g, j - 1, H, frame, coins);
      assert ColumnFrom(g[Cells := v], j - 1, H, frame, coins) == g1[Cells := v] by {
        ColumnIgnoresPadding(g, v, j - 1, H, frame, coins);
      }
      ColumnsIgnorePadding(g1, v, j - 1, frame, coins);
    }
  }

  /**
   * The padding cell after the grid is never read or written by a step: changing it
   * changes nothing else in the result.
   */
  lemma StepIgnoresPadding(g: seq<int>, v: int, frame: nat, coins: seq<bool>)
    requires |g| == Size && |coins| == Cells
    ensures Step(g[Cells := v], frame, coins) == Step(g, frame, coins)[Cells := v]
  {
    ColumnsIgnorePadding(g, v, W, frame, coins);
  }

  /**
   * A column's visits are local: a cell they change lies within one column of x and at
   * most one row below the visited rows, and either it is one of the visited cells or
   * it held Empty or Water.
   */
  lemma {:induction false} ColumnIsLocal(g: seq<int>, x: int, k: int, frame: nat, coins: seq<bool>, i: int)
    requires |g| == Size && 0 <= x < W && 0 <= k <= H && |coins| == Cells && 0 <= i < Cells
    ensures ColumnFrom(g, x, k, frame, coins)[i] != g[i] ==>
              x - 1 <= i % W <= x + 1 && i / W <= k && ((i % W == x && i / W < k) || IsFree(g[i], true))
    decreases k
  {
    hide Visit;
    if k > 0 {
      var g1 := Visit(g, x, k - 1, frame, coins[Index(x, k - 1)]);
      IndexInGrid(x, k - 1);
      if i != Index(x, k - 1) {
        VisitIsLocal(g, x, k - 1, frame, coins[Index(x, k - 1)], i);
      }
      ColumnIsLocal(g1, x, k - 1, frame, coins, i);
    }
  }

  /**
   * The visits of columns j-1 down to 0 change no cell right of column j, and in
   * column j only cells that held Empty or Water.
   */
  lemma {:induction false} ColumnsAreLocal(g: seq<int>, j: int, frame: nat, coins: seq<bool>, i: int)
    requires |g| == Size && 0 <= j <= W && |coins| == Cells && 0 <= i < Cells
    ensures ColumnsFrom(g, j, frame, coins)[i] != g[i] ==> i % W < j || (i % W == j && IsFree(g[i], true))
    decreases j
  {
    hide Visit;
    if j > 0 {
      var g1 := ColumnFrom(g, j - 1, H, frame, coins);
      ColumnIsLocal(g, j - 1, H, frame, coins, i);
      ColumnsAreLocal(g1, j - 1, frame, coins, i);
    }
  }

  /** A pile of Stone reaching down to the bottom row, rows y+1 to H-1 of column x, does not move. */
  lemma {:induction false} StonePileStays(g: seq<int>, x: int, y: int, k: int, frame: nat, coins: seq<bool>)
    requires |g| == Size && 0 <= x < W && 0 <= y && y + 1 <= k <= H && |coins| == Cells
    requires forall b :: y < b < H ==> g[Index(x, b)] == Stone
    ensures ColumnFrom(g, x, k, frame, coins) == ColumnFrom(g, x, y + 1, frame, coins)
    decreases k
  {
    hide Visit;
    if k > y + 1 {
      var coin := coins[Index(x, k - 1)];
      if k - 1 == H - 1 {
        BottomRowStays(g, x, frame, coin);
      } else {
        assert g[Index(x, k - 1 + 1)] == Stone;
        StoneSinksStraight(g, x, k - 1, frame, coin);
      }
      StonePileStays(g, x, y, k - 1, frame, coins);
    }
  }

  /** Sand at (x, b) over Empty at (x, b+1) has fallen into (x, b+1) once the column has been visited up to row b. */
  lemma {:induction false} SandFallsInColumn(g: seq<int>, x: int, b: int, k: int, frame: nat, coins: seq<bool>)
    requires |g| == Size && 0 <= x < W && 0 <= b && b + 1 < k <= H && |coins| == Cells
    requires g[Index(x, b)] == Sand && g[Index(x, b + 1)] == Empty
    ensures ColumnFrom(g, x, k, frame, coins)[Index(x, b + 1)] == Sand
    decreases k
  {
    hide Visit;
    IndexInGrid(x, b);
    IndexInGrid(x, b + 1);
    var coin := coins[Index(x, k - 1)];
    if k - 1 > b + 1 {
      IndexInGrid(x, k - 1);
      VisitIsLocal(g, x, k - 1, frame, coin, Index(x, b));
      VisitIsLocal(g, x, k - 1, frame, coin, Index(x, b + 1));
      SandFallsInColumn(Visit(g, x, k - 1, frame, coin), x, b, k - 1, frame, coins);
    } else {
      OtherCodesStay(g, x, b + 1, frame, coin);
      var g2 := Visit(g, x, b, frame, coins[Index(x, b)]);
      SandFallsStraight(g, x, b, frame, coins[Index(x, b)]);
      ColumnIsLocal(g2, x, b, frame, coins, Index(x, b + 1));
    }
  }

  /**
   * Sand on a pile of Stone reaching the bottom row, with Empty down-left of it and
   * its coin false, has left for the cell down-left once column x has been visited.
   */
  lemma SandLeavesColumn(g: seq<int>, x: int, y: int, frame: nat, coins: seq<bool>)
    requires |g| == Size && |coins| == Cells && 0 < x < W && 0 <= y < H - 2
    requires SandOnPile(g, x, y, coins)
    ensures ColumnFrom(g, x, H, frame, coins)[Index(x - 1, y + 1)] == Sand
    ensures ColumnFrom(g, x, H, frame, coins)[Index(x - 1, y + 2)] == Empty
  {
    hide Visit;
    IndexInGrid(x, y);
    IndexInGrid(x - 1, y + 1);
    IndexInGrid(x - 1, y + 2);
    StonePileStays(g, x, y, H, frame, coins);
    assert g[Index(x, y + 1)] == Stone;
    SandSlidesDiagonally(g, x, y, frame, false);
    var g2 := Visit(g, x, y, frame, false);
    ColumnIsLocal(g2, x, y, frame, coins, Index(x - 1, y + 1));
    ColumnIsLocal(g2, x, y, frame, coins, Index(x - 1, y + 2));
  }

  /** The scene of SandMayMoveTwice: Sand at (x, y) on a Stone pile, Empty down-left of it twice. */
  predicate SandOnPile(g: seq<int>, x: int, y: int, coins: seq<bool>)
    requires |g| == Size && |coins| == Cells && 0 < x < W && 0 <= y < H - 2
  {
    g[Index(x, y)] == Sand && !coins[Index(x, y)] &&
    (forall b :: y < b < H ==> g[Index(x, b)] == Stone) &&
    g[Index(x - 1, y + 1)] == Empty && g[Index(x - 1, y + 2)] == Empty
  }

  /** Visiting a column right of x leaves the scene of SandMayMoveTwice as it was. */
  lemma SandOnPileSurvives(g: seq<int>, c: int, x: int, y: int, frame: nat, coins: seq<bool>)
    requires |g| == Size && |coins| == Cells && 0 < x < c < W && 0 <= y < H - 2
    requires SandOnPile(g, x, y, coins)
    ensures SandOnPile(ColumnFrom(g, c, H, frame, coins), x, y, coins)
  {
    hide Visit;
    var g1 := ColumnFrom(g, c, H, frame, coins);
    IndexInGrid(x, y);
    IndexInGrid(x - 1, y + 1);
    IndexInGrid(x - 1, y + 2);
    ColumnIsLocal(g, c, H, frame, coins, Index(x, y));
    ColumnIsLocal(g, c, H, frame, coins, Index(x - 1, y + 1));
    ColumnIsLocal(g, c, H, frame, coins, Index(x - 1, y + 2));
    forall b | y < b < H ensures g1[Index(x, b)] == Stone {
      IndexInGrid(x, b);
      ColumnIsLocal(g, c, H, frame, coins, Index(x, b));
    }
  }

  /** The visits of columns j-1 down to 0, starting from the scene of SandMayMoveTwice with x < j. */
  lemma {:induction false} SandMovesTwiceFrom(g: seq<int>, j: int, x: int, y: int, frame: nat, coins: seq<bool>)
    requires |g| == Size && |coins| == Cells && 0 < x < j <= W && 0 <= y < H - 2
    requires SandOnPile(g, x, y, coins)
    ensures ColumnsFrom(g, j, frame, coins)[Index(x - 1, y + 2)] == Sand
    decreases j
  {
    hide Visit;
    var g1 := ColumnFrom(g, j - 1, H, frame, coins);
    if j - 1 > x {
      SandOnPileSurvives(g, j - 1, x, y, frame, coins);
      SandMovesTwiceFrom(g1, j - 1, x, y, frame, coins);
    } else {
      SandLeavesColumn(g, x, y, frame, coins);
      SandFallsAgain(g1, x, y, frame, coins);
    }
  }

  /** Sand that has just slid into (x-1, y+1) over Empty is at (x-1, y+2) after the columns from x-1 down. */
  lemma SandFallsAgain(g: seq<int>, x: int, y: int, frame: nat, coins: seq<bool>)
    requires |g| == Size && |coins| == Cells && 0 < x < W && 0 <= y < H - 2
    requires g[Index(x - 1, y + 1)] == Sand && g[Index(x - 1, y + 2)] == Empty
    ensures ColumnsFrom(g, x, frame, coins)[Index(x - 1, y + 2)] == Sand
  {
    hide Visit;
    var g1 := ColumnFrom(g, x - 1, H, frame, coins);
    IndexInGrid(x - 1, y + 2);
    SandFallsInColumn(g, x - 1, y + 1, H, frame, coins);
    ColumnsAreLocal(g1, x - 1, frame, coins, Index(x - 1, y + 2));
  }

  /**
   * There is no per-step "moved" mark: Sand that slides down-left off a Stone pile lands
   * in the column to its left, which the scan visits later in the same step, and there
   * it falls again, two rows in a single step.
   */
  lemma SandMayMoveTwice(g: seq<int>, x: int, y: int, frame: nat, coins: seq<bool>)
    requires |g| == Size && |coins| == Cells && 0 < x < W && 0 <= y < H - 2
    requires g[Index(x, y)] == Sand && !coins[Index(x, y)]
    requires forall b :: y < b < H ==> g[Index(x, b)] == Stone
    requires g[Index(x - 1, y + 1)] == Empty && g[Index(x - 1, y + 2)] == Empty
    ensures Step(g, frame, coins)[Index(x - 1, y + 2)] == Sand
  {
    SandMovesTwiceFrom(g, W, x, y, frame, coins);
  }
}
