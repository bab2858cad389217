# SandSim falling-sand core in Dafny

SandSim is a falling-sand toy. A window of 800x600 pixels is divided into 10x10-pixel squares. That gives a grid of 80 columns and 60 rows. Each square holds a material code: 0 Empty, 1 Sand, 2 Water, 3 Stone. The codes are stored row-major in one flat vector, index `x + y*80`, followed by one padding cell that is never used.

Once per frame, the program does three things in order:
- It runs one step of the automaton.
- It applies the mouse brush.
- It processes the wheel events, which cycle the selected material.

The automaton visits columns from right to left, and within each column it visits rows from bottom to top. Each visited cell is rewritten in place by the rule for its material:
- **Sand** falls into Empty or Water below it. Otherwise it tries the two diagonals below, in an order chosen by a fair coin.
- **Water** falls into Empty below it. Otherwise it tries the diagonals below and then the two sides, left first on even frames and right first on odd frames.
- **Stone** sinks straight down into Empty or Water.

There is no per-step "moved" mark. Sand that slides to the left lands in a column that has not been scanned yet, so it can move again in the same step. Nothing on the bottom row ever acts.

Some descriptions of SandSim mention Lava, Ice, bombs, moved flags and random diagonal order for every material. The code in `src/main.rs` has none of these, and this model follows the code.

The model has five modules:
- `Grid` holds the constants, the material codes and the bounds-checked neighbour index `TryMove`.
- `Rules` holds the per-material rules as functions of the whole vector at the moment of the visit.
- `Scan` holds the step as a function: the scan order is written as a tail recursion over rows and columns. It also holds the lemmas about what a step keeps.
- `Brush` and `Selection` hold the mouse brush and the wheel.
- `Sandbox` holds a class with the vector as an `array<int>`, the frame counter and the selection. Its methods run the same descending loops and in-place writes as the program. Each method is proved to produce exactly the state the specification functions describe.

The random coin of the Sand rule is a parameter. `coins` is a sequence of W*H booleans, and the visit of (x, y) uses `coins[x + y*W]`. Each position is visited once per step, so this covers every sequence of coin draws. Mouse state and wheel deltas are also parameters of `Frame`.

## Model

| member | source | states |
|---|---|---|
| Grid.GridFitsWindow | src/main.rs:30-33 | The grid is 80 = 800/10 columns by 60 = 600/10 rows. |
| Grid.IndexInGrid | src/main.rs:115-116 | An on-grid position's index lies in [0, W*H), and so never reaches the padding cell. The index decodes back to the position: `% W` gives x and `/ W` gives y. |
| Grid.TryMove | src/main.rs:170-178 | A neighbour index is returned exactly when the neighbour is on the grid. The index is below W*H and decodes to (x+dx, y+dy). |
| Rules.Swap | src/main.rs:119-121 | An exchange of two cells keeps the multiset of codes. It exchanges exactly the two cells and leaves every other cell unchanged. |
| Rules.FirstFree | src/main.rs:145-153 | The direction search answers only with a free, in-grid neighbour below W*H. |
| Rules.FirstFreeIsFirst | src/main.rs:186-195 | The answer is the neighbour of the first admitting direction, and all earlier directions are refused. The answer is None exactly when every direction is refused. |
| Rules.FirstFreeOfTwo | src/main.rs:143-153 | Over two directions, the search gives the first direction's neighbour if it admits, otherwise the second's, otherwise None. |
| Rules.SandRule | src/main.rs:112-153 | The Sand rule, for Sand above the bottom row, only rearranges the cells: the multiset of codes is kept and the padding cell is untouched. When it changes anything, the cell the Sand leaves holds Empty or Water. |
| Rules.WaterRule | src/main.rs:156-209 | The Water rule, for Water above the bottom row, only rearranges the cells: the multiset of codes is kept and the padding cell is untouched. When it changes anything, the cell the Water leaves holds Empty. |
| Rules.StoneRule | src/main.rs:212-220 | The Stone rule, for Stone above the bottom row, never touches the padding cell. Over Empty or Water the cell below becomes Stone and the Stone's own cell becomes Empty. Over anything else both cells are kept. |
| Rules.Visit | src/main.rs:110-222 | A visit keeps the vector's length and never writes the padding cell. |
| Rules.SandFallsStraight | src/main.rs:112-121 | Sand above Empty or Water swaps with the cell below. The target becomes Sand, and the source becomes Water if the target held Water, otherwise Empty. |
| Rules.SandSlidesDiagonally | src/main.rs:122-153 | Blocked Sand swaps with the down-right diagonal first when the coin is true, and with the down-left diagonal first otherwise. It takes the first in-grid Empty or Water diagonal, and stays put when neither is free. |
| Rules.WaterFlows | src/main.rs:156-209 | Water falls into Empty. Otherwise it tries the diagonals, then the sides, each pair ordered by frame parity (left first on even frames). It swaps with the first Empty cell, only ever Empty, and otherwise stays. |
| Rules.StoneSinksStraight | src/main.rs:212-220 | Stone above Empty or Water moves straight down. The cell it leaves is always Empty, because the test reads the cell already overwritten with Stone. Otherwise nothing changes. |
| Rules.BottomRowStays | src/main.rs:110-222 | A visit to any bottom-row cell changes nothing, whatever its material. |
| Rules.OtherCodesStay | src/main.rs:110-222 | A visit to Empty, or to a code that names no material, changes nothing. |
| Rules.SandIsLocal | src/main.rs:112-153 | A Sand visit changes, besides its own cell, only cells that held Empty or Water, in its row or the row below, at most one column away. |
| Rules.WaterIsLocal | src/main.rs:156-209 | A Water visit changes, besides its own cell, only cells that held Empty or Water, in its row or the row below, at most one column away. |
| Rules.VisitIsLocal | src/main.rs:110-222 | Any visit changes, besides the visited cell, only cells that held Empty or Water, in its row or the row below, at most one column away. |
| Rules.FirstFreeIgnoresPadding | src/main.rs:133-141 | The direction search gives the same answer whatever the padding cell holds. |
| Rules.SandRuleIgnoresPadding | src/main.rs:112-153 | The Sand rule neither reads nor writes the padding cell. |
| Rules.WaterRuleIgnoresPadding | src/main.rs:156-209 | The Water rule neither reads nor writes the padding cell. |
| Rules.StoneRuleIgnoresPadding | src/main.rs:212-220 | The Stone rule neither reads nor writes the padding cell. |
| Rules.VisitIgnoresPadding | src/main.rs:110-222 | A visit carries the padding cell through untouched, and reads nothing from it. |
| Scan.ColumnFrom | src/main.rs:111-222 | Scanning a column from row k up to row 0 keeps the vector's length and never writes the padding cell. |
| Scan.ColumnsFrom | src/main.rs:110-223 | Scanning the columns from j-1 down to 0 keeps the vector's length and never writes the padding cell. |
| Scan.Step | src/main.rs:110-223 | A step keeps the vector's length W*H+1 and never writes the padding cell. Its other properties are the lemmas below. |
| Scan.StoneOverWater | src/main.rs:217-219 | Stone's two writes over Water trade exactly one Water for one Empty in the multiset of codes. |
| Scan.StoneVisitCounts | src/main.rs:212-220 | A Stone visit is an exchange with Empty, or turns the Water below into Empty, or does nothing. |
| Scan.VisitCounts | src/main.rs:110-222 | Every visit keeps the multiset of codes, except Stone above Water. That visit turns exactly one Water into Empty. |
| Scan.VisitEvolves | src/main.rs:110-222 | A visit keeps the padding cell and the Sand and Stone counts. It never increases the Water count, and keeps Empty plus Water. With no Stone it keeps the whole multiset. |
| Scan.ColumnEvolves | src/main.rs:111-222 | The same holds for the scan of one column. |
| Scan.ColumnsEvolve | src/main.rs:110-223 | The same holds for the scan of any number of columns. |
| Scan.CodesFollowCounts | src/main.rs:110-223 | A vector of material codes, evolved as above, still holds only material codes. |
| Scan.VisitKeepsBottom | src/main.rs:112-113 | A visit leaves unchanged a bottom-row cell holding anything but Empty or Water. |
| Scan.ColumnKeepsBottom | src/main.rs:111-222 | The same holds for a column's scan. |
| Scan.ColumnsKeepBottom | src/main.rs:110-223 | The same holds for the scan of any number of columns. |
| Scan.StepConservesSandAndStone | src/main.rs:110-223 | A step keeps the number of Sand cells and the number of Stone cells. |
| Scan.StepNeverCreatesWater | src/main.rs:110-223 | A step never increases the number of Water cells, and keeps the number of Empty plus Water cells. |
| Scan.StepPermutesWithoutStone | src/main.rs:110-223 | Without Stone, a step is a permutation of the vector. |
| Scan.StepWritesOnlyCodes | src/main.rs:110-223 | If every cell holds a code 0-3 before a step, every cell does after it. |
| Scan.StepKeepsBottomRow | src/main.rs:110-223 | A bottom-row cell holding Sand, Stone or another non-free code is the same after the step. |
| Scan.ColumnIgnoresPadding | src/main.rs:111-222 | A column's scan carries the padding cell through untouched and unread. |
| Scan.ColumnsIgnorePadding | src/main.rs:110-223 | The same holds for the scan of any number of columns. |
| Scan.StepIgnoresPadding | src/main.rs:110-223 | Changing the padding cell changes nothing else in a step's result. |
| Scan.ColumnIsLocal | src/main.rs:111-222 | A column's scan changes only cells within one column of it, at most one row below the visited rows, and each such cell is either visited or held Empty or Water. |
| Scan.ColumnsAreLocal | src/main.rs:110-223 | Scanning the columns from j-1 down changes nothing right of column j, and in column j only cells that held Empty or Water. |
| Scan.StonePileStays | src/main.rs:212-220 | A pile of Stone reaching down to the bottom row does not move when its column is scanned. |
| Scan.SandFallsInColumn | src/main.rs:111-121 | Sand over Empty in a column falls into that Empty cell when the column's scan reaches it. |
| Scan.SandLeavesColumn | src/main.rs:122-153 | Sand on a Stone pile with Empty down-left of it, and a false coin, has slid down-left once its column is scanned. |
| Scan.SandOnPileSurvives | src/main.rs:110-223 | Scanning a column right of that Sand leaves the Sand, the pile and the two Empty cells down-left of it as they were. |
| Scan.SandFallsAgain | src/main.rs:110-223 | Sand that has just slid into the next column over Empty falls again when that column is scanned, and nothing later moves it. |
| Scan.SandMovesTwiceFrom | src/main.rs:110-223 | Scanning the columns from any column right of that Sand ends with the Sand two rows down and one column left. |
| Scan.SandMayMoveTwice | src/main.rs:110-223 | There is no per-step "moved" mark. In one whole step, Sand on a Stone pile with Empty down-left of it twice, and a false coin, slides down-left into the column scanned next and falls again there: it ends two rows lower. |
| Selection.TruncRem3 | src/main.rs:257 | Rust's `%` by 3 has the sign of the dividend, lies strictly between -3 and 3, and is congruent to the dividend. |
| Selection.WheelAsWritten | src/main.rs:255-261 | The wheel update as written yields a value in [-2, 2] that is never -1. |
| Selection.Wheel | src/main.rs:255-261 | The corrected wheel update always yields a selection in {0, 1, 2} congruent to selection + delta. |
| Selection.WheelAll | src/main.rs:249-264 | The wheel events of a frame, applied in order with the corrected update, leave the selection unchanged when there are none, and in {0, 1, 2} otherwise. |
| Selection.WheelUndo | src/main.rs:255-261 | With the corrected update, scrolling back by the same delta restores a selection in {0, 1, 2}. |
| Selection.WheelAsWrittenAgrees | src/main.rs:255-261 | The update as written agrees with the cyclic one, and stays in {0, 1, 2}, whenever selection + delta is at least -1. This covers single notches, where -1 wraps to 2. |
| Selection.WheelAsWrittenLeavesRange | src/main.rs:256-260 | From selection 0, a delta of -2 leaves the update as written at -2, where the cyclic update gives 1. |
| Brush.PixelToCell | src/main.rs:227-228 | Rust's `/` by the square size truncates toward zero: a non-negative pixel lies inside the returned square, and a negative pixel lies in the square just left of (or above) the returned one, the returned cell being at most 0. |
| Brush.Clamp | src/main.rs:230-231 | `min` then `max` forces a value into [0, hi], and leaves values already inside unchanged. |
| Brush.Cursor | src/main.rs:227-231 | The cursor cell is always on the grid. Inside the window it is the square under the pixel. Past an edge it is the edge cell. |
| Brush.BrushCode | src/main.rs:234 | `selected as u8 + 1` is a byte, and is selection + 1 for the three materials. |
| Brush.Paint | src/main.rs:233-239 | The brush changes no cell other than the cursor cell. |
| Brush.PaintCursorCell | src/main.rs:233-239 | The cursor cell becomes Empty on a right press, even together with a left press. On a left press alone it becomes selection + 1. Without a press it is unchanged. The padding cell is untouched. |
| Brush.PaintKeepsCodes | src/main.rs:233-239 | With the selection in range, the brush writes only material codes. |
| Brush.BrushAfterWheelAsWritten | src/main.rs:234-260 | With the selection at -2, reachable by the update as written, a left press writes code 255, which names no material. |
| Sandbox.FindFree | src/main.rs:145-153 | The loop over the directions, with its early exit, returns exactly the first free in-grid neighbour. |
| Sandbox.SandCell | src/main.rs:112-154 | The in-place Sand writes produce exactly the Sand rule's vector. |
| Sandbox.WaterCell | src/main.rs:156-210 | The in-place Water writes, using the diagonal pass and then the side pass, produce exactly the Water rule's vector. |
| Sandbox.StoneCell | src/main.rs:212-221 | Stone's writes, in the program's order (write 3, then test for 2), produce exactly the Stone rule's vector. |
| Sandbox.VisitCell | src/main.rs:110-222 | The dispatch on the material and the bottom-row guard produce exactly one visit. |
| Sandbox.ScanColumn | src/main.rs:111-222 | The descending row loop produces exactly the column scan. |
| Sandbox.FrameKeepsCodes | src/main.rs:110-239 | With the selection in {0, 1, 2}, a step followed by the brush keeps every cell a material code. |
| Sandbox.Sandbox.constructor | src/main.rs:39-46 | The vector starts with W*H+1 Empty cells, Sand selected and frame 0. |
| Sandbox.Sandbox.Step | src/main.rs:110-223 | The descending column loop rewrites the array in place into exactly the step function's result, and keeps every cell a material code. |
| Sandbox.Sandbox.Paint | src/main.rs:226-239 | The brush writes the array in place into exactly the brush function's result, and keeps every cell a material code. |
| Sandbox.Sandbox.Scroll | src/main.rs:255-261 | One wheel event moves the selection cyclically and keeps it in {0, 1, 2}. |
| Sandbox.Sandbox.Frame | src/main.rs:54-288 | One pass of the main loop: the vector is the brush applied to the step at the frame's old counter and old selection. The selection is the wheel events applied in order, and the counter goes up by one. |

## Left out

- SDL initialisation, window, canvas, event pump and `canvas.present` are library I/O. The Quit and Escape exit of the main loop is control flow around that I/O.
- Per-cell colours, the checkerboard offset, the selection swatch and the rock texture (random floating point) only draw, and never feed back into the vector.
- The `sleep` frame pacing is timing only.
- `thread_rng` is replaced by the `coins` parameter, one coin per position. The program draws a coin only when Sand is blocked, so some coins go unused; this changes nothing about the result.
- The float-to-integer casts of the mouse position and the wheel delta are not modelled. Both are parameters of type `int`: the mouse pixel after the cast to `i32`, and the wheel delta after the cast to `i8`.
- Selection.WheelAsWritten: it does not model `i8` overflow of `selected_material += delta`, which needs a wheel delta of more than 125 notches in one event.
- Sandbox.Sandbox.Scroll: it uses the corrected `Wheel`, not the update as written. See Findings.
- Selection.WheelAll: it applies the corrected `Wheel`, so it does not follow the update as written when a delta takes the selection below -1.
- Selection.WheelUndo: it is stated for the corrected `Wheel`; under the update as written, undoing can fail: from 1, delta 2 gives 0, and delta -2 then gives -2, not 1.
- Brush.BrushCode: it models `as u8 + 1` as wrapping. A debug build would panic at 255 + 1, which needs a selection of -1, and the program never keeps that value.
- Sandbox.Sandbox.Frame: the frame counter is unbounded. The program's counter is an `i32`, which would overflow after 2^31 frames. Its wheel events use the corrected update `Wheel`, not the update as written, so its selection stays in {0, 1, 2}.
- The `directions` computed at the top of each frame (src/main.rs:55-56) are never used. The Water rule computes its own.

## Findings

| source | as written | input that shows it | evidently intended | confidence | as-written member | corrected member |
|---|---|---|---|---|---|---|
| src/main.rs:256-260 | `selected_material %= 3` truncates toward zero, and only a remainder of -1 is mapped to 2 | selection 0 and one wheel event with delta -2: the selection becomes -2, and a left press then writes code 255 into the grid | the selection cycles within {0, 1, 2} (Euclidean remainder: 0 - 2 gives 1) | medium, not executed | Selection.WheelAsWrittenLeavesRange | Selection.Wheel |
